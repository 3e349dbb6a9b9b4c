/** `fix_path` of src-tauri/src/profiles.rs: the first case-insensitive
    match of `bepinex/(.+?)/(.+)` is rewritten to `BepInEx/<lower $1>/$2`.
    The regular expression is modelled directly: the literal matches ASCII
    case-insensitively, `.` is any character but a newline, the first group
    is lazy, the second greedy, and the engine picks the leftmost start. */
module PathFix {
  import opened Strings

  const Marker := "bepinex/"
  const Canonical := "BepInEx/"

  /** The literal `bepinex/` matches at `i`, letters in any case. */
  predicate MarkerAt(s: string, i: nat) {
    i + |Marker| <= |s| && forall k :: 0 <= k < |Marker| ==> LowerChar(s[i + k]) == Marker[k]
  }

  predicate NoNewline(s: string, lo: nat, hi: nat)
    requires lo <= hi <= |s|
  {
    forall k :: lo <= k < hi ==> s[k] != '\n'
  }

  /** `(.+?)/` can end at `j` when the group starts at `from`: the group
      `s[from..j]` is non-empty and newline-free, `s[j]` is the slash, and
      the second group can take at least the character after it. */
  predicate SplitsAt(s: string, from: nat, j: nat) {
    from < j && j + 1 < |s| && s[j] == '/' && s[j + 1] != '\n' && NoNewline(s, from, j)
  }

  /** `s[i..k]` matches the pattern with the first group `s[i+8..j]` and the
      second `s[j+1..k]`. */
  predicate IsMatch(s: string, i: nat, j: nat, k: nat) {
    && MarkerAt(s, i) && SplitsAt(s, i + |Marker|, j)
    && j + 1 < k <= |s| && NoNewline(s, j + 1, k)
  }

  /** The match the engine reports: leftmost start, then the shortest first
      group, then the longest second group. */
  ghost predicate Leftmost(s: string, i: nat, j: nat, k: nat) {
    && IsMatch(s, i, j, k)
    && (forall i': nat, j': nat, k': nat :: i' < i ==> !IsMatch(s, i', j', k'))
    && (forall j': nat, k': nat :: j' < j ==> !IsMatch(s, i, j', k'))
    && (forall k': nat :: k < k' ==> !IsMatch(s, i, j, k'))
  }

  /** Where the greedy `(.+)` stops: the first newline at or after `from`,
      or the end of the string. */
  function LineEnd(s: string, from: nat): (r: nat)
    requires from <= |s|
    ensures from <= r <= |s| && NoNewline(s, from, r)
    ensures r == |s| || s[r] == '\n'
    decreases |s| - from
  {
    if from == |s| || s[from] == '\n' then from else LineEnd(s, from + 1)
  }

  /** The lazy `(.+?)/`: tries every end `j` from the shortest group on. */
  function GroupEnd(s: string, from: nat, j: nat): (r: Option<nat>)
    requires from < j && j - 1 <= |s| && NoNewline(s, from, j - 1)
    requires forall j' :: from < j' < j ==> !SplitsAt(s, from, j')
    ensures r.Some? ==> SplitsAt(s, from, r.value)
    ensures r.Some? ==> forall j' :: from < j' < r.value ==> !SplitsAt(s, from, j')
    ensures r.None? ==> forall j' :: from < j' ==> !SplitsAt(s, from, j')
    decreases |s| - j
  {
    if j + 1 >= |s| then None
    else if s[j - 1] == '\n' then None
    else if s[j] == '/' && s[j + 1] != '\n' then Some(j)
    else GroupEnd(s, from, j + 1)
  }

  /** The leftmost match starting at or after `i`. */
  function MatchFrom(s: string, i: nat): (r: Option<(nat, nat, nat)>)
    requires forall i': nat, j': nat, k': nat :: i' < i ==> !IsMatch(s, i', j', k')
    ensures r.Some? ==> Leftmost(s, r.value.0, r.value.1, r.value.2)
    ensures r.None? ==> forall i': nat, j': nat, k': nat :: !IsMatch(s, i', j', k')
    decreases |s| - i
  {
    if i + |Marker| >= |s| then None
    else if MarkerAt(s, i) then
      match GroupEnd(s, i + |Marker|, i + |Marker| + 1)
      case Some(j) => Some((i, j, LineEnd(s, j + 1)))
      case None => MatchFrom(s, i + 1)
    else MatchFrom(s, i + 1)
  }

  /** `Regex::replace` looks for the first match only. */
  function FindMatch(s: string): (r: Option<(nat, nat, nat)>)
    ensures r.Some? ==> Leftmost(s, r.value.0, r.value.1, r.value.2)
    ensures r.None? ==> forall i: nat, j: nat, k: nat :: !IsMatch(s, i, j, k)
  {
    MatchFrom(s, 0)
  }

  /** There is only one leftmost match, so the scanner's is the one. */
  lemma LeftmostUnique(s: string, i: nat, j: nat, k: nat, i': nat, j': nat, k': nat)
    requires Leftmost(s, i, j, k) && Leftmost(s, i', j', k')
    ensures i == i' && j == j' && k == k'
  {
    assert i < i' ==> !IsMatch(s, i, j, k);
    assert i' < i ==> !IsMatch(s, i', j', k');
    assert j < j' ==> !IsMatch(s, i, j, k);
    assert j' < j ==> !IsMatch(s, i', j', k');
    assert k < k' ==> !IsMatch(s, i, j, k);
    assert k' < k ==> !IsMatch(s, i', j', k');
  }

  /** `fix_path`: the match is rewritten to `BepInEx/<lower $1>/$2`, and the
      text around it is kept. */
  function FixPath(s: string): (r: string)
    ensures |r| == |s|
    ensures FindMatch(s).None? ==> r == s
    ensures FindMatch(s).Some? ==> var (i, j, k) := FindMatch(s).value;
      && r[..i] == s[..i] && r[i..i + |Canonical|] == Canonical
      && r[i + |Canonical|..j] == Lower(s[i + |Marker|..j])
      && r[j..] == s[j..]
  {
    match FindMatch(s)
    case None => s
    case Some((i, j, k)) =>
      // `/$2` is `s[j..k]`, so the replacement keeps `s[j..]` whole
      var a, b := s[..i], Canonical + Lower(s[i + |Marker|..j]);
      assert (a + b + s[j..])[..i] == a;
      assert (a + b + s[j..])[i..j] == b;
      assert (a + b + s[j..])[j..] == s[j..];
      a + b + s[j..]
  }

  // ---------------------------------------------------------------------
  // Idempotence

  /** `s` and `t` differ at most in the case of ASCII letters. */
  predicate SameUpToCase(s: string, t: string) {
    |s| == |t| && forall k :: 0 <= k < |s| ==> LowerChar(s[k]) == LowerChar(t[k])
  }

  /** Matching ignores case: the slashes and newlines sit in the same places
      and the literal compares lower-cased. */
  lemma MatchIgnoresCase(s: string, t: string)
    requires SameUpToCase(s, t)
    ensures forall i: nat, j: nat, k: nat :: IsMatch(s, i, j, k) <==> IsMatch(t, i, j, k)
  {
    assert forall k :: 0 <= k < |s| ==> (s[k] == '/' <==> t[k] == '/') && (s[k] == '\n' <==> t[k] == '\n');
  }

  /** Rewriting only changes the case of the letters it touches. */
  lemma FixPathSameUpToCase(s: string)
    ensures SameUpToCase(s, FixPath(s))
  {
    var r := FixPath(s);
    if FindMatch(s).Some? {
      var (i, j, k) := FindMatch(s).value;
      assert s == s[..i] + s[i..i + |Marker|] + s[i + |Marker|..j] + s[j..];
      assert r == r[..i] + r[i..i + |Canonical|] + r[i + |Canonical|..j] + r[j..];
      CanonicalSameUpToCase(s, i);
      LowerSameUpToCase(s[i + |Marker|..j]);
      SameUpToCaseConcat(s[..i], s[i..i + |Marker|], r[..i], Canonical);
      SameUpToCaseConcat(s[..i] + s[i..i + |Marker|], s[i + |Marker|..j],
                         r[..i] + Canonical, Lower(s[i + |Marker|..j]));
      SameUpToCaseConcat(s[..i] + s[i..i + |Marker|] + s[i + |Marker|..j], s[j..],
                         r[..i] + Canonical + Lower(s[i + |Marker|..j]), r[j..]);
    }
  }

  lemma SameUpToCaseConcat(s1: string, s2: string, t1: string, t2: string)
    requires SameUpToCase(s1, t1) && SameUpToCase(s2, t2)
    ensures SameUpToCase(s1 + s2, t1 + t2)
  {
    forall k | 0 <= k < |s1 + s2| ensures LowerChar((s1 + s2)[k]) == LowerChar((t1 + t2)[k]) {
      if k >= |s1| {
        assert LowerChar(s2[k - |s1|]) == LowerChar(t2[k - |s1|]);
      }
    }
  }

  /** Where the literal matched, its canonical spelling differs only in case. */
  lemma CanonicalSameUpToCase(s: string, i: nat)
    requires MarkerAt(s, i)
    ensures SameUpToCase(s[i..i + |Marker|], Canonical)
  {
    forall k | 0 <= k < |Marker| ensures LowerChar(s[i..i + |Marker|][k]) == LowerChar(Canonical[k]) {
      assert LowerChar(s[i + k]) == Marker[k];
    }
  }

  lemma LowerSameUpToCase(x: string)
    ensures SameUpToCase(x, Lower(x))
  {
  }

  /** Fixing a fixed path changes nothing: `extract_mod` may apply
      `fix_path` to its DLL folder as often as it likes. */
  lemma FixPathIdempotent(s: string)
    ensures FixPath(FixPath(s)) == FixPath(s)
  {
    match FindMatch(s)
    case None =>
    case Some((i, j, k)) =>
      var r := FixPath(s);
      FixedMatchesAgain(s, i, j, k);
      var group := s[i + |Marker|..j];
      assert r[i + |Canonical|..j] == Lower(group);
      LowerIdempotent(group);
      KeptPieces(r, FixPath(r), i, j);
  }

  /** The rewritten path matches where the original did. */
  lemma FixedMatchesAgain(s: string, i: nat, j: nat, k: nat)
    requires FindMatch(s) == Some((i, j, k))
    ensures FindMatch(FixPath(s)) == Some((i, j, k))
  {
    var r := FixPath(s);
    FixPathSameUpToCase(s);
    MatchIgnoresCase(s, r);
    assert Leftmost(r, i, j, k);
    var m := FindMatch(r);
    LeftmostUnique(r, i, j, k, m.value.0, m.value.1, m.value.2);
  }

  /** Two strings that agree on four consecutive pieces are equal. */
  lemma KeptPieces(r: string, t: string, i: nat, j: nat)
    requires |t| == |r| && i + |Canonical| <= j <= |r|
    requires t[..i] == r[..i] && t[i..i + |Canonical|] == r[i..i + |Canonical|]
    requires t[i + |Canonical|..j] == r[i + |Canonical|..j] && t[j..] == r[j..]
    ensures t == r
  {
    assert t == t[..i] + t[i..i + |Canonical|] + t[i + |Canonical|..j] + t[j..];
    assert r == r[..i] + r[i..i + |Canonical|] + r[i + |Canonical|..j] + r[j..];
  }

  /** A path with no `bepinex/` in any case is returned as it is. */
  lemma FixPathNoMarker(s: string)
    requires forall i :: 0 <= i < |s| ==> !MarkerAt(s, i)
    ensures FixPath(s) == s
  {
  }
}
