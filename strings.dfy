/** String helpers shared by the backend model: the standard-library string
    operations (`starts_with`, `find`, `split`, `replace`, …) the Rust code
    calls, stated over `seq<char>`. */
module Strings {

  datatype Option<T> = None | Some(value: T)

  predicate StartsWith(s: string, p: string) {
    |p| <= |s| && s[..|p|] == p
  }

  predicate EndsWith(s: string, p: string) {
    |p| <= |s| && s[|s| - |p|..] == p
  }

  /** `p` occurs in `s` starting at index `i`. */
  predicate OccursAt(s: string, p: string, i: nat) {
    i + |p| <= |s| && s[i..i + |p|] == p
  }

  predicate Contains(s: string, p: string) {
    exists i: nat :: i <= |s| && OccursAt(s, p, i)
  }

  /** Rust's `str::find`: the first index at which `p` occurs. */
  function Find(s: string, p: string): (r: Option<nat>)
    ensures r.Some? ==> OccursAt(s, p, r.value)
    ensures r.Some? ==> forall j: nat :: j < r.value ==> !OccursAt(s, p, j)
    ensures r.None? ==> !Contains(s, p)
  {
    FindFrom(s, p, 0)
  }

  function FindFrom(s: string, p: string, i: nat): (r: Option<nat>)
    requires forall j: nat :: j < i ==> !OccursAt(s, p, j)
    ensures r.Some? ==> i <= r.value && OccursAt(s, p, r.value)
    ensures r.Some? ==> forall j: nat :: j < r.value ==> !OccursAt(s, p, j)
    ensures r.None? ==> !Contains(s, p)
    decreases |s| - i
  {
    if i + |p| > |s| then
      assert forall j: nat :: j >= i ==> !OccursAt(s, p, j);
      None
    else if s[i..i + |p|] == p then Some(i)
    else FindFrom(s, p, i + 1)
  }

  /** Index of the first `c` in `s`. */
  function IndexOf(s: string, c: char): (r: Option<nat>)
    ensures r.Some? ==> r.value < |s| && s[r.value] == c && c !in s[..r.value]
    ensures r.None? ==> c !in s
  {
    if s == [] then None
    else if s[0] == c then Some(0)
    else match IndexOf(s[1..], c)
      case None => None
      case Some(i) => Some(i + 1)
  }

  /** The first `c` of `x + [c] + rest`, when `x` has none, ends `x`. */
  lemma IndexOfAt(x: string, rest: string, c: char)
    requires c !in x
    ensures IndexOf(x + [c] + rest, c) == Some(|x|)
  {
    var s := x + [c] + rest;
    assert s[|x|] == c && s[..|x|] == x;
    assert c in s;
  }

  /** Index of the last `c` in `s`. */
  function LastIndexOf(s: string, c: char): (r: Option<nat>)
    ensures r.Some? ==> r.value < |s| && s[r.value] == c && c !in s[r.value + 1..]
    ensures r.None? ==> c !in s
  {
    if s == [] then None
    else if s[|s| - 1] == c then Some(|s| - 1)
    else LastIndexOf(s[..|s| - 1], c)
  }

  /** Rust's `str::split(c)`: always at least one piece, none containing `c`. */
  function Split(s: string, c: char): (r: seq<string>)
    ensures |r| >= 1
    decreases |s|
  {
    match IndexOf(s, c)
    case None => [s]
    case Some(i) => [s[..i]] + Split(s[i + 1..], c)
  }

  /** No piece holds the separator. */
  lemma {:induction false} SplitPiecesFree(s: string, c: char)
    ensures forall k :: 0 <= k < |Split(s, c)| ==> c !in Split(s, c)[k]
    decreases |s|
  {
    match IndexOf(s, c)
    case None =>
    case Some(i) =>
      SplitPiecesFree(s[i + 1..], c);
      assert Split(s, c) == [s[..i]] + Split(s[i + 1..], c);
  }

  /** Rust's `join` with a one-character separator. */
  function Join(parts: seq<string>, c: char): string
  {
    if parts == [] then ""
    else if |parts| == 1 then parts[0]
    else parts[0] + [c] + Join(parts[1..], c)
  }

  lemma {:induction false} JoinSplit(s: string, c: char)
    ensures Join(Split(s, c), c) == s
    decreases |s|
  {
    match IndexOf(s, c)
    case None =>
    case Some(i) =>
      var rest := Split(s[i + 1..], c);
      assert Split(s, c) == [s[..i]] + rest;
      JoinSplit(s[i + 1..], c);
      calc {
        Join(Split(s, c), c);
        s[..i] + [c] + Join(rest, c);
        s[..i] + [c] + s[i + 1..];
        s;
      }
  }

  /** The last piece of `split(c)` is the text after the last `c`, or the
      whole string when there is no `c`. */
  lemma SplitLast(s: string, c: char)
    ensures var last := Split(s, c)[|Split(s, c)| - 1];
      && EndsWith(s, last) && c !in last
      && (|last| < |s| ==> s[|s| - |last| - 1] == c)
  {
    var pieces := Split(s, c);
    match LastIndexOf(s, c)
    case None =>
      assert pieces == [s];
      assert pieces[|pieces| - 1] == s;
      assert EndsWith(s, s) by {
        assert s[|s| - |s|..] == s;
      }
    case Some(k) =>
      var base, tail := s[..k], s[k + 1..];
      assert base + [c] + tail == s;
      SplitLastPiece(base, tail, c);
      assert pieces[|pieces| - 1] == tail;
      assert EndsWith(s, tail) by {
        assert s[|s| - |tail|..] == tail;
      }
      assert s[|s| - |tail| - 1] == c;
  }

  /** Splitting `base + [c] + last` with `last` free of `c` ends with
      `last`. */
  lemma {:induction false} SplitLastPiece(base: string, last: string, c: char)
    requires c !in last
    ensures Split(base + [c] + last, c)[|Split(base + [c] + last, c)| - 1] == last
    decreases |base|
  {
    var s := base + [c] + last;
    match IndexOf(s, c)
    case None =>
    case Some(i) =>
      var tail := s[i + 1..];
      SplitDropsFirst(s, c, i);
      LastOfAppend([s[..i]], Split(tail, c));
      if i < |base| {
        assert tail == base[i + 1..] + [c] + last;
        SplitLastPiece(base[i + 1..], last, c);
      } else {
        assert s[|base|] == c;
        assert tail == last;
        assert Split(tail, c) == [last];
      }
  }

  /** Past the first `c`, the pieces of `s` are those of what follows it. */
  lemma SplitDropsFirst(s: string, c: char, i: nat)
    requires IndexOf(s, c) == Some(i)
    ensures Split(s, c) == [s[..i]] + Split(s[i + 1..], c)
  {
  }

  lemma LastOfAppend<T>(a: seq<T>, b: seq<T>)
    requires |b| > 0
    ensures (a + b)[|a + b| - 1] == b[|b| - 1]
  {
  }

  lemma {:induction false} JoinSnoc(parts: seq<string>, x: string, c: char)
    requires parts != []
    ensures Join(parts + [x], c) == Join(parts, c) + [c] + x
    decreases |parts|
  {
    if |parts| > 1 {
      assert (parts + [x])[1..] == parts[1..] + [x];
      JoinSnoc(parts[1..], x, c);
    }
  }

  /** Rust's `str::split_once(c)`. */
  function SplitOnce(s: string, c: char): (r: Option<(string, string)>)
    ensures r.None? <==> c !in s
    ensures r.Some? ==> s == r.value.0 + [c] + r.value.1 && c !in r.value.0
  {
    match IndexOf(s, c)
    case None => None
    case Some(i) =>
      assert s == s[..i] + [c] + s[i + 1..];
      Some((s[..i], s[i + 1..]))
  }

  lemma SplitOnceAt(x: string, rest: string, c: char)
    requires c !in x
    ensures SplitOnce(x + [c] + rest, c) == Some((x, rest))
  {
    IndexOfAt(x, rest, c);
    var s := x + [c] + rest;
    assert s[..|x|] == x && s[|x| + 1..] == rest;
  }

  /** Rust's `str::replace(p, r)` for a non-empty pattern: every
      non-overlapping occurrence, scanning left to right, is replaced. */
  function ReplaceAll(s: string, p: string, r: string): string
    requires |p| > 0
    decreases |s|
  {
    if |s| < |p| then s
    else if s[..|p|] == p then r + ReplaceAll(s[|p|..], p, r)
    else [s[0]] + ReplaceAll(s[1..], p, r)
  }

  /** Replacing a character by nothing removes every copy of it and keeps
      the other characters. */
  lemma {:induction false} ReplaceAllDrops(s: string, c: char)
    ensures forall x :: x in ReplaceAll(s, [c], "") <==> x in s && x != c
    decreases |s|
  {
    if |s| >= 1 {
      ReplaceAllDrops(s[1..], c);
      assert s == [s[0]] + s[1..];
      assert s[..1] == [s[0]];
    }
  }

  lemma {:induction false} ReplaceAllAbsent(s: string, p: string, r: string)
    requires |p| > 0 && !Contains(s, p)
    ensures ReplaceAll(s, p, r) == s
    decreases |s|
  {
    if |s| >= |p| {
      assert !OccursAt(s, p, 0);
      forall i: nat ensures !OccursAt(s[1..], p, i) {
        if OccursAt(s[1..], p, i) {
          assert s[1..][i..i + |p|] == s[i + 1..i + 1 + |p|];
          assert OccursAt(s, p, i + 1);
        }
      }
      ReplaceAllAbsent(s[1..], p, r);
    }
  }

  /** Replace every occurrence of the character `a` by `b`. */
  function ReplaceChar(s: string, a: char, b: char): (r: string)
    ensures |r| == |s|
    ensures forall i :: 0 <= i < |s| ==> r[i] == if s[i] == a then b else s[i]
  {
    seq(|s|, i requires 0 <= i < |s| => if s[i] == a then b else s[i])
  }

  /** The ASCII part of `to_lowercase`. */
  function LowerChar(c: char): char {
    if 'A' <= c <= 'Z' then (c as int + 32) as char else c
  }

  function Lower(s: string): (r: string)
    ensures |r| == |s|
    ensures forall i :: 0 <= i < |s| ==> r[i] == LowerChar(s[i])
  {
    seq(|s|, i requires 0 <= i < |s| => LowerChar(s[i]))
  }

  /** Lower-casing twice is lower-casing once. */
  lemma LowerIdempotent(s: string)
    ensures Lower(Lower(s)) == Lower(s)
  {
    assert forall i :: 0 <= i < |s| ==> LowerChar(LowerChar(s[i])) == LowerChar(s[i]);
  }

  /** Code-point lexicographic order, which is the order of Rust's `String`
      comparison (UTF-8 byte order agrees with code-point order). */
  predicate StrLe(a: string, b: string)
    decreases |a|
  {
    if a == [] then true
    else if b == [] then false
    else if a[0] != b[0] then a[0] < b[0]
    else StrLe(a[1..], b[1..])
  }

  lemma {:induction false} StrLeTotal(a: string, b: string)
    ensures StrLe(a, b) || StrLe(b, a)
    decreases |a|
  {
    if a != [] && b != [] && a[0] == b[0] {
      StrLeTotal(a[1..], b[1..]);
    }
  }

  lemma {:induction false} StrLeTransitive(a: string, b: string, c: string)
    requires StrLe(a, b) && StrLe(b, c)
    ensures StrLe(a, c)
    decreases |a|
  {
    if a != [] && b != [] && c != [] && a[0] == b[0] && b[0] == c[0] {
      StrLeTransitive(a[1..], b[1..], c[1..]);
    }
  }

  lemma {:induction false} StrLeAntisymmetric(a: string, b: string)
    requires StrLe(a, b) && StrLe(b, a)
    ensures a == b
    decreases |a|
  {
    if a != [] && b != [] {
      StrLeAntisymmetric(a[1..], b[1..]);
      assert a == [a[0]] + a[1..] && b == [b[0]] + b[1..];
    }
  }

  predicate Distinct<T(==)>(s: seq<T>) {
    forall i, j :: 0 <= i < j < |s| ==> s[i] != s[j]
  }
}
