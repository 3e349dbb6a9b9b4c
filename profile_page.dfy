/** The mod table of app/profiles/profile/page.tsx: the filter on the
    profile's mods, the name sort, the page slice, the page count, and the
    play/stop button. The query's regular expression is an input predicate
    on a mod's name. */
module ProfilePage {
  import opened Strings
  import opened Sorting
  import opened Thunderstore

  /** What `get_game_status` reports; `profile` is absent when unset. */
  datatype GameStatus = GameStatus(running: bool, profile: Option<string>)

  /** The table's sort direction. The descriptor may name either sortable
      column, but the comparator always compares mod names, so only the
      direction matters. */
  datatype Direction = Ascending | Descending

  /** The commands the play button may issue, in the order it issues them. */
  datatype GameCommand = StopGame | PlayProfile(name: string)

  // ---------------------------------------------------------------------
  // The filter

  /** `profileMods.filter(m => m.name.match(...))`. */
  function FilteredMods(mods: seq<ModInfo>, matches: string -> bool): (r: seq<ModInfo>)
    ensures |r| <= |mods|
  {
    if mods == [] then []
    else
      var rest := FilteredMods(mods[..|mods| - 1], matches);
      var m := mods[|mods| - 1];
      if matches(m.name) then rest + [m] else rest
  }

  /** The filter keeps exactly the mods whose name matches. */
  lemma {:induction false} FilteredExact(mods: seq<ModInfo>, matches: string -> bool)
    ensures forall m :: m in FilteredMods(mods, matches) <==> m in mods && matches(m.name)
  {
    if mods != [] {
      var init := mods[..|mods| - 1];
      FilteredExact(init, matches);
      assert mods == init + [mods[|mods| - 1]];
    }
  }

  /** The filter distributes over concatenation, so the mods it keeps stay
      in their relative order. */
  lemma {:induction false} FilteredConcat(a: seq<ModInfo>, b: seq<ModInfo>, matches: string -> bool)
    ensures FilteredMods(a + b, matches) == FilteredMods(a, matches) + FilteredMods(b, matches)
  {
    if b == [] {
      assert a + b == a;
    } else {
      var init, m := b[..|b| - 1], b[|b| - 1];
      var fa, fi := FilteredMods(a, matches), FilteredMods(init, matches);
      var kept := if matches(m.name) then [m] else [];
      assert FilteredMods(a + init, matches) == fa + fi by {
        FilteredConcat(a, init, matches);
      }
      assert FilteredMods(a + b, matches) == FilteredMods(a + init, matches) + kept by {
        assert a + b == (a + init) + [m];
        FilteredSnoc(a + init, m, matches);
      }
      assert FilteredMods(b, matches) == fi + kept by {
        assert b == init + [m];
        FilteredSnoc(init, m, matches);
      }
      assert (fa + fi) + kept == fa + (fi + kept);
    }
  }

  lemma FilteredSnoc(mods: seq<ModInfo>, m: ModInfo, matches: string -> bool)
    ensures FilteredMods(mods + [m], matches) ==
      FilteredMods(mods, matches) + (if matches(m.name) then [m] else [])
  {
    assert (mods + [m])[..|mods|] == mods;
  }

  /** A query every name matches (the empty one) shows every mod. */
  lemma {:induction false} FilteredAllMatch(mods: seq<ModInfo>, matches: string -> bool)
    requires forall k :: 0 <= k < |mods| ==> matches(mods[k].name)
    ensures FilteredMods(mods, matches) == mods
  {
    if mods != [] {
      var init := mods[..|mods| - 1];
      assert forall k :: 0 <= k < |init| ==> init[k] == mods[k];
      FilteredAllMatch(init, matches);
      assert mods == init + [mods[|mods| - 1]];
    }
  }

  // ---------------------------------------------------------------------
  // The sort

  predicate NameAscending(a: ModInfo, b: ModInfo) { StrLe(a.name, b.name) }
  predicate NameDescending(a: ModInfo, b: ModInfo) { StrLe(b.name, a.name) }

  /** The comparator `localeCompare`, negated when descending. */
  function Order(d: Direction): (ModInfo, ModInfo) -> bool {
    if d == Ascending then NameAscending else NameDescending
  }

  function SortByName(mods: seq<ModInfo>, d: Direction): seq<ModInfo> {
    SortBy(mods, Order(d))
  }

  /** Sorting only reorders, and orders names ascending or descending as
      the descriptor says. */
  lemma SortByNameSpec(mods: seq<ModInfo>, d: Direction)
    ensures multiset(SortByName(mods, d)) == multiset(mods)
    ensures var r := SortByName(mods, d);
      && (d == Ascending ==> forall i, j :: 0 <= i < j < |r| ==> StrLe(r[i].name, r[j].name))
      && (d == Descending ==> forall i, j :: 0 <= i < j < |r| ==> StrLe(r[j].name, r[i].name))
  {
    if d == Ascending {
      forall a, b ensures NameAscending(a, b) || NameAscending(b, a) {
        StrLeTotal(a.name, b.name);
      }
      forall a, b, c | NameAscending(a, b) && NameAscending(b, c) ensures NameAscending(a, c) {
        StrLeTransitive(a.name, b.name, c.name);
      }
      SortBySorted(mods, NameAscending);
    } else {
      forall a, b ensures NameDescending(a, b) || NameDescending(b, a) {
        StrLeTotal(a.name, b.name);
      }
      forall a, b, c | NameDescending(a, b) && NameDescending(b, c) ensures NameDescending(a, c) {
        StrLeTransitive(c.name, b.name, a.name);
      }
      SortBySorted(mods, NameDescending);
    }
  }

  // ---------------------------------------------------------------------
  // The slice and the page count

  /** How `Array.prototype.slice` reads a bound: a negative one counts
      from the end, and either way it is clamped to the array. */
  function SliceBound(i: int, n: nat): (r: nat)
    ensures r <= n
    ensures 0 <= i <= n ==> r == i
    ensures i > n ==> r == n
    ensures i < 0 ==> r == if n + i < 0 then 0 else n + i
  {
    if i < 0 then (if n + i < 0 then 0 else n + i)
    else if i < n then i
    else n
  }

  /** `s.slice(start, end)`. */
  function JsSlice<T>(s: seq<T>, start: int, end: int): (r: seq<T>)
    ensures var lo, hi := SliceBound(start, |s|), SliceBound(end, |s|);
      && |r| == (if lo < hi then hi - lo else 0)
      && forall k :: 0 <= k < |r| ==> r[k] == s[lo + k]
  {
    var lo, hi := SliceBound(start, |s|), SliceBound(end, |s|);
    if lo < hi then s[lo..hi] else []
  }

  /** The `mods` memo: the filtered mods sorted by name, then the slice
      `[(page - 1) * 20, (page - 1) * 20 + 20)`. */
  function DisplayedMods(mods: seq<ModInfo>, matches: string -> bool, d: Direction, page: int): seq<ModInfo> {
    var start := (page - 1) * 20;
    JsSlice(SortByName(FilteredMods(mods, matches), d), start, start + 20)
  }

  /** `Math.ceil(filteredMods.length / 20)`. */
  function Pages(n: nat): (r: nat)
    ensures n <= r * 20
    ensures r > 0 ==> (r - 1) * 20 < n
  {
    (n + 19) / 20
  }

  /** The pagination controls are shown above and below the table. */
  predicate ShowPagination(n: nat) {
    n > 20
  }

  /** The controls are shown exactly when there is more than one page. */
  lemma ShowPaginationIffSeveralPages(n: nat)
    ensures ShowPagination(n) <==> Pages(n) > 1
  {
    if Pages(n) > 1 {
      assert (Pages(n) - 1) * 20 >= 20;
    }
  }

  /** A page never shows more than 20 mods, whatever the page number. */
  lemma PageHoldsAtMostTwenty(mods: seq<ModInfo>, matches: string -> bool, d: Direction, page: int)
    ensures |DisplayedMods(mods, matches, d, page)| <= 20
  {
    var n := |SortByName(FilteredMods(mods, matches), d)|;
    var start := (page - 1) * 20;
    var lo, hi := SliceBound(start, n), SliceBound(start + 20, n);
    assert lo < hi ==> hi - lo <= 20;
  }

  /** Page `p` from 1 on shows the sorted mods from `(p - 1) * 20` on, up
      to 20 of them, in order; a page past the last one is empty. */
  lemma PageContents(mods: seq<ModInfo>, matches: string -> bool, d: Direction, page: int)
    requires page >= 1
    ensures var sorted := SortByName(FilteredMods(mods, matches), d);
      var r := DisplayedMods(mods, matches, d, page);
      var start := (page - 1) * 20;
      && |r| == (if |sorted| <= start then 0
                 else if |sorted| - start < 20 then |sorted| - start
                 else 20)
      && (forall k :: 0 <= k < |r| ==> r[k] == sorted[start + k])
      && (page <= Pages(|sorted|) <==> |r| > 0)
  {
    PageSlice(SortByName(FilteredMods(mods, matches), d), page);
  }

  /** The page slice of any sequence. */
  lemma PageSlice<T>(sorted: seq<T>, page: int)
    requires page >= 1
    ensures var r := JsSlice(sorted, (page - 1) * 20, (page - 1) * 20 + 20);
      var start := (page - 1) * 20;
      && |r| == (if |sorted| <= start then 0
                 else if |sorted| - start < 20 then |sorted| - start
                 else 20)
      && (forall k :: 0 <= k < |r| ==> r[k] == sorted[start + k])
      && (page <= Pages(|sorted|) <==> |r| > 0)
  {
    var n, start := |sorted|, (page - 1) * 20;
    assert SliceBound(start, n) == if start <= n then start else n;
    assert SliceBound(start + 20, n) == if start + 20 <= n then start + 20 else n;
    PageWithinCount(n, page);
  }

  /** Page `p` is within the page count exactly when some mod falls on it. */
  lemma PageWithinCount(n: nat, page: int)
    requires page >= 1
    ensures page <= Pages(n) <==> (page - 1) * 20 < n
  {
    var r := Pages(n);
    if page <= r {
      assert (page - 1) * 20 <= (r - 1) * 20;
    } else {
      assert (page - 1) * 20 >= r * 20;
    }
  }

  /** Every mod that passes the filter is shown on the page its place in
      the sorted list gives, and that page is within the page count. */
  lemma EveryModOnItsPage(mods: seq<ModInfo>, matches: string -> bool, d: Direction, k: nat)
    requires k < |FilteredMods(mods, matches)|
    ensures var sorted := SortByName(FilteredMods(mods, matches), d);
      var page := k / 20 + 1;
      && 1 <= page <= Pages(|sorted|)
      && |DisplayedMods(mods, matches, d, page)| > k % 20
      && DisplayedMods(mods, matches, d, page)[k % 20] == sorted[k]
  {
    var page := k / 20 + 1;
    assert k == (page - 1) * 20 + k % 20;
    PageContents(mods, matches, d, page);
  }

  /** No other page shows it: the places pages cover do not overlap. */
  lemma PagesDoNotOverlap(mods: seq<ModInfo>, matches: string -> bool, d: Direction, k: nat, p: int)
    requires p >= 1 && p != k / 20 + 1
    ensures !((p - 1) * 20 <= k < (p - 1) * 20 + |DisplayedMods(mods, matches, d, p)|)
  {
    PageContents(mods, matches, d, p);
  }

  // ---------------------------------------------------------------------
  // The game

  /** `isProfileRunning`: the game runs and the profile it reports is this
      one (two absent names compare equal, as `undefined === undefined`). */
  predicate IsProfileRunning(status: GameStatus, profile: Option<string>) {
    status.running && status.profile == profile
  }

  /** The play button: stop whatever runs, then start this profile unless
      it was the one running. With no profile loaded, reading its name
      throws and only the stop, if any, is issued. */
  function PlayCommands(status: GameStatus, profile: Option<string>): (r: seq<GameCommand>)
    ensures StopGame in r <==> status.running
    ensures forall c :: c in r && c.PlayProfile? ==> profile == Some(c.name)
    ensures (exists c :: c in r && c.PlayProfile?) <==> !IsProfileRunning(status, profile) && profile.Some?
    ensures |r| == 2 ==> r[0] == StopGame
  {
    var stop := if status.running then [StopGame] else [];
    if !IsProfileRunning(status, profile) && profile.Some? then
      assert (stop + [PlayProfile(profile.value)])[|stop|] == PlayProfile(profile.value);
      stop + [PlayProfile(profile.value)]
    else stop
  }

  /** The button is a toggle: on the profile that runs it only stops the
      game; with nothing running it only starts this profile; with another
      profile running it switches. */
  lemma PlayIsToggle(status: GameStatus, name: string)
    ensures IsProfileRunning(status, Some(name)) ==> PlayCommands(status, Some(name)) == [StopGame]
    ensures !status.running ==> PlayCommands(status, Some(name)) == [PlayProfile(name)]
    ensures status.running && status.profile != Some(name) ==>
      PlayCommands(status, Some(name)) == [StopGame, PlayProfile(name)]
  {
  }

  // ---------------------------------------------------------------------
  // The page's own state

  /** The query, the persisted page number and the sort descriptor. */
  class ProfileView {
    var query: string
    var page: int
    var direction: Direction

    /** What the table shows for the profile's mods, given the matcher the
        current query compiles to. */
    function Displayed(mods: seq<ModInfo>, matches: string -> bool): seq<ModInfo>
      reads this
    {
      DisplayedMods(mods, matches, direction, page)
    }

    /** `search`: back to the first page with the new query. */
    method Search(q: string)
      modifies this
      ensures query == q && page == 1 && direction == old(direction)
    {
      page := 1;
      query := q;
    }

    /** The pagination's `onChange`. */
    method ChangePage(p: int)
      modifies this
      ensures page == p && query == old(query) && direction == old(direction)
    {
      page := p;
    }

    /** The table's `onSortChange`. */
    method ChangeSort(d: Direction)
      modifies this
      ensures direction == d && query == old(query) && page == old(page)
    {
      direction := d;
    }
  }

  /** After a search the table shows the first twenty matching mods in the
      current order. */
  lemma SearchShowsFirstPage(mods: seq<ModInfo>, matches: string -> bool, d: Direction)
    ensures var sorted := SortByName(FilteredMods(mods, matches), d);
      var r := DisplayedMods(mods, matches, d, 1);
      r == sorted[..if |sorted| < 20 then |sorted| else 20]
  {
    PageContents(mods, matches, d, 1);
  }
}
