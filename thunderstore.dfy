/** src-tauri/src/thunderstore.rs: the package catalogue fetched from the
    Thunderstore index and the search over it. */
module Thunderstore {
  import opened Strings
  import opened Sorting

  /** One published release of a mod. Dates are timestamps; only their
      order is used. */
  datatype Version = Version(
    fullName: string,
    name: string,
    versionNumber: string,
    dependencies: seq<string>,
    description: string,
    downloadUrl: string,
    downloads: int,
    icon: string,
    dateCreated: int)

  /** A catalogue entry, with its releases newest first. */
  datatype Mod = Mod(
    fullName: string,
    name: string,
    owner: string,
    categories: seq<string>,
    ratingScore: int,
    dateCreated: int,
    dateUpdated: int,
    versions: seq<Version>)

  /** A mod installed in a profile, as listed in its `mods.yml`. */
  datatype ModInfo = ModInfo(
    name: string,
    fullName: string,
    description: string,
    author: string,
    versionNumber: string,
    dependencies: seq<string>,
    folder: string,
    icon: Option<string>,
    enabled: bool)

  datatype Package = Package(categories: seq<string>, mods: map<string, Mod>)

  /** The tri-state type filter: 1 include, -1 exclude, 0 no preference. */
  datatype Types = Types(mods: int, modpacks: int)

  datatype SearchResults = SearchResults(categories: seq<string>, mods: seq<Mod>, pages: nat)

  const PageSize: nat := 20
  const BepInExPack := "BepInEx-BepInExPack"

  // ---------------------------------------------------------------------
  // Version names

  /** Splits `Owner-Name-1.2.3` into the mod's full name and its version
      number: the version is what follows the last `-`. */
  function ParseModVersion(versionName: string): (string, string)
  {
    match LastIndexOf(versionName, '-')
    case None => ("", versionName)
    case Some(k) => (versionName[..k], versionName[k + 1..])
  }

  /** With a dash present, the cut gives back the input around the last dash;
      without one, the whole input is the version number. */
  lemma ParseModVersionCuts(versionName: string)
    ensures var r := ParseModVersion(versionName);
      && ('-' in versionName ==> r.0 + "-" + r.1 == versionName && '-' !in r.1)
      && ('-' !in versionName ==> r.0 == "" && r.1 == versionName)
  {
    match LastIndexOf(versionName, '-')
    case None =>
    case Some(k) =>
      assert versionName == versionName[..k] + "-" + versionName[k + 1..];
  }

  /** `parse_mod_version` step by step: split on `-`, pop the last piece as
      the version number, join the rest back with `-`. */
  function SplitPopJoin(versionName: string): (r: (string, string))
    ensures '-' in versionName ==> r.0 + "-" + r.1 == versionName && '-' !in r.1
    ensures '-' !in versionName ==> r.0 == "" && r.1 == versionName
  {
    var parts := Split(versionName, '-');
    var n := |parts| - 1;
    JoinSplit(versionName, '-');
    SplitPiecesFree(versionName, '-');
    if n == 0 then
      (Join(parts[..n], '-'), parts[n])
    else
      assert parts == parts[..n] + [parts[n]];
      JoinSnoc(parts[..n], parts[n], '-');
      (Join(parts[..n], '-'), parts[n])
  }

  /** Cutting at the last `-` is what splitting, popping and joining does. */
  lemma ParseModVersionIsSplitPopJoin(versionName: string)
    ensures ParseModVersion(versionName) == SplitPopJoin(versionName)
  {
    var a, b := ParseModVersion(versionName), SplitPopJoin(versionName);
    if '-' in versionName {
      CutAtLastDash(a.0, a.1, b.0, b.1);
    }
  }

  /** A string has one decomposition `name-version` with no `-` in the
      version. */
  lemma CutAtLastDash(a: string, b: string, x: string, y: string)
    requires a + "-" + b == x + "-" + y && '-' !in b && '-' !in y
    ensures a == x && b == y
  {
    var s := a + "-" + b;
    assert forall k :: |s| - |b| <= k < |s| ==> s[k] == b[k - (|s| - |b|)] && s[k] != '-';
    assert forall k :: |s| - |y| <= k < |s| ==> s[k] == y[k - (|s| - |y|)] && s[k] != '-';
    assert s[|s| - 1 - |b|] == '-' && s[|s| - 1 - |y|] == '-';
    assert b == s[|s| - |b|..] && y == s[|s| - |y|..];
    assert a == s[..|a|] && x == s[..|x|];
  }

  /** Joining a mod's full name and a dash-free version number with `-`
      and parsing the result gives both back. */
  lemma ParseModVersionOfJoined(name: string, number: string)
    requires '-' !in number
    ensures ParseModVersion(name + "-" + number) == (name, number)
  {
    var versionName := name + "-" + number;
    assert versionName[|name|] == '-';
    ParseModVersionCuts(versionName);
    var r := ParseModVersion(versionName);
    CutAtLastDash(r.0, r.1, name, number);
  }

  predicate HasVersion(m: Mod, number: string) {
    exists i :: 0 <= i < |m.versions| && m.versions[i].versionNumber == number
  }

  /** The first release of `versions` carrying `number`. */
  function FindVersion(versions: seq<Version>, number: string): (r: Option<Version>)
    ensures r.None? <==> forall i :: 0 <= i < |versions| ==> versions[i].versionNumber != number
    ensures r.Some? ==> r.value.versionNumber == number
    ensures r.Some? ==> exists i :: (0 <= i < |versions| && versions[i] == r.value
      && forall j :: 0 <= j < i ==> versions[j].versionNumber != number)
  {
    if versions == [] then None
    else if versions[0].versionNumber == number then Some(versions[0])
    else
      var r := FindVersion(versions[1..], number);
      assert forall i :: 1 <= i < |versions| ==> versions[i] == versions[1..][i - 1];
      r
  }

  /** A version name the lookup can be asked about: when its mod is
      catalogued, that mod has a release with its version number
      (otherwise `get_mod_version` panics on `unwrap`). */
  predicate Resolvable(pkg: Package, versionName: string) {
    var (name, number) := ParseModVersion(versionName);
    name in pkg.mods ==> HasVersion(pkg.mods[name], number)
  }

  /** `get_mod_version`: the release named by `versionName`, or None when
      its mod is not catalogued. */
  function GetModVersion(pkg: Package, versionName: string): (r: Option<Version>)
    requires Resolvable(pkg, versionName)
    ensures r.None? <==> ParseModVersion(versionName).0 !in pkg.mods
    ensures r.Some? ==> r.value in pkg.mods[ParseModVersion(versionName).0].versions
    ensures r.Some? ==> r.value.versionNumber == ParseModVersion(versionName).1
  {
    var (name, number) := ParseModVersion(versionName);
    if name in pkg.mods then FindVersion(pkg.mods[name].versions, number) else None
  }

  // ---------------------------------------------------------------------
  // Loading the catalogue

  /** The categories of one mod that are listed as filters ("Mods" and
      "Modpacks" are the type filter instead). */
  function ListedCategories(cs: seq<string>): set<string> {
    set c | c in cs && c != "Mods" && c != "Modpacks"
  }

  ghost function CategoriesOf(ms: seq<Mod>): set<string>
  {
    if ms == [] then {} else CategoriesOf(ms[..|ms| - 1]) + ListedCategories(ms[|ms| - 1].categories)
  }

  /** The mods keyed by full name, a later entry replacing an earlier one
      with the same name (`HashMap::insert`). */
  function KeyedByFullName(ms: seq<Mod>): map<string, Mod>
  {
    if ms == [] then map[]
    else KeyedByFullName(ms[..|ms| - 1])[ms[|ms| - 1].fullName := ms[|ms| - 1]]
  }

  /** Every key is the full name of its mod, and every fetched mod's name
      is a key. */
  lemma {:induction false} KeyedByFullNameKeys(ms: seq<Mod>)
    ensures forall k :: k in KeyedByFullName(ms) ==> KeyedByFullName(ms)[k].fullName == k
    ensures forall i :: 0 <= i < |ms| ==> ms[i].fullName in KeyedByFullName(ms)
  {
    if ms != [] {
      var init := ms[..|ms| - 1];
      KeyedByFullNameKeys(init);
      assert KeyedByFullName(ms) == KeyedByFullName(init)[ms[|ms| - 1].fullName := ms[|ms| - 1]];
      forall i | 0 <= i < |ms| - 1 ensures ms[i].fullName in KeyedByFullName(ms) {
        assert init[i] == ms[i];
      }
    }
  }

  /** A key maps to the LAST mod fetched under that name. */
  lemma {:induction false} KeyedByFullNameLast(ms: seq<Mod>, k: string)
    requires k in KeyedByFullName(ms)
    ensures exists i :: (0 <= i < |ms| && ms[i] == KeyedByFullName(ms)[k]
      && forall j :: i < j < |ms| ==> ms[j].fullName != k)
  {
    var init := ms[..|ms| - 1];
    var last := ms[|ms| - 1];
    assert KeyedByFullName(ms) == KeyedByFullName(init)[last.fullName := last];
    if k == last.fullName {
      assert ms[|ms| - 1] == KeyedByFullName(ms)[k];
    } else {
      KeyedByFullNameLast(init, k);
      var i :| 0 <= i < |init| && init[i] == KeyedByFullName(init)[k]
        && forall j :: i < j < |init| ==> init[j].fullName != k;
      assert ms[i] == KeyedByFullName(ms)[k];
      assert forall j :: i < j < |ms| - 1 ==> ms[j] == init[j];
    }
  }

  /** `load_package` once the index has been fetched and parsed: the first
      entry is dropped, mods are keyed by full name and the categories are
      collected without duplicates, then sorted. */
  method LoadPackage(fetched: seq<Mod>) returns (pkg: Package)
    requires |fetched| > 0
    ensures SortedBy(pkg.categories, StrLe) && Distinct(pkg.categories)
    ensures forall c :: c in pkg.categories <==> c in CategoriesOf(fetched[1..])
    ensures "Mods" !in pkg.categories && "Modpacks" !in pkg.categories
    ensures pkg.mods == KeyedByFullName(fetched[1..])
  {
    var modsV := fetched[1..];
    var mods: map<string, Mod> := map[];
    var categories: seq<string> := [];
    for i := 0 to |modsV|
      invariant Distinct(categories)
      invariant forall c :: c in categories <==> c in CategoriesOf(modsV[..i])
      invariant mods == KeyedByFullName(modsV[..i])
    {
      var m := modsV[i];
      assert modsV[..i + 1][..i] == modsV[..i];
      for j := 0 to |m.categories|
        invariant Distinct(categories)
        invariant forall c :: c in categories <==>
          c in CategoriesOf(modsV[..i]) + ListedCategories(m.categories[..j])
      {
        var c := m.categories[j];
        assert m.categories[..j + 1] == m.categories[..j] + [c];
        if c != "Mods" && c != "Modpacks" && c !in categories {
          categories := categories + [c];
        }
      }
      assert m.categories[..|m.categories|] == m.categories;
      mods := mods[m.fullName := m];
    }
    assert modsV[..|modsV|] == modsV;
    var unsorted := categories;
    StrLeIsTotalPreorder();
    SortBySorted(unsorted, StrLe);
    categories := SortBy(unsorted, StrLe);
    PermutationDistinct(unsorted, categories);
    assert forall c :: c in categories <==> c in multiset(unsorted);
    CategoriesOfUnlisted(modsV);
    pkg := Package(categories, mods);
  }

  lemma {:induction false} CategoriesOfUnlisted(ms: seq<Mod>)
    ensures "Mods" !in CategoriesOf(ms) && "Modpacks" !in CategoriesOf(ms)
  {
    if ms != [] {
      CategoriesOfUnlisted(ms[..|ms| - 1]);
    }
  }

  // ---------------------------------------------------------------------
  // Search: filter, sort, paginate

  /** The type filter exactly as `search` evaluates `contains_type`: a
      starting value, raised by an included type the mod carries, then
      lowered by an excluded type the mod carries. */
  predicate PassesType(t: Types, cats: seq<string>) {
    var initial := (t.mods == 0 && (t.modpacks == 0 || t.modpacks == -1))
                   || (t.mods == -1 && t.modpacks == 0);
    var raised := initial || (t.mods == 1 && "Mods" in cats) || (t.modpacks == 1 && "Modpacks" in cats);
    raised && !((t.mods == -1 && "Mods" in cats) || (t.modpacks == -1 && "Modpacks" in cats))
  }

  /** The any-of category filter; an empty selection admits every mod. */
  predicate PassesCategory(selected: seq<string>, cats: seq<string>) {
    |selected| == 0 || exists c :: c in cats && c in selected
  }

  /** Whether `search` keeps a mod; `matches` stands for the keyword regular
      expression and fuzzy similarity tests against the query. */
  predicate Admits(m: Mod, t: Types, selected: seq<string>, matches: Mod -> bool) {
    && m.fullName != BepInExPack
    && PassesType(t, m.categories)
    && PassesCategory(selected, m.categories)
    && matches(m)
  }

  /** `order` is the iteration order of the catalogue's hash map: each key
      once. */
  predicate EnumeratesKeys(order: seq<string>, mods: map<string, Mod>) {
    && Distinct(order)
    && (forall k :: k in order ==> k in mods)
    && (forall k :: k in mods ==> k in order)
  }

  /** The mods kept by the search loop, in iteration order. */
  function Matches(pkg: Package, order: seq<string>, t: Types, selected: seq<string>,
                   matches: Mod -> bool): seq<Mod>
    requires forall k :: k in order ==> k in pkg.mods
  {
    if order == [] then []
    else
      var m := pkg.mods[order[|order| - 1]];
      Matches(pkg, order[..|order| - 1], t, selected, matches)
        + (if Admits(m, t, selected, matches) then [m] else [])
  }

  /** The matches are exactly the admitted catalogue mods, each once. */
  lemma {:induction false} MatchesExact(pkg: Package, order: seq<string>, t: Types,
                                        selected: seq<string>, matches: Mod -> bool)
    requires forall k :: k in order ==> k in pkg.mods
    ensures forall m :: m in Matches(pkg, order, t, selected, matches) ==>
      Admits(m, t, selected, matches) && exists k :: k in order && pkg.mods[k] == m
    ensures forall k :: k in order && Admits(pkg.mods[k], t, selected, matches) ==>
      pkg.mods[k] in Matches(pkg, order, t, selected, matches)
    ensures |Matches(pkg, order, t, selected, matches)| <= |order|
  {
    if order != [] {
      var init := order[..|order| - 1];
      MatchesExact(pkg, init, t, selected, matches);
      forall k | k in order ensures k in init || k == order[|order| - 1] {
        var i :| 0 <= i < |order| && order[i] == k;
        if i < |order| - 1 { assert init[i] == k; }
      }
    }
  }

  predicate RatingOrder(a: Mod, b: Mod) { a.ratingScore >= b.ratingScore }
  predicate UpdatedOrder(a: Mod, b: Mod) { a.dateUpdated >= b.dateUpdated }
  predicate CreatedOrder(a: Mod, b: Mod) { a.dateCreated >= b.dateCreated }
  predicate NameOrder(a: Mod, b: Mod) { StrLe(a.name, b.name) }

  /** Downloads of the newest release (the search requires every candidate
      to have one). */
  function Downloads(m: Mod): int {
    if |m.versions| > 0 then m.versions[0].downloads else 0
  }

  predicate DownloadsOrder(a: Mod, b: Mod) { Downloads(a) >= Downloads(b) }

  /** The `match sort` of `search`; an unknown key leaves the order alone. */
  function SortMods(ms: seq<Mod>, sort: string): seq<Mod> {
    if sort == "rating" then SortBy(ms, RatingOrder)
    else if sort == "updated" then SortBy(ms, UpdatedOrder)
    else if sort == "created" then SortBy(ms, CreatedOrder)
    else if sort == "downloads" then SortBy(ms, DownloadsOrder)
    else if sort == "name" then SortBy(ms, NameOrder)
    else ms
  }

  /** Each sort key yields its order (newest / best / most first, names
      ascending), and sorting only reorders. */
  lemma SortModsSpec(ms: seq<Mod>, sort: string)
    ensures multiset(SortMods(ms, sort)) == multiset(ms)
    ensures var r := SortMods(ms, sort);
      && (sort == "rating" ==> forall i, j :: 0 <= i < j < |r| ==> r[i].ratingScore >= r[j].ratingScore)
      && (sort == "updated" ==> forall i, j :: 0 <= i < j < |r| ==> r[i].dateUpdated >= r[j].dateUpdated)
      && (sort == "created" ==> forall i, j :: 0 <= i < j < |r| ==> r[i].dateCreated >= r[j].dateCreated)
      && (sort == "downloads" ==> forall i, j :: 0 <= i < j < |r| ==> Downloads(r[i]) >= Downloads(r[j]))
      && (sort == "name" ==> forall i, j :: 0 <= i < j < |r| ==> StrLe(r[i].name, r[j].name))
      && (sort !in {"rating", "updated", "created", "downloads", "name"} ==> r == ms)
  {
    if sort == "rating" {
      RatingSortSorted(ms);
    } else if sort == "updated" {
      UpdatedSortSorted(ms);
    } else if sort == "created" {
      CreatedSortSorted(ms);
    } else if sort == "downloads" {
      DownloadsSortSorted(ms);
    } else if sort == "name" {
      NameSortSorted(ms);
    }
  }

  lemma RatingSortSorted(ms: seq<Mod>)
    ensures multiset(SortBy(ms, RatingOrder)) == multiset(ms)
    ensures SortedBy(SortBy(ms, RatingOrder), RatingOrder)
  {
    SortBySorted(ms, RatingOrder);
  }

  lemma UpdatedSortSorted(ms: seq<Mod>)
    ensures multiset(SortBy(ms, UpdatedOrder)) == multiset(ms)
    ensures SortedBy(SortBy(ms, UpdatedOrder), UpdatedOrder)
  {
    SortBySorted(ms, UpdatedOrder);
  }

  lemma CreatedSortSorted(ms: seq<Mod>)
    ensures multiset(SortBy(ms, CreatedOrder)) == multiset(ms)
    ensures SortedBy(SortBy(ms, CreatedOrder), CreatedOrder)
  {
    SortBySorted(ms, CreatedOrder);
  }

  lemma DownloadsSortSorted(ms: seq<Mod>)
    ensures multiset(SortBy(ms, DownloadsOrder)) == multiset(ms)
    ensures SortedBy(SortBy(ms, DownloadsOrder), DownloadsOrder)
  {
    SortBySorted(ms, DownloadsOrder);
  }

  lemma NameSortSorted(ms: seq<Mod>)
    ensures multiset(SortBy(ms, NameOrder)) == multiset(ms)
    ensures SortedBy(SortBy(ms, NameOrder), NameOrder)
  {
    forall a, b ensures NameOrder(a, b) || NameOrder(b, a) {
      StrLeTotal(a.name, b.name);
    }
    forall a, b, c | NameOrder(a, b) && NameOrder(b, c) ensures NameOrder(a, c) {
      StrLeTransitive(a.name, b.name, c.name);
    }
    SortBySorted(ms, NameOrder);
  }

  /** One page: the slice `[page*20, min(page*20+20, n))`. */
  function Paginate(ms: seq<Mod>, page: nat): (r: seq<Mod>)
    requires page * PageSize <= |ms|
    ensures |r| <= PageSize
    ensures |r| == if |ms| - page * PageSize < PageSize then |ms| - page * PageSize else PageSize
    ensures forall k :: 0 <= k < |r| ==> r[k] == ms[page * PageSize + k]
  {
    var lo := page * PageSize;
    var hi := if lo + PageSize < |ms| then lo + PageSize else |ms|;
    ms[lo..hi]
  }

  /** The catalogue as `search` needs it: every mod it may look at has a
      newest release (`versions[0]`). */
  predicate Searchable(pkg: Package) {
    forall k :: k in pkg.mods && pkg.mods[k].fullName != BepInExPack ==> |pkg.mods[k].versions| > 0
  }

  /** `search`: filter the catalogue in hash-map order, sort by the chosen
      key and return the requested page of 20 with the page count `n / 20`.
      A page starting past the matches makes the slice panic. */
  method Search(pkg: Package, order: seq<string>, matches: Mod -> bool, page: nat,
                sort: string, types: Types, categories: seq<string>) returns (r: SearchResults)
    requires EnumeratesKeys(order, pkg.mods) && Searchable(pkg)
    requires page * PageSize <= |Matches(pkg, order, types, categories, matches)|
    ensures r.categories == pkg.categories
    ensures r.mods == Paginate(SortMods(Matches(pkg, order, types, categories, matches), sort), page)
    ensures r.pages == |Matches(pkg, order, types, categories, matches)| / PageSize
  {
    var mods: seq<Mod> := [];
    for i := 0 to |order|
      invariant mods == Matches(pkg, order[..i], types, categories, matches)
    {
      assert order[..i + 1][..i] == order[..i];
      var m := pkg.mods[order[i]];
      if m.fullName == BepInExPack {
        continue;
      }
      var containsType := (types.mods == 0 && (types.modpacks == 0 || types.modpacks == -1))
                          || (types.mods == -1 && types.modpacks == 0);
      var containsCategory := |categories| == 0;

      if (types.mods == 1 && "Mods" in m.categories) || (types.modpacks == 1 && "Modpacks" in m.categories) {
        containsType := true;
      }
      if !containsType {
        continue;
      }
      if (types.mods == -1 && "Mods" in m.categories) || (types.modpacks == -1 && "Modpacks" in m.categories) {
        containsType := false;
      }
      if !containsType {
        continue;
      }

      var j := 0;
      while j < |m.categories|
        invariant 0 <= j <= |m.categories|
        invariant containsCategory == (|categories| == 0 || exists c :: c in m.categories[..j] && c in categories)
      {
        assert m.categories[..j + 1] == m.categories[..j] + [m.categories[j]];
        if m.categories[j] in categories {
          containsCategory := true;
          break;
        }
        j := j + 1;
      }
      assert containsCategory == PassesCategory(categories, m.categories) by {
        if !containsCategory {
          assert m.categories[..j] == m.categories;
        }
      }
      if !containsCategory {
        continue;
      }

      if matches(m) {
        mods := mods + [m];
      }
    }
    assert order[..|order|] == order;
    var all := mods;
    mods := SortMods(mods, sort);
    r := SearchResults(pkg.categories, Paginate(mods, page), |all| / PageSize);
  }

  /** Everything on a result page is a catalogue mod the filters admit, so
      BepInExPack never appears. */
  lemma SearchPageAdmitted(pkg: Package, order: seq<string>, matches: Mod -> bool, page: nat,
                           sort: string, types: Types, categories: seq<string>)
    requires EnumeratesKeys(order, pkg.mods)
    requires page * PageSize <= |Matches(pkg, order, types, categories, matches)|
    ensures forall m :: m in Paginate(SortMods(Matches(pkg, order, types, categories, matches), sort), page) ==>
      Admits(m, types, categories, matches) && m.fullName != BepInExPack && m in pkg.mods.Values
  {
    var ms := Matches(pkg, order, types, categories, matches);
    MatchesExact(pkg, order, types, categories, matches);
    SortModsSpec(ms, sort);
    var sorted := SortMods(ms, sort);
    forall m | m in Paginate(sorted, page)
      ensures Admits(m, types, categories, matches) && m in pkg.mods.Values
    {
      var k :| 0 <= k < |Paginate(sorted, page)| && Paginate(sorted, page)[k] == m;
      assert sorted[page * PageSize + k] == m;
      assert m in multiset(sorted);
      assert m in ms;
      var key :| key in order && pkg.mods[key] == m;
    }
  }

  // ---------------------------------------------------------------------
  // The type and category filters

  /** With no type preference every mod passes. */
  lemma TypeFilterNeutral(cats: seq<string>)
    ensures PassesType(Types(0, 0), cats)
  {
  }

  /** An excluded type removes every mod carrying it, whatever the other
      type's setting. */
  lemma TypeFilterExcludes(t: Types, cats: seq<string>)
    ensures t.mods == -1 && "Mods" in cats ==> !PassesType(t, cats)
    ensures t.modpacks == -1 && "Modpacks" in cats ==> !PassesType(t, cats)
  {
  }

  /** Including one type (and leaving the other unset) keeps exactly the
      mods carrying it. */
  lemma TypeFilterIncludes(cats: seq<string>)
    ensures PassesType(Types(1, 0), cats) <==> "Mods" in cats
    ensures PassesType(Types(0, 1), cats) <==> "Modpacks" in cats
  {
  }

  /** Excluding both types admits nothing at all: the starting value of
      `contains_type` has no case for (-1, -1), so even a mod carrying
      neither type is dropped. */
  lemma TypeFilterBothExcluded(cats: seq<string>)
    ensures !PassesType(Types(-1, -1), cats)
  {
  }

  /** The category filter is "any of": an empty selection admits all,
      otherwise a mod passes iff it carries a selected category. */
  lemma CategoryFilterAnyOf(selected: seq<string>, cats: seq<string>)
    ensures selected == [] ==> PassesCategory(selected, cats)
    ensures selected != [] ==> (PassesCategory(selected, cats) <==> exists i :: 0 <= i < |cats| && cats[i] in selected)
  {
  }
}
