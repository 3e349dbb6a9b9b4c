/** The state of the catalogue page, app/search/page.tsx: the filters the
    search requests carry, the page resets, the profile-selection dialog,
    and the flag that opens and closes the download-progress dialog. The
    native commands are returned as requests; their answers come back
    through separate methods. */
module SearchPage {
  import opened Strings
  import opened Thunderstore

  /** The argument record of the `search` command. */
  datatype SearchRequest = SearchRequest(query: string, page: int, sort: string,
                                         categories: seq<string>, types: Types)

  /** The commands the page sends besides `search`. */
  datatype Command =
    | DownloadMod(profileName: string, versionName: string)
    | CreateProfile(name: string, icon: string)

  /** The two keys of the `types` record. */
  datatype TypeKey = ModsKey | ModpacksKey

  function TypeValue(t: Types, key: TypeKey): int {
    match key
    case ModsKey => t.mods
    case ModpacksKey => t.modpacks
  }

  function WithType(t: Types, key: TypeKey, v: int): Types {
    match key
    case ModsKey => t.(mods := v)
    case ModpacksKey => t.(modpacks := v)
  }

  /** `if (++types[type] > 1) types[type] = -1`. */
  function NextType(v: int): (r: int)
    ensures v == 0 ==> r == 1
    ensures v == 1 ==> r == -1
    ensures v == -1 ==> r == 0
    ensures -1 <= v <= 1 ==> -1 <= r <= 1 && r != v
  {
    if v + 1 > 1 then -1 else v + 1
  }

  /** Three clicks bring a checkbox back to where it was. */
  lemma {:induction false} NextTypeCycle(v: int)
    requires -1 <= v <= 1
    ensures NextType(NextType(NextType(v))) == v
  {
    if v == 0 {
      assert NextType(v) == 1 && NextType(1) == -1 && NextType(-1) == 0;
    } else if v == 1 {
      assert NextType(v) == -1 && NextType(-1) == 0 && NextType(0) == 1;
    } else {
      assert NextType(v) == 0 && NextType(0) == 1 && NextType(1) == -1;
    }
  }

  // ---------------------------------------------------------------------
  // The categories record, as its entries in insertion order

  function Keys(entries: seq<(string, bool)>): seq<string> {
    if entries == [] then [] else [entries[0].0] + Keys(entries[1..])
  }

  /** `Object.entries(categories).filter(([_, x]) => x).map(([x, _]) => x)`. */
  function Selected(entries: seq<(string, bool)>): (r: seq<string>)
    ensures |r| <= |entries|
  {
    if entries == [] then []
    else (if entries[0].1 then [entries[0].0] else []) + Selected(entries[1..])
  }

  /** The request names exactly the categories whose value is true. */
  lemma {:induction false} SelectedExact(entries: seq<(string, bool)>)
    ensures forall c :: c in Selected(entries) <==> (c, true) in entries
  {
    if entries != [] {
      SelectedExact(entries[1..]);
      assert entries == [entries[0]] + entries[1..];
    }
  }

  /** `categories[c] = state`: an existing key keeps its place, a new one
      goes at the end. */
  function SetEntry(entries: seq<(string, bool)>, key: string, value: bool): (r: seq<(string, bool)>)
    ensures (key, value) in r
    ensures forall e :: e in entries && e.0 != key ==> e in r
    ensures forall e :: e in r ==> e == (key, value) || e in entries
  {
    if entries == [] then [(key, value)]
    else if entries[0].0 == key then [(key, value)] + entries[1..]
    else [entries[0]] + SetEntry(entries[1..], key, value)
  }

  /** After `setCategory(c, s)` the request names `c` exactly when `s`, and
      names every other category as before, as long as no key is listed
      twice. */
  lemma SetEntrySelected(entries: seq<(string, bool)>, key: string, value: bool)
    requires Distinct(Keys(entries))
    ensures key in Selected(SetEntry(entries, key, value)) <==> value
    ensures forall c :: c != key ==> (c in Selected(SetEntry(entries, key, value)) <==> c in Selected(entries))
  {
    var r := SetEntry(entries, key, value);
    SelectedExact(r);
    SelectedExact(entries);
    if !value {
      if (key, true) in r {
        assert (key, true) in entries;
        KeysUnique(entries, key);
      }
    }
  }

  /** Setting a category adds no key but its own, so the record never
      lists a key twice. */
  lemma {:induction false} SetEntryKeys(entries: seq<(string, bool)>, key: string, value: bool)
    ensures forall k :: k in Keys(SetEntry(entries, key, value)) ==> k == key || k in Keys(entries)
    ensures Distinct(Keys(entries)) ==> Distinct(Keys(SetEntry(entries, key, value)))
  {
    if entries != [] {
      var r := SetEntry(entries, key, value);
      var tail := Keys(entries[1..]);
      assert Keys(entries) == [entries[0].0] + tail;
      if entries[0].0 == key {
        assert r[1..] == entries[1..];
        assert Keys(r) == [key] + tail;
      } else {
        SetEntryKeys(entries[1..], key, value);
        assert r[1..] == SetEntry(entries[1..], key, value);
        assert Keys(r) == [entries[0].0] + Keys(SetEntry(entries[1..], key, value));
        if Distinct(Keys(entries)) {
          KeysTail(entries);
          DistinctCons(entries[0].0, Keys(SetEntry(entries[1..], key, value)));
        }
      }
    }
  }

  lemma DistinctCons(x: string, s: seq<string>)
    requires Distinct(s) && x !in s
    ensures Distinct([x] + s)
  {
    forall i, j | 0 <= i < j < |[x] + s| ensures ([x] + s)[i] != ([x] + s)[j] {
      assert ([x] + s)[j] == s[j - 1];
      if i > 0 {
        assert ([x] + s)[i] == s[i - 1];
      }
    }
  }

  /** With distinct keys, a key is paired with at most one value, and a key
      that is updated appears in place. */
  lemma {:induction false} KeysUnique(entries: seq<(string, bool)>, key: string)
    requires Distinct(Keys(entries))
    ensures !((key, true) in entries && (key, false) in entries)
    ensures (key, true) in entries ==> (key, true) !in SetEntry(entries, key, false)
  {
    if entries != [] {
      assert Keys(entries) == [entries[0].0] + Keys(entries[1..]);
      KeysTail(entries);
      KeysUnique(entries[1..], key);
      if entries[0].0 == key {
        KeysMention(entries[1..], key);
      }
    }
  }

  lemma KeysTail(entries: seq<(string, bool)>)
    requires entries != [] && Distinct(Keys(entries))
    ensures Distinct(Keys(entries[1..]))
    ensures entries[0].0 !in Keys(entries[1..])
  {
    var ks := Keys(entries);
    assert ks == [entries[0].0] + Keys(entries[1..]);
    forall i, j | 0 <= i < j < |Keys(entries[1..])| ensures Keys(entries[1..])[i] != Keys(entries[1..])[j] {
      assert ks[i + 1] == Keys(entries[1..])[i] && ks[j + 1] == Keys(entries[1..])[j];
    }
    forall j | 0 <= j < |Keys(entries[1..])| ensures Keys(entries[1..])[j] != entries[0].0 {
      assert ks[j + 1] == Keys(entries[1..])[j] && ks[0] == entries[0].0;
      assert ks[0] != ks[j + 1];
    }
  }

  /** Every entry's key is listed. */
  lemma {:induction false} KeysMention(entries: seq<(string, bool)>, key: string)
    ensures key !in Keys(entries) ==> forall v :: (key, v) !in entries
  {
    if entries != [] {
      KeysMention(entries[1..], key);
      assert entries == [entries[0]] + entries[1..];
    }
  }

  // ---------------------------------------------------------------------
  // The page

  /** `download_progress` events as the listener sees them. */
  datatype ProgressEffect = OpenDialog | ScheduleClose | NoEffect

  /** The listener's decision for one event, given its local `open` flag:
      any event with a non-negative total while closed opens the dialog;
      otherwise a total of exactly 100 schedules the close. */
  function ProgressStep(open: bool, total: real): (r: (bool, ProgressEffect))
    ensures r.1 == OpenDialog <==> total >= 0.0 && !open
    ensures r.1 == ScheduleClose <==> open && total == 100.0
    ensures r.0 == (r.1 == OpenDialog || (open && r.1 == NoEffect))
  {
    if total >= 0.0 && !open then (true, OpenDialog)
    else if total == 100.0 then (false, ScheduleClose)
    else (open, NoEffect)
  }

  /** The "create a new profile" option is offered only when no profile is
      named like the chosen mod. */
  function OffersNewProfile(profileNames: seq<string>, modName: string): (r: bool)
    ensures r <==> modName !in profileNames
  {
    !exists i :: 0 <= i < |profileNames| && profileNames[i] == modName
  }

  class Page {
    var query: string
    var data: SearchResults
    var types: Types
    var categories: seq<(string, bool)>
    var sortOrder: string
    var page: int
    var loading: bool
    var profileSelectionOpen: bool
    var progressDialogOpen: bool
    /** The listener's local `open`, which the dialog state does not feed
        back into. */
    var listenerOpen: bool
    var closePending: bool

    /** The selection dialog, the progress dialog and the listener are as
        they were. */
    twostate predicate DialogsKept()
      reads this
    {
      profileSelectionOpen == old(profileSelectionOpen) && progressDialogOpen == old(progressDialogOpen) &&
      listenerOpen == old(listenerOpen) && closePending == old(closePending)
    }

    /** The displayed results and the page they belong to are as they were. */
    twostate predicate ResultsKept()
      reads this
    {
      data == old(data) && page == old(page)
    }

    /** `search(query, page, sort, loading)`: the query and the sort order
        are stored before the command goes out, with the categories whose
        value is true and the `types` record as it stands. */
    method Search(q: string, p: int, sort: string, showLoading: bool) returns (request: SearchRequest)
      modifies this
      ensures request == SearchRequest(q, p, sort, Selected(categories), types)
      ensures query == q && sortOrder == sort && loading == showLoading
      ensures data == old(data) && page == old(page) && types == old(types) && categories == old(categories)
      ensures profileSelectionOpen == old(profileSelectionOpen)
      ensures progressDialogOpen == old(progressDialogOpen) && listenerOpen == old(listenerOpen)
      ensures closePending == old(closePending)
    {
      query, sortOrder, loading := q, sort, showLoading;
      request := SearchRequest(q, p, sort, Selected(categories), types);
    }

    /** The answer to a search: on success the data and the requested page
        replace the old ones and loading ends; a failure is swallowed and
        changes nothing, loading included. */
    method SearchAnswered(request: SearchRequest, response: Option<SearchResults>)
      modifies this
      ensures response.Some? ==> data == response.value && page == request.page && !loading
      ensures response.None? ==> data == old(data) && page == old(page) && loading == old(loading)
      ensures query == old(query) && sortOrder == old(sortOrder)
      ensures types == old(types) && categories == old(categories)
      ensures profileSelectionOpen == old(profileSelectionOpen)
      ensures progressDialogOpen == old(progressDialogOpen) && listenerOpen == old(listenerOpen)
      ensures closePending == old(closePending)
    {
      if response.Some? {
        data, page, loading := response.value, request.page, false;
      }
    }

    /** `toggleType`: the clicked type moves one step along 0, 1, -1 and
        the search restarts at the first page. */
    method ToggleType(key: TypeKey) returns (request: SearchRequest)
      modifies this
      ensures types == WithType(old(types), key, NextType(TypeValue(old(types), key)))
      ensures request == SearchRequest(old(query), 0, old(sortOrder), Selected(old(categories)), types)
      ensures categories == old(categories) && loading
      ensures query == old(query) && sortOrder == old(sortOrder)
      ensures ResultsKept() && DialogsKept()
    {
      types := WithType(types, key, NextType(TypeValue(types, key)));
      request := Search(query, 0, sortOrder, true);
    }

    /** `setCategory`: the category takes the box's state and the search
        restarts at the first page. */
    method SetCategory(category: string, state: bool) returns (request: SearchRequest)
      modifies this
      ensures categories == SetEntry(old(categories), category, state)
      ensures request == SearchRequest(old(query), 0, old(sortOrder), Selected(categories), old(types))
      ensures types == old(types) && loading
      ensures query == old(query) && sortOrder == old(sortOrder)
      ensures ResultsKept() && DialogsKept()
    {
      categories := SetEntry(categories, category, state);
      request := Search(query, 0, sortOrder, true);
    }

    /** `clearFilters`: both types back to 0 and every known category off,
        then a search at the current page rather than the first. */
    method ClearFilters() returns (request: SearchRequest)
      modifies this
      ensures types == Types(0, 0)
      ensures |categories| == |old(categories)|
      ensures forall i :: 0 <= i < |categories| ==> categories[i] == (old(categories)[i].0, false)
      ensures request == SearchRequest(old(query), old(page), old(sortOrder), [], Types(0, 0))
      ensures loading && query == old(query) && sortOrder == old(sortOrder)
      ensures ResultsKept() && DialogsKept()
    {
      types := Types(0, 0);
      var cleared := categories;
      for i := 0 to |cleared|
        invariant |cleared| == |categories|
        invariant forall j :: 0 <= j < i ==> cleared[j] == (categories[j].0, false)
        invariant forall j :: i <= j < |cleared| ==> cleared[j] == categories[j]
      {
        cleared := cleared[i := (cleared[i].0, false)];
      }
      categories := cleared;
      NoneSelected(categories);
      request := Search(query, page, sortOrder, true);
    }

    /** `changeSortOrder`: the new order, from the first page. */
    method ChangeSortOrder(sort: string) returns (request: SearchRequest)
      modifies this
      ensures request == SearchRequest(old(query), 0, sort, Selected(old(categories)), old(types))
      ensures sortOrder == sort && loading
      ensures query == old(query) && types == old(types) && categories == old(categories)
      ensures ResultsKept() && DialogsKept()
    {
      request := Search(query, 0, sort, true);
    }

    /** Typing in the search box: the new text, from the first page, with
        no loading bar. */
    method EditQuery(text: string) returns (request: SearchRequest)
      modifies this
      ensures request == SearchRequest(text, 0, old(sortOrder), Selected(old(categories)), old(types))
      ensures query == text && !loading
      ensures sortOrder == old(sortOrder) && types == old(types) && categories == old(categories)
      ensures ResultsKept() && DialogsKept()
    {
      request := Search(text, 0, sortOrder, false);
    }

    /** The clear button of the search box: an empty query at the current
        page. */
    method ClearQuery() returns (request: SearchRequest)
      modifies this
      ensures request == SearchRequest("", old(page), old(sortOrder), Selected(old(categories)), old(types))
      ensures query == "" && loading
      ensures sortOrder == old(sortOrder) && types == old(types) && categories == old(categories)
      ensures ResultsKept() && DialogsKept()
    {
      request := Search("", page, sortOrder, true);
    }

    /** The pagination control, numbered from 1. */
    method ChangePage(p: int) returns (request: SearchRequest)
      modifies this
      ensures request == SearchRequest(old(query), p - 1, old(sortOrder), Selected(old(categories)), old(types))
      ensures loading && query == old(query) && sortOrder == old(sortOrder)
      ensures types == old(types) && categories == old(categories)
      ensures ResultsKept() && DialogsKept()
    {
      request := Search(query, p - 1, sortOrder, true);
    }

    /** `download`: with a profile, the selection dialog closes if it is
        open and the download goes out; without one, only the selection
        dialog opens. */
    method Download(versionName: string, profileName: Option<string>) returns (command: Option<Command>)
      modifies this
      ensures profileName.Some? ==>
        command == Some(DownloadMod(profileName.value, versionName)) && !profileSelectionOpen
      ensures profileName.None? ==> command.None? && profileSelectionOpen
      ensures query == old(query) && data == old(data) && types == old(types)
      ensures categories == old(categories) && page == old(page) && loading == old(loading)
      ensures sortOrder == old(sortOrder) && progressDialogOpen == old(progressDialogOpen)
      ensures listenerOpen == old(listenerOpen) && closePending == old(closePending)
    {
      if profileName.Some? {
        if profileSelectionOpen {
          profileSelectionOpen := false;
        }
        command := Some(DownloadMod(profileName.value, versionName));
      } else {
        profileSelectionOpen := true;
        command := None;
      }
    }

    /** The "create a new profile" option: `create_profile` first, and the
        download into the new profile only once it has succeeded. */
    method CreateProfileAndDownload(m: Mod, created: bool) returns (commands: seq<Command>)
      requires |m.versions| > 0
      modifies this
      ensures commands == [CreateProfile(m.name, m.versions[0].icon)] +
        (if created then [DownloadMod(m.name, m.versions[0].fullName)] else [])
      ensures created ==> !profileSelectionOpen
      ensures !created ==> profileSelectionOpen == old(profileSelectionOpen)
      ensures query == old(query) && sortOrder == old(sortOrder) && types == old(types)
      ensures categories == old(categories) && loading == old(loading) && ResultsKept()
      ensures progressDialogOpen == old(progressDialogOpen)
      ensures listenerOpen == old(listenerOpen) && closePending == old(closePending)
    {
      commands := [CreateProfile(m.name, m.versions[0].icon)];
      if created {
        var download := Download(m.versions[0].fullName, Some(m.name));
        commands := commands + [download.value];
      }
    }

    /** The `download_progress` listener. */
    method OnProgress(total: real)
      modifies this
      ensures listenerOpen == ProgressStep(old(listenerOpen), total).0
      ensures ProgressStep(old(listenerOpen), total).1 == OpenDialog ==> progressDialogOpen
      ensures ProgressStep(old(listenerOpen), total).1 == ScheduleClose ==> closePending
      ensures ProgressStep(old(listenerOpen), total).1 == NoEffect ==>
        progressDialogOpen == old(progressDialogOpen) && closePending == old(closePending)
      ensures ProgressStep(old(listenerOpen), total).1 != OpenDialog ==> progressDialogOpen == old(progressDialogOpen)
      ensures ProgressStep(old(listenerOpen), total).1 != ScheduleClose ==> closePending == old(closePending)
      ensures profileSelectionOpen == old(profileSelectionOpen)
      ensures query == old(query) && sortOrder == old(sortOrder) && types == old(types)
      ensures categories == old(categories) && loading == old(loading) && ResultsKept()
    {
      var (open, effect) := ProgressStep(listenerOpen, total);
      listenerOpen := open;
      if effect == OpenDialog {
        progressDialogOpen := true;
      } else if effect == ScheduleClose {
        closePending := true;
      }
    }

    /** The 50 ms timer the listener set runs out. */
    method CloseTimerFires()
      requires closePending
      modifies this
      ensures !progressDialogOpen && !closePending
      ensures listenerOpen == old(listenerOpen) && profileSelectionOpen == old(profileSelectionOpen)
      ensures query == old(query) && sortOrder == old(sortOrder) && types == old(types)
      ensures categories == old(categories) && loading == old(loading) && ResultsKept()
    {
      progressDialogOpen, closePending := false, false;
    }
  }

  lemma {:induction false} NoneSelected(entries: seq<(string, bool)>)
    requires forall i :: 0 <= i < |entries| ==> !entries[i].1
    ensures Selected(entries) == []
  {
    if entries != [] {
      NoneSelected(entries[1..]);
    }
  }

  /** The listener's `open` flag after a run of events. */
  function FlagAfter(open: bool, totals: seq<real>): bool
    decreases |totals|
  {
    if totals == [] then open else FlagAfter(ProgressStep(open, totals[0]).0, totals[1..])
  }

  lemma {:induction false} FlagAfterSnoc(open: bool, totals: seq<real>, last: real)
    ensures FlagAfter(open, totals + [last]) == ProgressStep(FlagAfter(open, totals), last).0
    decreases |totals|
  {
    if totals != [] {
      assert (totals + [last])[1..] == totals[1..] + [last];
      FlagAfterSnoc(ProgressStep(open, totals[0]).0, totals[1..], last);
    } else {
      assert [last][1..] == [];
    }
  }

  lemma {:induction false} FlagStaysOpen(totals: seq<real>)
    requires forall i :: 0 <= i < |totals| ==> 0.0 <= totals[i] < 100.0
    ensures FlagAfter(true, totals)
    decreases |totals|
  {
    if totals != [] {
      FlagStaysOpen(totals[1..]);
    }
  }

  /** A download that runs to completion opens the dialog on its first
      event, leaves it open through the progress in between, schedules the
      close on its last event, and leaves the listener ready for the next
      download. */
  lemma DownloadOpensThenCloses(totals: seq<real>)
    requires |totals| >= 2 && totals[0] >= 0.0 && totals[|totals| - 1] == 100.0
    requires forall i :: 0 < i < |totals| - 1 ==> 0.0 <= totals[i] < 100.0
    ensures ProgressStep(false, totals[0]) == (true, OpenDialog)
    ensures FlagAfter(false, totals[..|totals| - 1])
    ensures ProgressStep(FlagAfter(false, totals[..|totals| - 1]), totals[|totals| - 1]) == (false, ScheduleClose)
    ensures !FlagAfter(false, totals)
  {
    var init := totals[..|totals| - 1];
    assert init[1..] == totals[1..|totals| - 1];
    FlagStaysOpen(totals[1..|totals| - 1]);
    assert FlagAfter(false, init) == FlagAfter(true, init[1..]);
    FlagAfterSnoc(false, init, totals[|totals| - 1]);
    assert init + [totals[|totals| - 1]] == totals;
  }
}
