# A verified model of the mod manager's core

This project models the core of a desktop mod manager for Lethal Company in Dafny. The manager has a Rust back end, built with Tauri, and a React front end. Its core covers:

- reading the Thunderstore package catalogue, splitting version names into mod name and version number, and searching the catalogue (filter, sort, paginate);
- resolving a mod's dependencies against those already found and those installed in a profile;
- routing the files of a downloaded archive into the profile's BepInEx layout, and recording the files written outside the mod's folder;
- enabling and disabling a mod by renaming its DLLs and moving its external files;
- creating a profile from a name and an optional icon;
- the list of game installs: the stored selection, the folder picker and the Steam scan;
- the front end's view-state cache, the search page's state changes and commands, and the profile page's filtering, sorting, paging and play button.

One Dafny module stands for each source file:

| module | file | models |
|---|---|---|
| `Strings` | `strings.dfy` | helpers shared by the rest of the model: prefix and suffix tests, find, split and join, replace-all, ASCII lower case, byte-wise order |
| `Sorting` | `sorting.dfy` | a stable insertion sort (proved stable by `SortByStable`), standing for Rust's `sort_by` and JavaScript's `sort` |
| `Utils` | `utils.dfy` | `str_skip_to` |
| `Thunderstore` | `thunderstore.dfy` | `parse_mod_version`, `load_package`, `get_mod_version`, `search` |
| `Dependencies` | `dependencies.dfy` | `get_absolute_version`, `get_dependencies` |
| `PathFix` | `fixpath.dfy` | `fix_path` and its regular expression |
| `ModFiles` | `modfiles.dfy` | how `extract_mod` finds the DLL folder and where it writes each entry |
| `Toggle` | `toggle.dfy` | `toggle_mod` |
| `Profiles` | `profiles.dfy` | `create_profile` |
| `Installs` | `installs.dfy` | `get_selected_install`, `select_install`, `add_manual_install`, `scan` |
| `ViewState` | `state.dfy` | `cache` and `usePersistedState` |
| `SearchPage` | `search_page.dfy` | the search page |
| `ProfilePage` | `profile_page.dfy` | the profile page |

The model keeps the form of the source:

- Pure Rust functions become Dafny functions, with lemmas about them.
- Loops become methods with `for` loops. Each method is proved equal to a specification function, and the lemmas are stated about that function.
- State the source updates in place becomes a class with `modifies` clauses. That covers the settings fields, the view-state cache, a mounted persisted state, and the two pages' React state.
- A command that can panic returns an outcome datatype with a `Panicked` case, so the model does not forbid the panic with a precondition. This applies to `create_profile` and to the dependency resolution. Where the panic is a slice or index out of range, the precondition says so instead.
- File-system effects become inputs or results:
  - a snapshot set `existing` says which paths exist;
  - renames are returned as a list in the order the source performs them;
  - where extraction writes each entry is returned as an action.

## Model

| member | source | states |
|---|---|---|
| Utils.StrSkipTo | src-tauri/src/utils.rs:51-54 | the result is a suffix of the input; when `to` occurs, the result starts at its first occurrence; otherwise the result is the whole input |
| Utils.StrSkipToIdempotent | src-tauri/src/utils.rs:51-54 | skipping to the same marker twice gives the same result as once |
| Thunderstore.ParseModVersion | src-tauri/src/thunderstore.rs:121-126 | the cut of a version name at its last dash into full name and version number; its meaning is stated by the lemmas below |
| Thunderstore.ParseModVersionCuts | src-tauri/src/thunderstore.rs:121-126 | with a dash present, name + "-" + number is the input and the number holds no dash; without one, the name is empty and the number is the whole input |
| Thunderstore.ParseModVersionOfJoined | src-tauri/src/thunderstore.rs:121-126 | joining a full name and a dash-free version number with `-` and parsing the result gives both back |
| Thunderstore.ParseModVersionIsSplitPopJoin | src-tauri/src/thunderstore.rs:121-126 | the direct cut at the last dash equals splitting on every dash, popping the last piece and joining the rest with dashes |
| Thunderstore.CutAtLastDash | src-tauri/src/thunderstore.rs:121-126 | the split is unique: two cuts whose second part holds no dash agree |
| Thunderstore.FindVersion | src-tauri/src/thunderstore.rs:138-143 | the result is the first release whose number matches; it is None exactly when no release matches |
| Thunderstore.GetModVersion | src-tauri/src/thunderstore.rs:133-148 | None exactly when the mod's full name is not catalogued; otherwise the result is a release of that mod with the parsed version number |
| Thunderstore.KeyedByFullName | src-tauri/src/thunderstore.rs:100-110 | the catalogue map built by inserting each mod under its full name; its keys and values are stated by the two lemmas below |
| Thunderstore.KeyedByFullNameKeys | src-tauri/src/thunderstore.rs:100-110 | every mod is keyed by its full name, and every fetched mod's name is a key |
| Thunderstore.KeyedByFullNameLast | src-tauri/src/thunderstore.rs:109 | a repeated full name keeps the last mod inserted under it |
| Thunderstore.LoadPackage | src-tauri/src/thunderstore.rs:88-115 | after the first entry is dropped, the categories are sorted and distinct and are exactly those of the remaining mods, minus "Mods" and "Modpacks"; the map keys each mod by its full name |
| Thunderstore.CategoriesOfUnlisted | src-tauri/src/thunderstore.rs:101-104 | "Mods" and "Modpacks" are never listed as categories |
| Thunderstore.PassesType | src-tauri/src/thunderstore.rs:175-192 | the type test of the loop: the starting flag, raised by an included type the mod carries, then cleared by an excluded one |
| Thunderstore.PassesCategory | src-tauri/src/thunderstore.rs:177 | the category test: an empty selection passes; otherwise some category of the mod is selected |
| Thunderstore.Admits | src-tauri/src/thunderstore.rs:169-208 | a mod is kept when it is not BepInExPack, passes both tests and matches the query |
| Thunderstore.Matches | src-tauri/src/thunderstore.rs:169-222 | the kept mods in the map's iteration order; stated exactly by MatchesExact |
| Thunderstore.MatchesExact | src-tauri/src/thunderstore.rs:169-222 | the filter keeps exactly the catalogued mods that are not BepInExPack, pass the type and category filters and match the query |
| Thunderstore.SortMods | src-tauri/src/thunderstore.rs:226-233 | the `match sort` over the five keys; stated by SortModsSpec |
| Thunderstore.SortModsSpec | src-tauri/src/thunderstore.rs:226-233 | sorting only reorders; rating, updated, created and downloads come out descending, name ascending, and any other key leaves the order alone |
| Thunderstore.RatingSortSorted | src-tauri/src/thunderstore.rs:227 | the rating sort is a permutation ordered by descending rating |
| Thunderstore.UpdatedSortSorted | src-tauri/src/thunderstore.rs:228 | the updated sort is a permutation ordered by descending update date |
| Thunderstore.CreatedSortSorted | src-tauri/src/thunderstore.rs:229 | the created sort is a permutation ordered by descending creation date |
| Thunderstore.DownloadsSortSorted | src-tauri/src/thunderstore.rs:230 | the downloads sort is a permutation ordered by the first release's downloads, descending |
| Thunderstore.NameSortSorted | src-tauri/src/thunderstore.rs:231 | the name sort is a permutation ordered by name, ascending |
| Thunderstore.Paginate | src-tauri/src/thunderstore.rs:238 | the page holds at most 20 mods: the ones from `page*20` on, and as many as remain, up to 20 |
| Thunderstore.Search | src-tauri/src/thunderstore.rs:151-245 | the results are the catalogue's categories, the requested page of the sorted matches, and a page count of the matches divided by 20, rounded down |
| Thunderstore.SearchPageAdmitted | src-tauri/src/thunderstore.rs:169-238 | every mod on a returned page is a catalogued mod other than BepInExPack that passes every filter |
| Thunderstore.TypeFilterNeutral | src-tauri/src/thunderstore.rs:175-176 | the neutral type filter (0, 0) admits every mod |
| Thunderstore.TypeFilterExcludes | src-tauri/src/thunderstore.rs:189-192 | an excluded type (-1) rejects every mod carrying that category |
| Thunderstore.TypeFilterIncludes | src-tauri/src/thunderstore.rs:175-187 | including only one type (1) admits exactly the mods carrying that category |
| Thunderstore.TypeFilterBothExcluded | src-tauri/src/thunderstore.rs:175-192 | excluding both types admits no mod at all |
| Thunderstore.CategoryFilterAnyOf | src-tauri/src/thunderstore.rs:177-202 | no selected category admits every mod; otherwise a mod passes iff one of its categories is selected |
| Dependencies.ParseU32 | src-tauri/src/profiles.rs:563-565 | a successful parse of a non-empty digit string is below 2^32 |
| Dependencies.ParseU32Show | src-tauri/src/profiles.rs:563-565 | parsing the decimal text of any u32 gives it back |
| Dependencies.DigitsShow | src-tauri/src/profiles.rs:563-565 | the digits of a number's decimal text read back as that number |
| Dependencies.VersionParts | src-tauri/src/profiles.rs:562-565 | the first two dot-separated components, each below 2^32 |
| Dependencies.AbsoluteVersion | src-tauri/src/profiles.rs:561-566 | defined exactly when the first two components parse as u32; always below 2^32 |
| Dependencies.Wrap32IsMod | src-tauri/src/profiles.rs:563-565 | the wrap-around is reduction modulo 2^32 |
| Dependencies.VersionOfParts | src-tauri/src/profiles.rs:561-566 | "a.b.c" with a and b numeric yields the parsed a and b |
| Dependencies.AbsoluteVersionIgnoresPatch | src-tauri/src/profiles.rs:561-566 | the weight is (a*100 + b*10 + a) mod 2^32 and does not depend on the patch component |
| Dependencies.AbsoluteVersionNeedsTwoParts | src-tauri/src/profiles.rs:562-564 | a version number without a dot has no weight: the source panics on it |
| Dependencies.Weigh | src-tauri/src/profiles.rs:563-565 | the weight of the first two components is below 2^32, and is major*101 + minor*10 when that does not overflow |
| Dependencies.Wrap32 | src-tauri/src/profiles.rs:563-565 | the wrap-around is below 2^32 and leaves numbers below 2^32 alone |
| Dependencies.IsEntryFor | src-tauri/src/profiles.rs:574 | whether a found release counts as an entry of the mod: under `BySubstring`, its full name contains the mod's name, as the source tests; under `ByModName`, its mod part equals the name |
| Dependencies.FindEntry | src-tauri/src/profiles.rs:574 | the first found release that counts as an entry of the mod under the chosen lookup, or None exactly when none does |
| Dependencies.FindInstalled | src-tauri/src/profiles.rs:584 | the first installed mod with exactly that full name, or None when there is none |
| Dependencies.Newer | src-tauri/src/profiles.rs:576 | defined when both weights are; true exactly when the first weight is larger |
| Dependencies.Dominates | src-tauri/src/profiles.rs:568-603 | each position of the old list, aligned from the end, holds the same release or one of no lower weight (weight is all it compares: under the substring lookup that release may be another mod's) |
| Dependencies.DominatesTransitive | src-tauri/src/profiles.rs:568-603 | that relation composes across calls |
| Dependencies.NoOlderTransitive | src-tauri/src/profiles.rs:576 | "same entry or no lower weight" is transitive |
| Dependencies.DominatesByTransitive | src-tauri/src/profiles.rs:568-603 | keeping each position by a transitive relation composes across calls |
| Dependencies.NoOlderPreorder | src-tauri/src/profiles.rs:576 | "same release or no lower weight" is reflexive and transitive |
| Dependencies.ResolveStep | src-tauri/src/profiles.rs:570-581 | one call's checks against the found list: a found entry of no lower weight stops, a failed weight parse panics, otherwise the profile is checked |
| Dependencies.AgainstInstalled | src-tauri/src/profiles.rs:584-588 | the checks against the profile: an installed copy of no lower weight stops, a failed parse panics, otherwise the release is fetched |
| Dependencies.Fetch | src-tauri/src/profiles.rs:590-597 | an uncatalogued mod stops, a missing release panics, otherwise the release replaces the older entry or goes in front |
| Dependencies.ResolveStepPlaces | src-tauri/src/profiles.rs:574-597 | a placed release is the catalogue's release with the requested number; it is strictly newer than any installed copy; it replaces the first found entry only when strictly newer, and otherwise it goes in front |
| Dependencies.AgainstInstalledPlaces | src-tauri/src/profiles.rs:584-597 | a placed release is the catalogued one with the requested number, put at the found index or at the front |
| Dependencies.StepDominates | src-tauri/src/profiles.rs:574-597 | one step leaves each position of the list it was handed with the same release or one of no lower weight (weight is all it compares: under the substring lookup that release may be another mod's) |
| Dependencies.PlaceDominates | src-tauri/src/profiles.rs:593-597 | replacing an entry with a release of higher weight, or inserting in front, leaves each old position with the same release or one of no lower weight |
| Dependencies.Walk | src-tauri/src/profiles.rs:568-603 | the recursion of `get_dependencies` for any per-call decision: finished, panicked, or out of fuel when the depth bound runs out |
| Dependencies.WalkAll | src-tauri/src/profiles.rs:599-601 | the loop over a release's dependencies, stopping at the first call that does not finish |
| Dependencies.WalkDominates | src-tauri/src/profiles.rs:568-603 | for any reflexive and transitive relation on releases: when no single decision breaks it at some position, a finished recursion does not either |
| Dependencies.WalkAllDominates | src-tauri/src/profiles.rs:599-601 | the same for the loop over dependencies |
| Dependencies.DecideNeverLoses | src-tauri/src/profiles.rs:570-597 | no decision `get_dependencies` makes leaves a position of the list it was handed with a release of lower weight |
| Dependencies.Resolve | src-tauri/src/profiles.rs:568-603 | a finished resolution leaves each position of the list it was given, aligned from the end, with the same release or one of no lower weight (weight is all it compares: under the substring lookup that release may be another mod's); a recursion deeper than the bound is `OutOfFuel`, never a finished list |
| Dependencies.ResolveAll | src-tauri/src/profiles.rs:599-601 | resolving each dependency in turn leaves each position of the list it was given with the same release or one of no lower weight |
| Dependencies.ResolvePlaced | src-tauri/src/profiles.rs:590-601 | once a release is placed, the call goes on with its dependencies, one level deeper |
| Dependencies.ResolveAllAt | src-tauri/src/profiles.rs:599-601 | the loop over dependencies resolves them in order and threads the list through |
| Dependencies.CheckAndPlace | src-tauri/src/profiles.rs:570-597 | the method's checks and placement equal one step of the specification |
| Dependencies.GetDependencies | src-tauri/src/profiles.rs:568-603 | the recursive method equals the specification, so its result keeps each position with the same release or one of no lower weight |
| Dependencies.GetEachDependency | src-tauri/src/profiles.rs:599-601 | the loop over a release's dependencies equals the specification |
| Dependencies.ResolveKeepsNewerFound | src-tauri/src/profiles.rs:574-581 | a found entry of equal or higher weight stops the resolution with the list unchanged |
| Dependencies.StepKeepsNewerFound | src-tauri/src/profiles.rs:574-581 | the same, for one step |
| Dependencies.ResolveKeepsInstalled | src-tauri/src/profiles.rs:574-588 | an installed mod of equal or higher weight stops the resolution with the list unchanged, whether or not an older entry was found first |
| Dependencies.StepKeepsInstalled | src-tauri/src/profiles.rs:584-588 | the same, for one step |
| Dependencies.ResolveUnknownMod | src-tauri/src/profiles.rs:590 | a mod missing from the catalogue adds nothing (or the weight parse panics) |
| Dependencies.StepUnknownMod | src-tauri/src/profiles.rs:590 | a mod missing from the catalogue is never placed |
| Dependencies.ResolveNewMod | src-tauri/src/profiles.rs:590-597 | a new mod whose version is missing panics; a new mod whose version has no dependencies is inserted at the front |
| Dependencies.StepNewMod | src-tauri/src/profiles.rs:590-597 | a new mod is inserted at the front, or the lookup panics |
| Dependencies.ResolveIgnoresPatchBump | src-tauri/src/profiles.rs:574-581 | a dependency differing only in its patch number from the one already found is not taken |
| Dependencies.SameModLookupKeepsOtherMods | src-tauri/src/profiles.rs:574-594 | with the mod-name lookup, a step keeps every entry of another mod |
| Dependencies.SameModNoOlderPreorder | src-tauri/src/profiles.rs:574-576 | "same release, or a release of the same mod of no lower weight" is reflexive and transitive |
| Dependencies.PlaceKeepsMods | src-tauri/src/profiles.rs:593-597 | replacing an entry with a release of the same mod of no lower weight, or inserting in front, keeps each old position for its mod |
| Dependencies.StepKeepsMods | src-tauri/src/profiles.rs:574-597 | with the mod-name lookup, and a catalogue whose releases carry their mod's name, one step keeps each position with the same release or a release of the same mod of no lower weight |
| Dependencies.DecideKeepsMods | src-tauri/src/profiles.rs:570-597 | the same for every decision of the mod-name lookup |
| Dependencies.ResolveKeepsMods | src-tauri/src/profiles.rs:568-603 | with the mod-name lookup, a finished resolution keeps every mod it was given: each position holds the same release or a release of the same mod of no lower weight |
| Dependencies.PrefixCatalogueIsMutualPair | src-tauri/src/profiles.rs:574 | in the catalogue of "a-b" 2.0.0 and "a-bc" 1.0.0, each depending on the other, the substring test takes "a-bc-1.0.0" for an entry of "a-b" but not the other way round |
| Dependencies.ReplaceFront | src-tauri/src/profiles.rs:574-597 | an older entry of the mod at the front of the list is replaced in place |
| Dependencies.PrefixReplacesExtended | src-tauri/src/profiles.rs:574-594 | with the substring lookup, a release of "a-b" overwrites the "a-bc" release in front of it |
| Dependencies.SubstringLookupCycles | src-tauri/src/profiles.rs:574-601 | with the substring lookup, such a pair makes the decisions go round: the dependency goes in front, then is overwritten by the first release |
| Dependencies.CycleNeverFinishesFrom | src-tauri/src/profiles.rs:568-603 | from a list of copies of the first release, such decisions recurse as deep as the bound allows |
| Dependencies.CycleNeverFinishes | src-tauri/src/profiles.rs:568-603 | such decisions make the download of the first release run out of fuel, whatever the bound |
| Dependencies.SubstringLookupDiverges | src-tauri/src/profiles.rs:568-603 | with the substring lookup, downloading the first release of such a pair never finishes |
| Dependencies.PrefixCatalogueDiverges | src-tauri/src/profiles.rs:568-603 | downloading "a-b-2.0.0" from that catalogue with the substring lookup runs out of fuel at every bound |
| Dependencies.ChainFinishes | src-tauri/src/profiles.rs:568-603 | three decisions that end in a stop finish with both releases, the dependency in front |
| Dependencies.SameModLookupStops | src-tauri/src/profiles.rs:574-581 | with the mod-name lookup, a release finds its own copy behind another mod's entry and stops |
| Dependencies.SameModLookupFinishes | src-tauri/src/profiles.rs:568-603 | with the mod-name lookup, the same pair finishes after three levels with one release of each mod |
| Dependencies.PrefixCatalogueFinishes | src-tauri/src/profiles.rs:568-603 | with the mod-name lookup, downloading "a-b-2.0.0" from that catalogue finishes with both releases |
| Dependencies.LeafReplacesExtended | src-tauri/src/profiles.rs:574-594 | with the substring lookup and a catalogue holding only "a-b" 2.0.0, placing "a-b-2.0.0" onto [a-bc-1.0.0] overwrites the "a-bc" release |
| Dependencies.SubstringLookupDropsOtherMod | src-tauri/src/profiles.rs:568-603 | with the substring lookup, downloading "a-b-2.0.0" onto [a-bc-1.0.0] finishes with [a-b-2.0.0]: no position lost weight, yet the "a-bc" mod is gone |
| Dependencies.ModNameLookupKeepsOtherMod | src-tauri/src/profiles.rs:568-603 | with the mod-name lookup, the same download finishes with [a-b-2.0.0, a-bc-1.0.0] |
| Dependencies.LeafOverExtended | src-tauri/src/profiles.rs:576 | the "a-b" release outweighs the "a-bc" one but is not a release of the same mod |
| PathFix.LineEnd | src-tauri/src/profiles.rs:420 | where the greedy second group stops: the first newline or the end |
| PathFix.GroupEnd | src-tauri/src/profiles.rs:420 | where the lazy first group stops: the first admissible slash |
| PathFix.FindMatch | src-tauri/src/profiles.rs:420 | the result is the leftmost match of `(?i)bepinex/(.+?)/(.+)`, with the shortest first group and the longest second group; None when nothing matches |
| PathFix.LeftmostUnique | src-tauri/src/profiles.rs:420 | that leftmost match is unique |
| PathFix.FixPath | src-tauri/src/profiles.rs:419-423 | the length is kept; the matched marker becomes `BepInEx/` and the first group is lower-cased; the rest of the text is unchanged; no match means no change |
| PathFix.FixPathIdempotent | src-tauri/src/profiles.rs:419-423 | fixing a fixed path changes nothing |
| PathFix.FixedMatchesAgain | src-tauri/src/profiles.rs:420 | a fixed path matches at the same places |
| PathFix.MatchIgnoresCase | src-tauri/src/profiles.rs:420 | matching depends only on the lower-cased text |
| PathFix.FixPathSameUpToCase | src-tauri/src/profiles.rs:419-423 | fixing changes letters' case and nothing else |
| PathFix.FixPathNoMarker | src-tauri/src/profiles.rs:419-423 | a path without the marker is left alone |
| ModFiles.Parent | src-tauri/src/profiles.rs:444 | `Path::parent` on a relative Windows path, split at `/` and `\`: None only for the empty path; otherwise a shorter prefix that the rest of the path follows after a separator, or empty only when no separator follows the first character; no separator lies after the parent's end |
| ModFiles.LastSeparator | src-tauri/src/profiles.rs:444 | the index of the last `/` or `\`, with none after it; None exactly when the path holds neither |
| ModFiles.LastComponent | src-tauri/src/profiles.rs:472-473 | the file name: holds no separator, and a path without separators is its own file name |
| ModFiles.ModFolder | src-tauri/src/profiles.rs:430 | the mod folder starts with `<profile>\BepInEx\plugins\` and ends with `\<mod>` |
| ModFiles.Climb | src-tauri/src/profiles.rs:442-454 | the inner loop of the DLL search as a recursion: climb until the parent is missing or ends in `plugins` |
| ModFiles.FolderOf | src-tauri/src/profiles.rs:442-454 | the folder the climb reaches from the DLL itself |
| ModFiles.ClimbPrefix | src-tauri/src/profiles.rs:442-454 | the folder the climb reaches ends in `/` and is either "/" or a directory the DLL lies inside, followed there by `/` or `\` |
| ModFiles.FolderOfShape | src-tauri/src/profiles.rs:442-454 | the same, starting from the DLL itself |
| ModFiles.BackslashDllFolder | src-tauri/src/profiles.rs:442-454 | a DLL stored as `BepInEx\plugins\x.dll` has the DLL folder `BepInEx\plugins/`: the climb splits at backslashes too |
| ModFiles.ClimbToPlugins | src-tauri/src/profiles.rs:442-454 | the loop equals the recursive climb |
| ModFiles.DllFolderOf | src-tauri/src/profiles.rs:436-459 | the DLL folder is never empty: it is "*" when no DLL is found |
| ModFiles.DllFolderFixed | src-tauri/src/profiles.rs:458 | the DLL folder is already a fixed path |
| ModFiles.FindDllFolder | src-tauri/src/profiles.rs:436-459 | the first loop over the archive equals the specification: the last DLL's folder, passed through `fix_path` |
| ModFiles.OutPath | src-tauri/src/profiles.rs:495-538 | the outpath chain for a file: marked paths by their sub-folder, then `config/`, `plugins/`, `patchers/`, other nested paths, and root files into the mod folder |
| ModFiles.Route | src-tauri/src/profiles.rs:469-538 | unsafe names are skipped; BepInExPack's own tree is unpacked into the profile; directories are skipped; files are written at their outpath |
| ModFiles.Externals | src-tauri/src/profiles.rs:540-543 | the outpaths outside the mod folder, with `\` turned into `/`; stated by ExternalsExact |
| ModFiles.Routes | src-tauri/src/profiles.rs:463-538 | one action per archive entry |
| ModFiles.RoutesAt | src-tauri/src/profiles.rs:463-538 | entry k is routed by the rule for its own path alone |
| ModFiles.ExternalsExact | src-tauri/src/profiles.rs:540-543 | a file is recorded as external exactly when some write goes outside the mod's folder, with backslashes turned into slashes |
| ModFiles.ExtractMod | src-tauri/src/profiles.rs:425-559 | the second loop's actions and external files equal the routing specification |
| ModFiles.RouteConfig | src-tauri/src/profiles.rs:517-518 | `config/x` goes to `<profile>\BepInEx\config\x` |
| ModFiles.RoutePatchers | src-tauri/src/profiles.rs:532-533 | `patchers/x` goes to `<profile>\BepInEx\patchers\<mod>\x` |
| ModFiles.RouteMarkedConfig | src-tauri/src/profiles.rs:499-502 | `BepInEx/config/x` goes to `<profile>\BepInEx\config\x` |
| ModFiles.RouteLoose | src-tauri/src/profiles.rs:536-537 | a file at the archive's root goes into the mod's own folder |
| ModFiles.RouteLooseEntry | src-tauri/src/profiles.rs:471-473 | a well-named file at the archive's root is written into the mod's folder under its last component, which is its stored name when that holds no backslash |
| ModFiles.NoMarkerWithoutSlash | src-tauri/src/profiles.rs:499 | a path without a slash never matches `bepinex/` |
| Toggle.DllRename | src-tauri/src/profiles.rs:365-369 | disabling appends `.disabled` to each DLL not ending in it; enabling cuts it off each that does; any other DLL is left alone |
| Toggle.DllRenameRoundTrip | src-tauri/src/profiles.rs:365-369 | disabling then enabling a DLL gives back its path |
| Toggle.DllRenames | src-tauri/src/profiles.rs:361-370 | the DLL loop's renames in the glob's order, at most one per DLL |
| Toggle.DllRenamesExact | src-tauri/src/profiles.rs:361-370 | the loop renames exactly the DLLs that need it, each the way the toggle asks |
| Toggle.RenameDlls | src-tauri/src/profiles.rs:361-370 | the loop equals the specification |
| Toggle.ExternalRenames | src-tauri/src/profiles.rs:387-410 | the external-files loop's renames, at most one per listed file: disabling stashes each existing file, enabling brings each existing stashed copy back |
| Toggle.GivesUp | src-tauri/src/profiles.rs:398-402 | the early return: enabling, with an external-files list, and no `.disabled` folder |
| Toggle.StashPath | src-tauri/src/profiles.rs:388-389 | a stashed file lives under the `.disabled` folder, at a suffix of its listed path |
| Toggle.ExternalRoundTrip | src-tauri/src/profiles.rs:382-411 | with all files present, enabling undoes disabling, rename by rename |
| Toggle.RenameExternals | src-tauri/src/profiles.rs:387-410 | the loop equals the specification |
| Toggle.ToggleMod | src-tauri/src/profiles.rs:352-417 | an unknown mod changes nothing; enabling with external files but no `.disabled` folder gives up after the DLL renames, without flipping or saving; otherwise every rename is made and the flag flips |
| Toggle.GivingUpIsStable | src-tauri/src/profiles.rs:398-402 | after giving up, a second attempt renames no DLL and gives up again |
| Toggle.NothingToEnable | src-tauri/src/profiles.rs:367-368 | enabling renames nothing when no DLL ends in `.disabled` |
| Profiles.ValidProfileName | src-tauri/src/profiles.rs:264-265 | the name is non-empty and made only of ASCII letters, digits, `_` and `-` |
| Profiles.ProfileDir | src-tauri/src/profiles.rs:262-266 | the profile folder starts with `<app dir>\profiles\` and ends with `\<name>` |
| Profiles.CreateProfile | src-tauri/src/profiles.rs:259-321 | refusal, panic or the created profile; every outcome is stated by CreateProfileOutcomes |
| Profiles.IconExtension | src-tauri/src/profiles.rs:276-286 | a data URL's extension is the text between `data:image/` and the first `;`; a URL's extension is the text after its last dot |
| Profiles.DataUrlHead | src-tauri/src/profiles.rs:278 | the slice after `data:image/` is in range and stops before the first `;` |
| Profiles.DataUrlExtension | src-tauri/src/profiles.rs:278 | `data:image/png;...` gives `png` |
| Profiles.UrlExtension | src-tauri/src/profiles.rs:283 | `x.png` gives `png` |
| Profiles.CreateProfileOutcomes | src-tauri/src/profiles.rs:259-321 | an invalid name is refused; an existing folder is refused; a data URL without `;` panics; otherwise the profile gets the name, the folder `profiles\<name>` and an icon path with the right extension |
| Profiles.ValidNameIsOneComponent | src-tauri/src/profiles.rs:264-266 | a valid name holds no separators or dots, so the profile folder is one path component |
| Installs.FindPath | src-tauri/src/installs.rs:36 | the first install with the path, or None exactly when there is none |
| Installs.Settings.SelectedInstall | src-tauri/src/installs.rs:28-45 | an install is returned exactly when a selection is stored and listed; it is a listed install with that path |
| Installs.Settings.SelectInstall | src-tauri/src/installs.rs:47-51 | the selection becomes the argument and the list is unchanged |
| Installs.Settings.AddManualInstall | src-tauri/src/installs.rs:53-81 | a cancelled picker or a duplicate path changes nothing; a new path is appended as a local install |
| Installs.ManualAppendKeepsDistinct | src-tauri/src/installs.rs:68-76 | the picker's append keeps install paths distinct |
| Installs.AddDisks | src-tauri/src/installs.rs:112-130 | the disk loop: each existing library folder not listed yet is appended; the list never shrinks |
| Installs.AddDisksAppendsNew | src-tauri/src/installs.rs:112-130 | the disk loop only appends existing library folders that are not listed yet, and keeps paths distinct |
| Installs.AddDiskInstalls | src-tauri/src/installs.rs:112-130 | the loop equals the specification |
| Installs.SelectedPath | src-tauri/src/installs.rs:132-136 | the selection is reported exactly when some install has that path |
| Installs.FindSelection | src-tauri/src/installs.rs:132-136 | the loop equals the specification |
| Installs.ScanInstalls | src-tauri/src/installs.rs:104-110 | an existing home Steam folder is always appended |
| Installs.HomeSteamPath | src-tauri/src/installs.rs:98-102 | the home Steam folder starts with the home directory and a backslash and ends in the game folder |
| Installs.DiskLibraryPath | src-tauri/src/installs.rs:114-122 | a disk's library folder ends in `\SteamLibrary` and the game folder; what comes before holds no quote and no backslash and only characters of the mount point |
| Installs.SteamInstall | src-tauri/src/installs.rs:105-109 | each install the scan adds is a Steam install with `/logo.png`; stated in AddDisksAppendsNew |
| Installs.RepeatedScanRepeatsHome | src-tauri/src/installs.rs:104-110 | a second scan lists the home Steam folder twice |
| Installs.Settings.Scan | src-tauri/src/installs.rs:84-145 | the stored list becomes the stored one plus the home folder and the disks' libraries; the result carries that list and the selection when it is listed |
| ViewState.Lookup | app/_utils/state.tsx:8-11 | the cached value when it is defined, otherwise the default |
| ViewState.ReadAfterSet | app/_utils/state.tsx:8-16 | a key read after it was set gives the value set |
| ViewState.SetLeavesOthers | app/_utils/state.tsx:13-16 | setting a key does not change what other keys read |
| ViewState.UnsetReadsDefault | app/_utils/state.tsx:8-11 | an unset or undefined key reads as the default |
| ViewState.ViewCache.constructor | app/_utils/state.tsx:5 | the cache starts empty |
| ViewState.ViewCache.Store | app/_utils/state.tsx:14 | one key is overwritten |
| ViewState.PersistedState.constructor | app/_utils/state.tsx:7-11 | mounting starts from the cached value or the default |
| ViewState.PersistedState.Set | app/_utils/state.tsx:13-16 | the setter writes the cache and the component's state |
| ViewState.Remount | app/_utils/state.tsx:7-16 | a component mounted again starts from what it last set, and no other key changes |
| SearchPage.NextType | app/search/page.tsx:134-136 | each tri-state type filter goes 0 → 1 → -1 → 0 |
| SearchPage.NextTypeCycle | app/search/page.tsx:134-136 | three clicks bring a type filter back to where it was |
| SearchPage.Selected | app/search/page.tsx:105 | the selected categories, no more than the entries |
| SearchPage.SelectedExact | app/search/page.tsx:105 | a category is sent exactly when its entry is true |
| SearchPage.SetEntry | app/search/page.tsx:142 | the key takes the value and other entries stay |
| SearchPage.SetEntrySelected | app/search/page.tsx:142-144 | after setting a category, it is selected iff the new value is true; no other category's selection changes |
| SearchPage.SetEntryKeys | app/search/page.tsx:142 | setting an entry keeps the keys distinct |
| SearchPage.NoneSelected | app/search/page.tsx:150-153 | once every category is cleared, none is sent |
| SearchPage.Page.Search | app/search/page.tsx:99-106 | the request carries the query, the page, the sort, the selected categories and the types; query, sort order and loading are set |
| SearchPage.Page.SearchAnswered | app/search/page.tsx:107-112 | an answer stores the data and the page and clears loading; a failure changes nothing |
| SearchPage.Page.ToggleType | app/search/page.tsx:133-139 | the type advances one step and page 0 is requested; loading is set; query, sort, categories, results, page and dialogs stay |
| SearchPage.Page.SetCategory | app/search/page.tsx:141-145 | the category is set and page 0 is requested with the new selection; loading is set; query, sort, types, results, page and dialogs stay |
| SearchPage.Page.ClearFilters | app/search/page.tsx:147-154 | both types become 0, every category false, and the same page is requested with no filters; loading is set; query, sort, results, page and dialogs stay |
| SearchPage.Page.ChangeSortOrder | app/search/page.tsx:156-158 | page 0 is requested with the new sort, which is stored; loading is set; query, filters, results, page and dialogs stay |
| SearchPage.Page.EditQuery | app/search/page.tsx:259-261 | typing stores the query and requests page 0 without the loading indicator; sort, filters, results, page and dialogs stay |
| SearchPage.Page.ClearQuery | app/search/page.tsx:262 | the clear button empties the query and requests the same page; loading is set; sort, filters, results, page and dialogs stay |
| SearchPage.Page.ChangePage | app/search/page.tsx:163 | the pager's 1-based page is requested 0-based; loading is set; query, sort, filters, results, page and dialogs stay until the answer |
| SearchPage.Page.Download | app/search/page.tsx:115-127 | with a profile, the download is sent and the selection dialog closes; without one, the dialog opens; every other field stays |
| SearchPage.OffersNewProfile | app/search/page.tsx:369 | a new profile is offered exactly when no profile has the mod's name |
| SearchPage.Page.CreateProfileAndDownload | app/search/page.tsx:369-377 | the profile is created from the mod's name and first release's icon, then that release is downloaded; the selection dialog closes once created; every other field stays |
| SearchPage.ProgressStep | app/search/page.tsx:190-198 | an event with a non-negative total opens the dialog while closed; a total of 100 while open schedules the close |
| SearchPage.Page.OnProgress | app/search/page.tsx:188-199 | the listener follows that decision: opening sets only the dialog, scheduling only the pending close, and nothing else changes |
| SearchPage.Page.CloseTimerFires | app/search/page.tsx:197 | the scheduled close closes the dialog and clears the pending close; every other field stays |
| SearchPage.FlagAfterSnoc | app/search/page.tsx:188-198 | the listener's flag after a run of events is the flag after each one in turn |
| SearchPage.FlagStaysOpen | app/search/page.tsx:192-198 | totals below 100 keep an open flag open |
| SearchPage.DownloadOpensThenCloses | app/search/page.tsx:188-199 | a download's events open the dialog on the first one and schedule its close on the final 100 |
| ProfilePage.FilteredMods | app/profiles/profile/page.tsx:42-44 | the filter keeps no more mods than it is given |
| ProfilePage.FilteredExact | app/profiles/profile/page.tsx:43 | a mod is kept exactly when its name matches |
| ProfilePage.FilteredConcat | app/profiles/profile/page.tsx:43 | the filter distributes over concatenation, so it keeps the mods' order |
| ProfilePage.FilteredAllMatch | app/profiles/profile/page.tsx:43 | a query every name matches keeps the list as it is |
| ProfilePage.SortByName | app/profiles/profile/page.tsx:49-52 | the stable name sort, ascending or descending; stated by SortByNameSpec |
| ProfilePage.SortByNameSpec | app/profiles/profile/page.tsx:50-52 | sorting only reorders, by name ascending or descending as the descriptor says |
| ProfilePage.SliceBound | app/profiles/profile/page.tsx:53 | JavaScript's clamping of a slice index |
| ProfilePage.JsSlice | app/profiles/profile/page.tsx:53 | `slice(start, end)` holds the clamped range |
| ProfilePage.Pages | app/profiles/profile/page.tsx:55 | the page count is the least number of 20-mod pages holding every match |
| ProfilePage.ShowPagination | app/profiles/profile/page.tsx:129-130 | the pager is shown when more than 20 mods match; stated by ShowPaginationIffSeveralPages |
| ProfilePage.ShowPaginationIffSeveralPages | app/profiles/profile/page.tsx:129-130 | the pager is shown exactly when there is more than one page |
| ProfilePage.PageHoldsAtMostTwenty | app/profiles/profile/page.tsx:45-54 | a page shows at most 20 mods |
| ProfilePage.DisplayedMods | app/profiles/profile/page.tsx:45-54 | the filtered mods sorted by name, then sliced to the page; stated by PageContents |
| ProfilePage.PageContents | app/profiles/profile/page.tsx:45-55 | page p shows the sorted matches from (p-1)*20 on, and is non-empty exactly when p is at most the page count |
| ProfilePage.EveryModOnItsPage | app/profiles/profile/page.tsx:45-55 | every match appears on page k/20 + 1, at position k mod 20 |
| ProfilePage.PagesDoNotOverlap | app/profiles/profile/page.tsx:45-54 | no other page shows the same match |
| ProfilePage.IsProfileRunning | app/profiles/profile/page.tsx:33 | the game runs and reports this profile |
| ProfilePage.PlayCommands | app/profiles/profile/page.tsx:208-213 | a running game is stopped first; this profile is started unless it is the one running |
| ProfilePage.PlayIsToggle | app/profiles/profile/page.tsx:33 | for the running profile the button stops the game; when nothing runs it starts the profile; when another profile runs it stops that one and starts this one |
| ProfilePage.ProfileView.Search | app/profiles/profile/page.tsx:37-40 | a new query goes back to page 1 |
| ProfilePage.ProfileView.ChangePage | app/profiles/profile/page.tsx:26 | the page changes and nothing else |
| ProfilePage.ProfileView.ChangeSort | app/profiles/profile/page.tsx:27-30 | the direction changes and nothing else |
| ProfilePage.SearchShowsFirstPage | app/profiles/profile/page.tsx:37-54 | after a search the table shows the first 20 sorted matches |
| Sorting.SortBySorted | src-tauri/src/thunderstore.rs:226-233 | the stable sort is a permutation that is sorted under any total preorder |
| Sorting.SortBy | src-tauri/src/thunderstore.rs:226-233 | the sort only reorders: same length and the same multiset of elements |
| Sorting.Equivalents | src-tauri/src/thunderstore.rs:226-233 | the elements level with `k` under the order, in their order in the sequence; never more than the sequence holds |
| Sorting.InsertEquivalents | src-tauri/src/thunderstore.rs:226-233 | inserting `x` puts it ahead of every element of the sequence level with it, so the sort, which inserts each element into the sorted rest, keeps their order |
| Sorting.SortByStable | src-tauri/src/thunderstore.rs:226-233 | the sort is stable: for every `k`, the elements level with `k` come out in their input order |

## Left out

- File system, network and process effects are left out: reading and writing files, creating folders, HTTP requests, unzipping, spawning or stopping the game. Paths that exist are an input snapshot, and renames and writes are returned as lists.
- The existence snapshot is taken once per command. A folder the command itself creates, such as `.disabled` when disabling, is not added to the snapshot.
- The `BUSY` and `INTERRUPT` mutexes of `search`, and the early `Err` when a newer search interrupts, are left out. Concurrency is not modelled.
- The fuzzy fallback of `search` (sift4 similarity on floats) and the keyword regular expression are left out. Both are taken as an input predicate `matches`, so an invalid query regex, which panics in the source, is not modelled.
- ProfilePage.FilteredMods: the query's `RegExp(query, 'i')` is an input predicate on names. An invalid pattern throws in the source; the model does not capture that.
- Strings are sequences of characters. Rust slices by byte, and lower-casing is ASCII only, so multi-byte text is not modelled.
- Dependencies.Resolve: the source's recursion has no bound. The model bounds its depth by a `fuel` argument, and a call that reaches the bound ends in `OutOfFuel`, which stands for a recursion that does not return. No finished list is ever reported for a cut-off call; stack overflow itself is not modelled.
- Dependencies.ResolveKeepsMods requires every catalogued release to carry its mod's full name (`NamesReleases`), as Thunderstore's `<mod>-<version>` names do. The source does not check this.
- Dependencies.AbsoluteVersion: u32 arithmetic wraps around as in a release build. A debug build would panic on overflow instead.
- The catalogue's hash-map iteration order is an input `order`. The matches come out in that order before sorting.
- `localeCompare` and Rust's string order are both modelled as byte-wise order (`StrLe`). Locale collation is left out.
- React scheduling is left out: stale closures, the 50 ms close timer as a real delay, and re-render timing.
- The search page's mount effect (the first search, loading profiles, restoring the scroll position and sampling it every 500 ms) is left out, apart from the download-progress listener.
- JSON parse failures and `unwrap` panics on malformed files are left out.
- SearchPage.Page.CreateProfileAndDownload requires the mod to have a release. The source reads `versions[0]` without a check.
- ProfilePage.IsProfileRunning: the game status's profile is `null` or `undefined` in the source; both are Option's None.
- The persisted page and mod list of the profile page are plain fields of `ProfileView`. They are not linked to `ViewState` in the model.
- ProfilePage.DisplayedMods: `filteredMods.sort` reorders the memoised array in place. The model sorts a copy, so the aliasing is not captured.
- Thunderstore.Search requires every catalogued mod except BepInExPack to have a release, because the loop reads `versions[0]` of each such mod before any filter and panics on an empty list. It also requires the page to start within the matches, because the slice panics otherwise.
- Thunderstore.Search: the page count is `len/20` rounded down, as written. The source serialises it as u32.
- Thunderstore.LoadPackage requires a non-empty download, because `remove(0)` panics on an empty list.
- Thunderstore.GetModVersion requires the version to exist when the mod is catalogued, because `find(...).unwrap()` panics otherwise. The dependency resolution models that panic as an outcome.
- Thunderstore.Paginate requires the page to start within the matches, because the slice panics otherwise.
- ModFiles.ExtractMod requires every entry name to be non-empty. An empty name has no file name, and the source's `unwrap` on it panics.
- ModFiles.Parent: the program runs on Windows, so both `/` and `\` separate components. Repeated or trailing separators, `.` components and absolute or rooted names, which Rust's `Path` normalises, are taken literally.
- ModFiles.RouteLooseEntry assumes the entry is well named: its safe path's file name is the last component of its stored name. The zip library's sanitising of names is not modelled.
- ModFiles.ExtractMod: the progress callback, creating the mod folder and writing `external_files.json` are left out.
- Installs.Settings.Scan: the disks' mount points, the home directory and the paths that exist are inputs.
- Installs.Settings.AddManualInstall: the folder picker's answer is an input.
- Profiles.CreateProfile: the image bytes are not modelled, whether decoded from base64 or downloaded. Only the icon's path and extension are.

## Findings

`get_dependencies` looks for an earlier entry of a mod with a substring test on full names. In the model this is the lookup `BySubstring`. `ByModName` is the corrected lookup: it compares the mod part of each entry's full name. Every property of the resolution is proved for both lookups, and the lemmas that differ are listed below. The substring test has two consequences: a pair of mods whose names share a prefix can make the download recurse forever, and a download can overwrite a release of another mod. The weight-only property `Dominates` holds under either lookup and does not see the second; `KeepsMods` does, and `ResolveKeepsMods` proves it for the mod-name lookup.

| source | as written | input that shows it | evidently intended | confidence | as-written member | corrected member |
|---|---|---|---|---|---|---|
| src-tauri/src/profiles.rs:574 | an entry counts for the mod when its full name contains the mod's full name, so a release of "a-bc" counts as an entry of "a-b" and is overwritten in place at line 594 | mod "a-b" 2.0.0 depending on "a-bc-1.0.0", and mod "a-bc" 1.0.0 depending on "a-b-2.0.0"; download "a-b-2.0.0" with an empty list and profile: the list grows [a-b] → [a-bc, a-b] → [a-b, a-b] → [a-bc, a-b, a-b] → … and the recursion never returns | an entry counts only when its mod name equals the mod's full name; the download then finishes with [a-bc-1.0.0, a-b-2.0.0] | not executed | Dependencies.SubstringLookupDiverges | Dependencies.SameModLookupFinishes |
| src-tauri/src/profiles.rs:574-594 | an entry of another mod whose full name contains the mod's name is taken for an older release of it and overwritten in place at line 594, so that mod leaves the list | a catalogue holding only mod "a-b" with release 2.0.0 and no dependencies; download "a-b-2.0.0" onto the list [a-bc-1.0.0] with an empty profile: the result is [a-b-2.0.0] | the "a-bc" release is kept and the new release goes in front: [a-b-2.0.0, a-bc-1.0.0] | not executed | Dependencies.SubstringLookupDropsOtherMod | Dependencies.ResolveKeepsMods |
