/** The renaming rules and the flag flip of `toggle_mod` in
    src-tauri/src/profiles.rs. The renames themselves are returned as a
    list in the order the source performs them; which paths exist is a
    snapshot taken when the command starts. */
module Toggle {
  import opened Strings
  import opened Utils
  import opened Thunderstore
  import opened Dependencies

  /** `std::fs::rename(from, to)`. */
  datatype Rename = Rename(from: string, to: string)

  const DisabledSuffix := ".disabled"

  /** What happens to one DLL the glob turned up: a mod being disabled gets
      `.disabled` appended to each DLL path not already ending in it, and a
      mod being enabled has the last nine characters cut off each path that
      ends in it. `enabled` is the mod's flag before the toggle. */
  function DllRename(enabled: bool, path: string): (r: Option<Rename>)
    ensures r.Some? ==> r.value.from == path
    ensures r.Some? <==> (enabled != EndsWith(path, DisabledSuffix))
    ensures r.Some? && enabled ==> r.value.to == path + DisabledSuffix
    ensures r.Some? && !enabled ==> r.value.to + DisabledSuffix == path
  {
    if enabled && !EndsWith(path, DisabledSuffix) then Some(Rename(path, path + DisabledSuffix))
    else if !enabled && EndsWith(path, DisabledSuffix) then
      assert path == path[..|path| - |DisabledSuffix|] + DisabledSuffix;
      Some(Rename(path, path[..|path| - |DisabledSuffix|]))
    else None
  }

  /** Disabling a DLL and enabling it again gives back its path. */
  lemma DllRenameRoundTrip(path: string)
    requires !EndsWith(path, DisabledSuffix)
    ensures DllRename(true, path) == Some(Rename(path, path + DisabledSuffix))
    ensures DllRename(false, path + DisabledSuffix) == Some(Rename(path + DisabledSuffix, path))
  {
    assert (path + DisabledSuffix)[|path|..] == DisabledSuffix;
    var back := DllRename(false, path + DisabledSuffix).value.to;
    assert back + DisabledSuffix == path + DisabledSuffix;
    assert back == (back + DisabledSuffix)[..|back|];
  }

  /** The renames of the DLL loop, in the glob's order. */
  function DllRenames(enabled: bool, paths: seq<string>): (r: seq<Rename>)
    ensures |r| <= |paths|
  {
    if paths == [] then []
    else
      var rest := DllRenames(enabled, paths[..|paths| - 1]);
      match DllRename(enabled, paths[|paths| - 1])
      case None => rest
      case Some(m) => rest + [m]
  }

  /** Every rename of the DLL loop moves a listed path the way the toggle
      asks, and every listed path that needs it gets one. */
  lemma {:induction false} DllRenamesExact(enabled: bool, paths: seq<string>)
    ensures forall m :: m in DllRenames(enabled, paths) <==>
      exists p :: p in paths && DllRename(enabled, p) == Some(m)
  {
    if paths != [] {
      var init, last := paths[..|paths| - 1], paths[|paths| - 1];
      DllRenamesExact(enabled, init);
      assert paths == init + [last];
    }
  }

  /** The loop over the glob's results. */
  method RenameDlls(enabled: bool, paths: seq<string>) returns (renames: seq<Rename>)
    ensures renames == DllRenames(enabled, paths)
  {
    renames := [];
    for i := 0 to |paths|
      invariant renames == DllRenames(enabled, paths[..i])
    {
      assert paths[..i + 1][..i] == paths[..i];
      var m := DllRename(enabled, paths[i]);
      if m.Some? {
        renames := renames + [m.value];
      }
    }
    assert paths[..|paths|] == paths;
  }

  // ---------------------------------------------------------------------
  // External files

  /** `<folder>\.disabled`, where a disabled mod keeps its external files. */
  function DisabledFolder(folder: string): string {
    folder + "\\" + DisabledSuffix
  }

  /** Where an external file is kept while its mod is disabled: below the
      `.disabled` folder, under its path from `BepInEx/` on. */
  function StashPath(folder: string, file: string): (r: string)
    ensures StartsWith(r, DisabledFolder(folder) + "\\")
    ensures EndsWith(file, r[|DisabledFolder(folder)| + 1..])
  {
    var prefix := DisabledFolder(folder) + "\\";
    var tail := StrSkipTo(file, "BepInEx/");
    assert (prefix + tail)[..|prefix|] == prefix && (prefix + tail)[|prefix|..] == tail;
    prefix + tail
  }

  /** The renames of the external-files loop: disabling moves each listed
      file that exists to its stash path; enabling moves each stashed copy
      that exists back to the listed path. */
  function ExternalRenames(enabled: bool, folder: string, files: seq<string>,
                           existing: set<string>): (r: seq<Rename>)
    ensures |r| <= |files|
  {
    if files == [] then []
    else
      var rest := ExternalRenames(enabled, folder, files[..|files| - 1], existing);
      var f := files[|files| - 1];
      var stash := StashPath(folder, f);
      if enabled then (if f in existing then rest + [Rename(f, stash)] else rest)
      else (if stash in existing then rest + [Rename(stash, f)] else rest)
  }

  function Reverse(m: Rename): Rename {
    Rename(m.to, m.from)
  }

  /** With every listed file present when the mod is disabled and every
      stashed copy present when it is enabled again, enabling undoes
      disabling rename by rename. */
  lemma {:induction false} ExternalRoundTrip(folder: string, files: seq<string>,
                                             before: set<string>, after: set<string>)
    requires forall f :: f in files ==> f in before && StashPath(folder, f) in after
    ensures |ExternalRenames(true, folder, files, before)| == |files|
    ensures |ExternalRenames(false, folder, files, after)| == |files|
    ensures forall k :: 0 <= k < |files| ==>
      ExternalRenames(false, folder, files, after)[k] == Reverse(ExternalRenames(true, folder, files, before)[k])
  {
    if files != [] {
      var init, f := files[..|files| - 1], files[|files| - 1];
      assert forall g :: g in init ==> g in files;
      ExternalRoundTrip(folder, init, before, after);
      var stash := StashPath(folder, f);
      assert f in files;
      var en, dis := ExternalRenames(true, folder, init, before), ExternalRenames(false, folder, init, after);
      assert ExternalRenames(true, folder, files, before) == en + [Rename(f, stash)];
      assert ExternalRenames(false, folder, files, after) == dis + [Rename(stash, f)];
    }
  }

  /** The external-files loop. */
  method RenameExternals(enabled: bool, folder: string, files: seq<string>,
                         existing: set<string>) returns (renames: seq<Rename>)
    ensures renames == ExternalRenames(enabled, folder, files, existing)
  {
    renames := [];
    for i := 0 to |files|
      invariant renames == ExternalRenames(enabled, folder, files[..i], existing)
    {
      assert files[..i + 1][..i] == files[..i];
      var f := files[i];
      var stash := StashPath(folder, f);
      if enabled {
        if f in existing {
          renames := renames + [Rename(f, stash)];
        }
      } else if stash in existing {
        renames := renames + [Rename(stash, f)];
      }
    }
    assert files[..|files|] == files;
  }

  // ---------------------------------------------------------------------
  // The command

  /** The early return: the mod is being enabled, it has an external-files
      list, and there is no `.disabled` folder to bring files back from. */
  predicate GivesUp(m: ModInfo, externalFiles: Option<seq<string>>, existing: set<string>) {
    !m.enabled && externalFiles.Some? && DisabledFolder(m.folder) !in existing
  }

  /** `toggle_mod` on the profile's mod list. `dlls` is what the glob finds
      in the named mod's folder, `externalFiles` the list its
      `external_files.json` holds when there is one, and `existing` the
      paths that exist. `saved` says whether the new list is written back. */
  method ToggleMod(mods: seq<ModInfo>, name: string, dlls: seq<string>,
                   externalFiles: Option<seq<string>>, existing: set<string>)
    returns (newMods: seq<ModInfo>, renames: seq<Rename>, saved: bool)
    ensures FindInstalled(mods, name).None? ==> newMods == mods && renames == [] && !saved
    ensures FindInstalled(mods, name).Some? ==>
      var i := FindInstalled(mods, name).value;
      var m := mods[i];
      if GivesUp(m, externalFiles, existing) then
        newMods == mods && renames == DllRenames(false, dlls) && !saved
      else
        && newMods == mods[i := m.(enabled := !m.enabled)]
        && renames == DllRenames(m.enabled, dlls) +
             (if externalFiles.Some? then ExternalRenames(m.enabled, m.folder, externalFiles.value, existing) else [])
        && saved
  {
    newMods, renames, saved := mods, [], false;
    var found := FindInstalled(mods, name);
    if found.None? {
      return;
    }
    var i := found.value;
    var m := mods[i];
    renames := RenameDlls(m.enabled, dlls);
    if externalFiles.Some? {
      if !m.enabled && DisabledFolder(m.folder) !in existing {
        return;
      }
      var moved := RenameExternals(m.enabled, m.folder, externalFiles.value, existing);
      renames := renames + moved;
    }
    newMods := newMods[i := m.(enabled := !m.enabled)];
    saved := true;
  }

  /** When the toggle gives up, the DLLs have already been renamed back
      but the mod stays marked as disabled; a second attempt then renames
      nothing and gives up again, so the flag cannot be turned back on
      this way. */
  lemma GivingUpIsStable(m: ModInfo, externalFiles: Option<seq<string>>, existing: set<string>,
                         dlls: seq<string>)
    requires GivesUp(m, externalFiles, existing)
    requires forall p :: p in dlls ==> !EndsWith(p, DisabledSuffix)
    ensures DllRenames(m.enabled, dlls) == []
  {
    NothingToEnable(dlls);
  }

  lemma {:induction false} NothingToEnable(dlls: seq<string>)
    requires forall p :: p in dlls ==> !EndsWith(p, DisabledSuffix)
    ensures DllRenames(false, dlls) == []
  {
    if dlls != [] {
      var init := dlls[..|dlls| - 1];
      assert dlls[|dlls| - 1] in dlls;
      assert forall p :: p in init ==> p in dlls;
      NothingToEnable(init);
    }
  }
}
