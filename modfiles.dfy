/** The path logic of `extract_mod` in src-tauri/src/profiles.rs: finding
    the folder a mod's DLLs live in, and routing every archive entry to the
    place in the profile where it is written. Reading the archive and
    writing the files are left to the caller; here an archive is the list
    of its entries and the result is the list of writes. */
module ModFiles {
  import opened Strings
  import opened PathFix
  import Thunderstore

  /** One archive entry: its stored name, the file name of its sanitised
      path (`None` when the archive path cannot be enclosed safely) and
      whether it is a directory. */
  datatype Entry = Entry(name: string, fileName: Option<string>, isDir: bool)

  /** An entry whose safe path keeps its stored name's components: its file
      name, when it has one, is the last component of that name. */
  predicate WellNamed(e: Entry) {
    e.fileName.Some? ==> e.fileName.value == LastComponent(e.name)
  }

  /** What extraction does with an entry: nothing, unpack it at a path of
      the profile (the BepInExPack layout), or write it at an outpath. */
  datatype Action = Skip | Unpack(path: string) | Write(outpath: string)

  /** `profile_dir\BepInEx\plugins\<mod>`. */
  function ModFolder(profileDir: string, modName: string): (r: string)
    ensures StartsWith(r, profileDir + "\\BepInEx\\plugins\\") && EndsWith(r, "\\" + modName)
  {
    profileDir + "\\BepInEx\\plugins\\" + modName
  }

  // ---------------------------------------------------------------------
  // Paths

  /** On Windows, where the program runs, `Path` splits a name at both
      `/` and `\`. */
  predicate IsSeparator(c: char) {
    c == '/' || c == '\\'
  }

  /** The position of the last separator in `p`, if any. */
  function LastSeparator(p: string): (r: Option<nat>)
    ensures r.Some? ==> r.value < |p| && IsSeparator(p[r.value])
    ensures r.Some? ==> forall j :: r.value < j < |p| ==> !IsSeparator(p[j])
    ensures r.None? ==> forall j :: 0 <= j < |p| ==> !IsSeparator(p[j])
  {
    if p == [] then None
    else if IsSeparator(p[|p| - 1]) then Some(|p| - 1)
    else LastSeparator(p[..|p| - 1])
  }

  /** `file` lies inside the folder `dir`: it continues `dir` with a
      separator. */
  predicate Inside(file: string, dir: string) {
    |dir| < |file| && file[..|dir|] == dir && IsSeparator(file[|dir|])
  }

  /** `Path::parent` on a relative name: everything before the last
      separator, the empty path for a single component, nothing for the
      empty path. */
  function Parent(p: string): (r: Option<string>)
    ensures r.None? <==> p == ""
    ensures r.Some? ==> |r.value| < |p|
    ensures r.Some? && r.value == "" ==> forall j :: 0 < j < |p| ==> !IsSeparator(p[j])
    ensures r.Some? && r.value != "" ==> Inside(p, r.value)
    ensures r.Some? ==> forall j :: |r.value| < j < |p| ==> !IsSeparator(p[j])
  {
    if p == "" then None
    else match LastSeparator(p)
      case None => Some("")
      case Some(k) => Some(p[..k])
  }

  /** The last component of a path (`Path::ends_with` compares it). */
  function LastComponent(p: string): (r: string)
    ensures forall j :: 0 <= j < |r| ==> !IsSeparator(r[j])
    ensures (forall j :: 0 <= j < |p| ==> !IsSeparator(p[j])) ==> r == p
  {
    match LastSeparator(p)
    case None => p
    case Some(k) => p[k + 1..]
  }

  /** The inner `loop` of `extract_mod`, as a recursion: climb from `path`
      until the parent is missing or its lower-cased text ends in
      `plugins`. Reached from the DLL itself, the folder is that parent;
      reached from an ancestor, it is the ancestor. */
  function Climb(file: string, path: string): string
    decreases |path|
  {
    match Parent(path)
    // only the empty path has no parent, and the DLL's own path is not empty
    case None => path + "/"
    case Some(p) =>
      if EndsWith(Lower(p), "plugins") then (if path == file then p + "/" else path + "/")
      else Climb(file, p)
  }

  function FolderOf(file: string): string {
    Climb(file, file)
  }

  /** The folder the climb reaches is the DLL's folder, an ancestor of it
      followed by `/`, or `/` alone when no ancestor is a plugins folder. */
  lemma {:induction false} ClimbPrefix(file: string, path: string)
    requires path == file || path == "" || Inside(file, path)
    ensures var c := Climb(file, path);
      && EndsWith(c, "/")
      && (c == "/" || Inside(file, c[..|c| - 1]))
    decreases |path|
  {
    match Parent(path)
    case None =>
      SlashEnded("");
    case Some(p) =>
      if EndsWith(Lower(p), "plugins") {
        SlashEnded(p);
        SlashEnded(path);
        assert (p + "/")[..|p|] == p;
        assert (path + "/")[..|path|] == path;
      } else {
        if p != "" {
          InsideThroughParent(file, path, p);
        }
        ClimbPrefix(file, p);
      }
  }

  lemma SlashEnded(x: string)
    ensures EndsWith(x + "/", "/")
  {
    assert (x + "/")[|x|..] == "/";
  }

  /** A folder holding the parent holds every name below it. */
  lemma InsideThroughParent(file: string, path: string, p: string)
    requires path == file || Inside(file, path)
    requires Inside(path, p)
    ensures Inside(file, p)
  {
    if path != file {
      assert file[..|p|] == file[..|path|][..|p|];
      assert file[|p|] == file[..|path|][|p|];
    }
  }

  /** The DLL folder ends with `/`; before that `/` stands a folder
      holding the DLL, unless no ancestor was a plugins folder (then it is
      `/`). */
  lemma FolderOfShape(file: string)
    ensures EndsWith(FolderOf(file), "/")
    ensures var c := FolderOf(file); c == "/" || Inside(file, c[..|c| - 1])
  {
    ClimbPrefix(file, file);
  }

  /** A DLL stored under Windows separators: its parent is the plugins
      folder, and the folder found is that name followed by `/`. */
  lemma BackslashDllFolder()
    ensures FolderOf("BepInEx\\plugins\\x.dll") == "BepInEx\\plugins/"
  {
    var file := "BepInEx\\plugins\\x.dll";
    var r := LastSeparator(file);
    assert IsSeparator(file[15]);
    assert !IsSeparator(file[16]) && !IsSeparator(file[17]) && !IsSeparator(file[18]);
    assert !IsSeparator(file[19]) && !IsSeparator(file[20]);
    assert r == Some(15);
    assert file[..15] == "BepInEx\\plugins";
    assert Lower(file[..15])[8..] == "plugins";
  }

  /** The inner `loop`, climbing one parent at a time. */
  method ClimbToPlugins(file: string) returns (folder: string)
    ensures folder == FolderOf(file)
  {
    var path := file;
    var parent := Parent(path);
    while parent.Some? && !EndsWith(Lower(parent.value), "plugins")
      invariant parent == Parent(path)
      invariant Climb(file, path) == FolderOf(file)
      decreases |path|
    {
      path := parent.value;
      parent := Parent(path);
    }
    match parent
    case None =>
      folder := path + "/";
    case Some(p) =>
      if path == file {
        folder := p + "/";
      } else {
        folder := path + "/";
      }
  }

  // ---------------------------------------------------------------------
  // The DLL folder

  /** The first loop of `extract_mod`: the last `.dll` entry decides the
      folder, and `fix_path` is applied after every entry; with no DLL the
      folder stays `*`. */
  function DllFolderOf(names: seq<string>): (r: string)
    ensures r != ""
  {
    if names == [] then "*"
    else if EndsWith(names[|names| - 1], ".dll") then
      FolderOfShape(names[|names| - 1]);
      FixPath(FolderOf(names[|names| - 1]))
    else DllFolderOf(names[..|names| - 1])
  }

  /** Re-fixing the folder found so far changes nothing. */
  lemma DllFolderFixed(names: seq<string>)
    ensures FixPath(DllFolderOf(names)) == DllFolderOf(names)
  {
    if names == [] {
      assert FindMatch("*").None?;
    } else if EndsWith(names[|names| - 1], ".dll") {
      FixPathIdempotent(FolderOf(names[|names| - 1]));
    } else {
      DllFolderFixed(names[..|names| - 1]);
    }
  }

  function Names(entries: seq<Entry>): (r: seq<string>)
    ensures |r| == |entries| && forall k :: 0 <= k < |r| ==> r[k] == entries[k].name
  {
    seq(|entries|, k requires 0 <= k < |entries| => entries[k].name)
  }

  /** The first loop of `extract_mod`, entry by entry. */
  method FindDllFolder(names: seq<string>) returns (dllFolder: string)
    ensures dllFolder == DllFolderOf(names)
  {
    dllFolder := "*";
    for i := 0 to |names|
      invariant dllFolder == DllFolderOf(names[..i])
    {
      assert names[..i + 1][..i] == names[..i];
      if EndsWith(names[i], ".dll") {
        dllFolder := ClimbToPlugins(names[i]);
      } else {
        DllFolderFixed(names[..i]);
      }
      dllFolder := FixPath(dllFolder);
    }
    assert names[..|names|] == names;
  }

  // ---------------------------------------------------------------------
  // Routing

  /** `(?i)bepinex/` occurs somewhere in the path. */
  predicate HasMarker(s: string) {
    exists i :: 0 <= i < |s| && MarkerAt(s, i)
  }

  /** The outpath `if/else` chain of `extract_mod`, for a fixed entry path
      that is not a directory. */
  function OutPath(modName: string, profileDir: string, dllFolder: string,
                   filePath: string, fileName: string): string
    requires dllFolder != "" && filePath != ""
  {
    var modFolder := ModFolder(profileDir, modName);
    var plugins := profileDir + "\\BepInEx\\plugins\\";
    var inDllFolder := StartsWith(filePath, dllFolder);
    var inPlugins := LastComponent(Parent(filePath).value) == "plugins";
    if HasMarker(filePath) then
      var sub := filePath[|Marker|..];
      match SplitOnce(sub, '/')
      case Some((dir, path)) =>
        if dir == "config" then profileDir + "\\BepInEx\\config\\" + path
        else if dir == "plugins" then
          if inDllFolder || inPlugins then modFolder + "\\" + ReplaceAll(path, dllFolder, "")
          else if dllFolder == "*" then plugins + path
          else plugins + ReplaceAll(path, dllFolder, "")
        else if dir == "patchers" then modFolder + "\\" + path
        else plugins + sub
      case None => plugins + sub
    else if StartsWith(filePath, "config/") then
      profileDir + "\\BepInEx\\config\\" + ReplaceAll(filePath, "config/", "")
    else if StartsWith(filePath, "plugins/") then
      if inDllFolder || inPlugins then modFolder + "\\" + ReplaceAll(filePath, dllFolder, "")
      else if dllFolder == "*" then plugins + filePath[|"plugins/"|..]
      else plugins + ReplaceAll(filePath, dllFolder, "")
    else if StartsWith(filePath, "patchers/") then
      profileDir + "\\BepInEx\\patchers\\" + modName + "\\" + ReplaceAll(filePath, "patchers/", "")
    else if '/' in filePath then plugins + filePath
    else modFolder + "\\" + fileName
  }

  /** The second loop's treatment of one entry: unsafe names are skipped;
      BepInExPack's own `BepInExPack/` tree is unpacked straight into the
      profile without its 12-character prefix; other directories are
      skipped; files are written at their outpath. */
  function Route(modName: string, profileDir: string, dllFolder: string, e: Entry): Action
    requires dllFolder != "" && e.name != ""
  {
    var filePath := FixPath(e.name);
    if e.fileName.None? then Skip
    else if modName == Thunderstore.BepInExPack && StartsWith(filePath, "BepInExPack/")
      && filePath != "BepInExPack/" then
      Unpack(profileDir + "\\" + filePath[|"BepInExPack/"|..])
    else if e.isDir then Skip
    else Write(OutPath(modName, profileDir, dllFolder, filePath, e.fileName.value))
  }

  /** Every entry routed, in order. */
  function Routes(modName: string, profileDir: string, dllFolder: string, entries: seq<Entry>): (r: seq<Action>)
    requires dllFolder != "" && forall k :: 0 <= k < |entries| ==> entries[k].name != ""
    ensures |r| == |entries|
  {
    if entries == [] then []
    else
      var last := Route(modName, profileDir, dllFolder, entries[|entries| - 1]);
      Routes(modName, profileDir, dllFolder, entries[..|entries| - 1]) + [last]
  }

  lemma {:induction false} RoutesAt(modName: string, profileDir: string, dllFolder: string,
                                    entries: seq<Entry>, k: nat)
    requires dllFolder != "" && forall k :: 0 <= k < |entries| ==> entries[k].name != ""
    requires k < |entries|
    ensures Routes(modName, profileDir, dllFolder, entries)[k] == Route(modName, profileDir, dllFolder, entries[k])
    decreases |entries|
  {
    if k < |entries| - 1 {
      RoutesAt(modName, profileDir, dllFolder, entries[..|entries| - 1], k);
    }
  }

  /** `external_files`: the outpaths written outside the mod's folder, with
      `\` turned into `/`, in extraction order. */
  function Externals(modFolder: string, actions: seq<Action>): seq<string> {
    if actions == [] then []
    else
      var a := actions[|actions| - 1];
      Externals(modFolder, actions[..|actions| - 1])
        + if a.Write? && !StartsWith(a.outpath, modFolder) then [ReplaceChar(a.outpath, '\\', '/')] else []
  }

  /** A file is recorded exactly when some write went outside the mod's
      folder to it. */
  lemma {:induction false} ExternalsExact(modFolder: string, actions: seq<Action>, x: string)
    ensures x in Externals(modFolder, actions) <==>
      exists k :: 0 <= k < |actions| && actions[k].Write? && !StartsWith(actions[k].outpath, modFolder)
        && x == ReplaceChar(actions[k].outpath, '\\', '/')
  {
    if actions != [] {
      var init := actions[..|actions| - 1];
      ExternalsExact(modFolder, init, x);
      assert forall k :: 0 <= k < |init| ==> init[k] == actions[k];
    }
  }

  /** `extract_mod` without the file I/O: the DLL folder from a first pass,
      then every entry routed in order, collecting the external files. */
  method ExtractMod(modName: string, profileDir: string, entries: seq<Entry>)
    returns (actions: seq<Action>, externalFiles: seq<string>)
    requires forall k :: 0 <= k < |entries| ==> entries[k].name != ""
    ensures actions == Routes(modName, profileDir, DllFolderOf(Names(entries)), entries)
    ensures externalFiles == Externals(ModFolder(profileDir, modName), actions)
  {
    var modFolder := ModFolder(profileDir, modName);
    var dllFolder := FindDllFolder(Names(entries));
    actions, externalFiles := [], [];
    for i := 0 to |entries|
      invariant actions == Routes(modName, profileDir, dllFolder, entries[..i])
      invariant externalFiles == Externals(modFolder, actions)
    {
      var action := Route(modName, profileDir, dllFolder, entries[i]);
      assert entries[..i + 1][..i] == entries[..i];
      if action.Write? && !StartsWith(action.outpath, modFolder) {
        externalFiles := externalFiles + [ReplaceChar(action.outpath, '\\', '/')];
      }
      actions := actions + [action];
      assert actions[..i] == Routes(modName, profileDir, dllFolder, entries[..i]);
    }
    assert entries[..|entries|] == entries;
  }

  // ---------------------------------------------------------------------
  // Where files end up

  lemma ReplaceLeading(p: string, rest: string)
    requires |p| > 0 && !Contains(rest, p)
    ensures ReplaceAll(p + rest, p, "") == rest
  {
    assert (p + rest)[..|p|] == p && (p + rest)[|p|..] == rest;
    ReplaceAllAbsent(rest, p, "");
  }

  lemma NoMarkerWithoutSlash(s: string)
    requires '/' !in s
    ensures !HasMarker(s)
  {
    forall i | 0 <= i < |s| ensures !MarkerAt(s, i) {
      if i + |Marker| <= |s| {
        assert s[i + 7] in s;
        assert LowerChar(s[i + 7]) != Marker[7];
      }
    }
  }

  /** `config/<rest>` goes to `<profile>\BepInEx\config\<rest>`. */
  lemma RouteConfig(modName: string, profileDir: string, dllFolder: string,
                    rest: string, fileName: string)
    requires dllFolder != "" && !HasMarker("config/" + rest) && !Contains(rest, "config/")
    ensures OutPath(modName, profileDir, dllFolder, "config/" + rest, fileName)
      == profileDir + "\\BepInEx\\config\\" + rest
  {
    ReplaceLeading("config/", rest);
  }

  /** `patchers/<rest>` goes to `<profile>\BepInEx\patchers\<mod>\<rest>`. */
  lemma RoutePatchers(modName: string, profileDir: string, dllFolder: string,
                      rest: string, fileName: string)
    requires dllFolder != "" && !HasMarker("patchers/" + rest) && !Contains(rest, "patchers/")
    ensures OutPath(modName, profileDir, dllFolder, "patchers/" + rest, fileName)
      == profileDir + "\\BepInEx\\patchers\\" + modName + "\\" + rest
  {
    assert !StartsWith("patchers/" + rest, "config/") by {
      assert ("patchers/" + rest)[0] == 'p';
    }
    assert !StartsWith("patchers/" + rest, "plugins/") by {
      assert ("patchers/" + rest)[1] == 'a';
    }
    ReplaceLeading("patchers/", rest);
  }

  /** `BepInEx/config/<rest>` (in any case of the first part) goes to the
      same place as `config/<rest>`. */
  lemma RouteMarkedConfig(modName: string, profileDir: string, dllFolder: string,
                          rest: string, fileName: string)
    requires dllFolder != ""
    ensures OutPath(modName, profileDir, dllFolder, Canonical + "config/" + rest, fileName)
      == profileDir + "\\BepInEx\\config\\" + rest
  {
    var s := Canonical + "config/" + rest;
    assert MarkerAt(s, 0);
    assert s[|Marker|..] == "config/" + rest;
    assert "config/" + rest == "config" + ['/'] + rest;
    SplitOnceAt("config", rest, '/');
  }

  /** A name without any `/` lands directly in the mod's folder. */
  lemma RouteLoose(modName: string, profileDir: string, dllFolder: string,
                   filePath: string, fileName: string)
    requires dllFolder != "" && filePath != "" && '/' !in filePath
    ensures OutPath(modName, profileDir, dllFolder, filePath, fileName)
      == ModFolder(profileDir, modName) + "\\" + fileName
  {
    NoMarkerWithoutSlash(filePath);
    assert !StartsWith(filePath, "config/") by { assert "config/"[6] == '/'; }
    assert !StartsWith(filePath, "plugins/") by { assert "plugins/"[7] == '/'; }
    assert !StartsWith(filePath, "patchers/") by { assert "patchers/"[8] == '/'; }
  }

  /** A well-named file at the archive's root is written into the mod's own
      folder under the last component of its name: its whole stored name
      when that holds no `\`. */
  lemma RouteLooseEntry(modName: string, profileDir: string, dllFolder: string, e: Entry)
    requires dllFolder != "" && e.name != "" && '/' !in e.name
    requires !e.isDir && e.fileName.Some? && WellNamed(e)
    ensures Route(modName, profileDir, dllFolder, e)
      == Write(ModFolder(profileDir, modName) + "\\" + LastComponent(e.name))
    ensures '\\' !in e.name
      ==> Route(modName, profileDir, dllFolder, e) == Write(ModFolder(profileDir, modName) + "\\" + e.name)
  {
    NoMarkerWithoutSlash(e.name);
    FixPathNoMarker(e.name);
    assert !StartsWith(e.name, "BepInExPack/") by { assert "BepInExPack/"[11] == '/'; }
    RouteLoose(modName, profileDir, dllFolder, e.name, e.fileName.value);
  }
}
