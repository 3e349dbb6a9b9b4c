/** The install list of src-tauri/src/installs.rs: the stored selection,
    the settings fields the commands overwrite, and the list logic of the
    folder picker and of the Steam scan. The picked folder, the home
    directory, the disks' mount points and which paths exist are inputs. */
module Installs {
  import opened Strings

  datatype Source = Steam | Local

  datatype Install = Install(path: string, icon: string, source: Source)

  datatype ScanResult = ScanResult(selectedInstallPath: Option<string>, installs: seq<Install>)

  const Logo := "/logo.png"

  /** `Option::unwrap_or_default` on the stored list. */
  function OrEmpty(installs: Option<seq<Install>>): seq<Install> {
    match installs
    case None => []
    case Some(list) => list
  }

  /** `installs.iter().any(|i| i.path == path)`. */
  predicate HasPath(installs: seq<Install>, path: string) {
    exists k :: 0 <= k < |installs| && installs[k].path == path
  }

  /** No two installs share a path. */
  predicate PathsDistinct(installs: seq<Install>) {
    forall j, k :: 0 <= j < k < |installs| ==> installs[j].path != installs[k].path
  }

  /** `installs.iter().find(|i| i.path == path)`: the first install with
      that path. */
  function FindPath(installs: seq<Install>, path: string): (r: Option<Install>)
    ensures r.Some? <==> HasPath(installs, path)
    ensures r.Some? ==> r.value.path == path && r.value in installs
    ensures r.Some? ==> exists k :: (0 <= k < |installs| && installs[k] == r.value
      && forall j :: 0 <= j < k ==> installs[j].path != path)
  {
    if installs == [] then None
    else if installs[0].path == path then
      assert installs[0] == installs[0];
      Some(installs[0])
    else
      var r := FindPath(installs[1..], path);
      assert HasPath(installs[1..], path) ==> HasPath(installs, path) by {
        if k :| 0 <= k < |installs[1..]| && installs[1..][k].path == path {
          assert installs[k + 1].path == path;
        }
      }
      assert HasPath(installs, path) ==> HasPath(installs[1..], path) by {
        if k :| 0 <= k < |installs| && installs[k].path == path {
          assert installs[1..][k - 1].path == path;
        }
      }
      if r.Some? then
        var k :| 0 <= k < |installs[1..]| && installs[1..][k] == r.value
          && forall j :: 0 <= j < k ==> installs[1..][j].path != path;
        assert installs[k + 1] == r.value;
        assert forall j :: 0 <= j < k + 1 ==> installs[j].path != path by {
          forall j | 0 <= j < k + 1 ensures installs[j].path != path {
            if j > 0 {
              assert installs[j] == installs[1..][j - 1];
            }
          }
        }
        r
      else r
  }

  /** The game's folder inside a Steam library. */
  const GameFolder := "\\steamapps\\common\\Lethal Company"

  /** The Steam library folder on a disk: the mount point with its quotes
      and backslashes removed, then the library's relative path. What is
      left of the mount point holds no quote and no backslash, and every
      character of it comes from the mount point. */
  function DiskLibraryPath(mountPoint: string): (r: string)
    ensures EndsWith(r, "\\SteamLibrary" + GameFolder)
    ensures forall i :: 0 <= i < |r| - |"\\SteamLibrary" + GameFolder| ==> r[i] != '"' && r[i] != '\\' && r[i] in mountPoint
  {
    var unquoted := ReplaceAll(mountPoint, "\"", "");
    ReplaceAllDrops(mountPoint, '"');
    ReplaceAllDrops(unquoted, '\\');
    var drive := ReplaceAll(unquoted, "\\", "");
    assert forall i :: 0 <= i < |drive| ==> drive[i] in drive;
    drive + "\\SteamLibrary" + GameFolder
  }

  /** The Steam folder under the user's home directory. */
  function HomeSteamPath(homeDir: string): (r: string)
    ensures StartsWith(r, homeDir + "\\") && EndsWith(r, GameFolder)
  {
    homeDir + "\\AppData\\Local" + GameFolder
  }

  /** Every install the scan finds is a Steam install with the logo. */
  function SteamInstall(path: string): Install {
    Install(path, Logo, Steam)
  }

  /** The disk loop of `scan`: each disk whose library folder exists and is
      not listed yet is appended, in the disks' order. */
  function AddDisks(installs: seq<Install>, mountPoints: seq<string>, existing: set<string>): (r: seq<Install>)
    ensures |r| >= |installs|
  {
    if mountPoints == [] then installs
    else
      var before := AddDisks(installs, mountPoints[..|mountPoints| - 1], existing);
      var path := DiskLibraryPath(mountPoints[|mountPoints| - 1]);
      if path in existing && !HasPath(before, path) then before + [SteamInstall(path)] else before
  }

  /** The disk loop only appends, only existing library folders, and never
      a path already listed: a list without repeated paths keeps none. */
  lemma {:induction false} AddDisksAppendsNew(installs: seq<Install>, mountPoints: seq<string>,
                                              existing: set<string>)
    ensures var r := AddDisks(installs, mountPoints, existing);
      && |r| >= |installs| && r[..|installs|] == installs
      && (forall k :: |installs| <= k < |r| ==> r[k].path in existing && r[k] == SteamInstall(r[k].path))
      && (PathsDistinct(installs) ==> PathsDistinct(r))
  {
    if mountPoints != [] {
      var before := AddDisks(installs, mountPoints[..|mountPoints| - 1], existing);
      AddDisksAppendsNew(installs, mountPoints[..|mountPoints| - 1], existing);
      var path := DiskLibraryPath(mountPoints[|mountPoints| - 1]);
      if path in existing && !HasPath(before, path) {
        var r := before + [SteamInstall(path)];
        assert r[..|installs|] == before[..|installs|];
        if PathsDistinct(installs) {
          forall j, k | 0 <= j < k < |r| ensures r[j].path != r[k].path {
            if k == |before| {
              assert r[j] == before[j];
            }
          }
        }
      }
    }
  }

  /** The new list `scan` builds: the stored one, the home Steam folder if
      it exists (with no check for a repeat), then the disks' libraries. */
  function ScanInstalls(stored: seq<Install>, homeDir: string, mountPoints: seq<string>,
                        existing: set<string>): (r: seq<Install>)
    ensures HomeSteamPath(homeDir) in existing ==> |r| > |stored|
  {
    var home := HomeSteamPath(homeDir);
    var withHome := if home in existing then stored + [SteamInstall(home)] else stored;
    AddDisks(withHome, mountPoints, existing)
  }

  /** The selection loop of `scan`: the stored selection, read as `""`
      when unset, when some install has that path. */
  function SelectedPath(selected: string, installs: seq<Install>): (r: Option<string>)
    ensures r == Some(selected) <==> HasPath(installs, selected)
    ensures r.None? <==> !HasPath(installs, selected)
  {
    if HasPath(installs, selected) then Some(selected) else None
  }

  /** The home Steam folder is appended on every scan where it exists, so
      a second scan lists it twice. */
  lemma RepeatedScanRepeatsHome(stored: seq<Install>, homeDir: string, mountPoints: seq<string>,
                                existing: set<string>)
    requires HomeSteamPath(homeDir) in existing
    ensures var once := ScanInstalls(stored, homeDir, mountPoints, existing);
      var twice := ScanInstalls(once, homeDir, mountPoints, existing);
      && |stored| < |once| < |twice|
      && twice[|stored|].path == HomeSteamPath(homeDir)
      && twice[|once|].path == HomeSteamPath(homeDir)
  {
    var home := HomeSteamPath(homeDir);
    var once := ScanInstalls(stored, homeDir, mountPoints, existing);
    AddDisksAppendsNew(stored + [SteamInstall(home)], mountPoints, existing);
    assert once[..|stored| + 1] == stored + [SteamInstall(home)];
    assert once[|stored|] == once[..|stored| + 1][|stored|];
    AddDisksAppendsNew(once + [SteamInstall(home)], mountPoints, existing);
    var twice := ScanInstalls(once, homeDir, mountPoints, existing);
    assert twice[..|once| + 1] == once + [SteamInstall(home)];
    assert twice[|stored|] == twice[..|once| + 1][|stored|];
    assert twice[|once|] == twice[..|once| + 1][|once|];
  }

  /** The picker's append keeps the paths distinct: it only ever adds a
      path that is not listed. */
  lemma ManualAppendKeepsDistinct(installs: seq<Install>, path: string)
    requires PathsDistinct(installs) && !HasPath(installs, path)
    ensures PathsDistinct(installs + [Install(path, Logo, Local)])
    ensures HasPath(installs + [Install(path, Logo, Local)], path)
  {
    var r := installs + [Install(path, Logo, Local)];
    forall j, k | 0 <= j < k < |r| ensures r[j].path != r[k].path {
      if k == |installs| {
        assert r[j] == installs[j];
      }
    }
    assert r[|installs|].path == path;
  }

  /** The disk loop of `scan`. */
  method AddDiskInstalls(installs: seq<Install>, mountPoints: seq<string>, existing: set<string>)
    returns (list: seq<Install>)
    ensures list == AddDisks(installs, mountPoints, existing)
  {
    list := installs;
    for d := 0 to |mountPoints|
      invariant list == AddDisks(installs, mountPoints[..d], existing)
    {
      assert mountPoints[..d + 1][..d] == mountPoints[..d];
      var path := DiskLibraryPath(mountPoints[d]);
      if path in existing && !HasPath(list, path) {
        list := list + [SteamInstall(path)];
      }
    }
    assert mountPoints[..|mountPoints|] == mountPoints;
  }

  /** The selection loop of `scan`. */
  method FindSelection(selected: string, installs: seq<Install>) returns (selectedPath: Option<string>)
    ensures selectedPath == SelectedPath(selected, installs)
  {
    selectedPath := None;
    for k := 0 to |installs|
      invariant selectedPath == if HasPath(installs[..k], selected) then Some(selected) else None
    {
      if installs[k].path == selected {
        selectedPath := Some(selected);
      }
      assert HasPath(installs[..k + 1], selected) <==> HasPath(installs[..k], selected) || installs[k].path == selected by {
        assert forall j :: 0 <= j < k ==> installs[..k + 1][j] == installs[..k][j];
        assert installs[..k + 1][k] == installs[k];
      }
    }
    assert installs[..|installs|] == installs;
  }

  /** The settings fields the commands read and overwrite. */
  class Settings {
    var selectedInstall: Option<string>
    var installs: Option<seq<Install>>

    /** `get_selected_install`: the first install whose path is the stored
        selection, or nothing when there is no selection or no such
        install. */
    function SelectedInstall(): (r: Option<Install>)
      reads this
      ensures r.Some? <==> selectedInstall.Some? && HasPath(OrEmpty(installs), selectedInstall.value)
      ensures r.Some? ==> r.value in OrEmpty(installs) && r.value.path == selectedInstall.value
    {
      match selectedInstall
      case None => None
      case Some(path) => FindPath(OrEmpty(installs), path)
    }

    /** `select_install`: the selection becomes exactly the argument. */
    method SelectInstall(path: Option<string>)
      modifies this
      ensures selectedInstall == path && installs == old(installs)
    {
      selectedInstall := path;
    }

    /** `add_manual_install` once the picker has returned `picked`: a new
        path is appended as a local install, and a cancelled picker or a
        path already listed leaves the settings as they were. */
    method AddManualInstall(picked: Option<string>)
      modifies this
      ensures selectedInstall == old(selectedInstall)
      ensures picked.None? || HasPath(OrEmpty(old(installs)), picked.value) ==> installs == old(installs)
      ensures picked.Some? && !HasPath(OrEmpty(old(installs)), picked.value) ==>
        installs == Some(OrEmpty(old(installs)) + [Install(picked.value, Logo, Local)])
    {
      var list := OrEmpty(installs);
      if picked.Some? {
        var path := picked.value;
        if HasPath(list, path) {
          return;
        }
        list := list + [Install(path, Logo, Local)];
        installs := Some(list);
      }
    }

    /** `scan`, with the home directory, the disks' mount points and the
        paths that exist as inputs. */
    method Scan(homeDir: string, mountPoints: seq<string>, existing: set<string>)
      returns (result: ScanResult)
      modifies this
      ensures var list := ScanInstalls(OrEmpty(old(installs)), homeDir, mountPoints, existing);
        var selected := match old(selectedInstall) case None => "" case Some(p) => p;
        && installs == Some(list)
        && result == ScanResult(SelectedPath(selected, list), list)
      ensures selectedInstall == old(selectedInstall)
    {
      var selected := match selectedInstall case None => "" case Some(p) => p;
      var list := OrEmpty(installs);

      var home := HomeSteamPath(homeDir);
      if home in existing {
        list := list + [SteamInstall(home)];
      }
      list := AddDiskInstalls(list, mountPoints, existing);
      var selectedPath := FindSelection(selected, list);
      installs := Some(list);
      result := ScanResult(selectedPath, list);
    }
  }
}
