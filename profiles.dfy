/** The checks and the icon naming of `create_profile` in
    src-tauri/src/profiles.rs. Whether the profile folder already exists
    is an input; creating it and writing the icon and `profile.json` are
    left to the caller. */
module Profiles {
  import opened Strings

  /** The record `profile.json` holds. */
  datatype Profile = Profile(name: string, icon: Option<string>, folder: string)

  /** How the command ends: the new profile, an error message for the
      front end, or a panic. */
  datatype Created = Created(profile: Profile) | Refused(message: string) | Panicked

  const InvalidName := "Invalid profile name."
  const AlreadyExists := "A profile with that name already exists"
  const DataPrefix := "data:image/"

  /** One character of the class `[a-zA-Z0-9_-]`. */
  predicate NameChar(c: char) {
    ('a' <= c <= 'z') || ('A' <= c <= 'Z') || ('0' <= c <= '9') || c == '_' || c == '-'
  }

  /** `^[a-zA-Z0-9_-]+$` matches the whole name. */
  predicate ValidProfileName(name: string) {
    |name| > 0 && forall i :: 0 <= i < |name| ==> NameChar(name[i])
  }

  /** `<app dir>\profiles\<name>`. */
  function ProfileDir(appDir: string, name: string): (r: string)
    ensures StartsWith(r, appDir + "\\profiles\\") && EndsWith(r, "\\" + name)
  {
    appDir + "\\profiles\\" + name
  }

  /** The file extension of the icon: for a `data:image/` URL the text
      between that prefix and the first `;` (no `;` at all is a panic,
      `None` here); for anything else the text after the last `.`, or the
      whole string when it has no `.`. */
  function IconExtension(icon: string): (r: Option<string>)
    ensures StartsWith(icon, DataPrefix) ==>
      && (r.None? <==> ';' !in icon)
      && (r.Some? ==> ';' !in r.value && StartsWith(icon, DataPrefix + r.value + ";"))
    ensures !StartsWith(icon, DataPrefix) ==>
      && r.Some? && '.' !in r.value && EndsWith(icon, r.value)
      && (|r.value| < |icon| ==> icon[|icon| - |r.value| - 1] == '.')
  {
    if StartsWith(icon, DataPrefix) then
      match SplitOnce(icon, ';')
      case None => None
      case Some((head, _)) =>
        DataUrlHead(icon, head);
        Some(head[|DataPrefix|..])
    else
      var pieces := Split(icon, '.');
      SplitLast(icon, '.');
      Some(pieces[|pieces| - 1])
  }

  /** The prefix holds no `;`, so the first one comes after it: what lies
      between them is the extension. */
  lemma DataUrlHead(icon: string, head: string)
    requires StartsWith(icon, DataPrefix)
    requires SplitOnce(icon, ';').Some? && SplitOnce(icon, ';').value.0 == head
    ensures |head| >= |DataPrefix|
    ensures ';' !in head[|DataPrefix|..]
    ensures StartsWith(icon, DataPrefix + head[|DataPrefix|..] + ";")
  {
    assert |head| >= |DataPrefix| by {
      assert forall k :: 0 <= k < |DataPrefix| ==> icon[k] != ';';
      assert icon[|head|] == ';';
    }
    var ext := head[|DataPrefix|..];
    assert head == DataPrefix + ext;
    assert icon[..|DataPrefix + ext + ";"|] == DataPrefix + ext + ";";
  }

  /** The extension written into a data URL is the one read back. */
  lemma DataUrlExtension(ext: string, payload: string)
    requires ';' !in ext
    ensures IconExtension(DataPrefix + ext + ";" + payload) == Some(ext)
  {
    var icon := DataPrefix + ext + ";" + payload;
    assert icon[..|DataPrefix|] == DataPrefix;
    assert ';' !in DataPrefix + ext;
    assert icon == (DataPrefix + ext) + [';'] + payload;
    SplitOnceAt(DataPrefix + ext, payload, ';');
  }

  /** The extension of a web address is what follows its last dot. */
  lemma UrlExtension(base: string, ext: string)
    requires !StartsWith(base + "." + ext, DataPrefix)
    requires '.' !in ext
    ensures IconExtension(base + "." + ext) == Some(ext)
  {
    SplitLastPiece(base, ext, '.');
  }

  /** `create_profile(name, icon)`; `existing` holds the paths that exist. */
  function CreateProfile(appDir: string, name: string, icon: Option<string>,
                         existing: set<string>): (r: Created)
  {
    if !ValidProfileName(name) then Refused(InvalidName)
    else
      var dir := ProfileDir(appDir, name);
      if dir in existing then Refused(AlreadyExists)
      else match icon
        case None => Created(Profile(name, None, dir))
        case Some(url) =>
          match IconExtension(url)
          case None => Panicked
          case Some(ext) => Created(Profile(name, Some(dir + "\\icon." + ext), dir))
  }

  /** Every outcome of `create_profile`, with the condition that leads to
      it. */
  lemma CreateProfileOutcomes(appDir: string, name: string, icon: Option<string>, existing: set<string>)
    ensures CreateProfile(appDir, name, icon, existing) == Refused(InvalidName)
      <==> !ValidProfileName(name)
    ensures CreateProfile(appDir, name, icon, existing) == Refused(AlreadyExists)
      <==> ValidProfileName(name) && ProfileDir(appDir, name) in existing
    ensures CreateProfile(appDir, name, icon, existing) == Panicked
      <==> && ValidProfileName(name) && ProfileDir(appDir, name) !in existing
           && icon.Some? && StartsWith(icon.value, DataPrefix) && ';' !in icon.value
    ensures CreateProfile(appDir, name, icon, existing).Created?
      ==> var p := CreateProfile(appDir, name, icon, existing).profile;
        && p.name == name && p.folder == ProfileDir(appDir, name)
        && (p.icon.Some? <==> icon.Some?)
        && (p.icon.Some? ==> p.icon.value == p.folder + "\\icon." + IconExtension(icon.value).value)
  {
    assert InvalidName != AlreadyExists;
  }

  /** A valid name has no separator and no dot, so the profile folder is a
      direct child of the profiles folder. */
  lemma ValidNameIsOneComponent(name: string)
    requires ValidProfileName(name)
    ensures '\\' !in name && '/' !in name && '.' !in name
    ensures name != "." && name != ".."
  {
    assert !NameChar('\\') && !NameChar('/') && !NameChar('.');
  }
}
