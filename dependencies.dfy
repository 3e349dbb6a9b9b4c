/** src-tauri/src/profiles.rs, `get_absolute_version` and
    `get_dependencies`: which releases `download_mod` fetches for a
    requested version, given what the profile already has installed.
    The `unwrap`s of the source become an explicit `Panicked` outcome. */
module Dependencies {
  import opened Strings
  import opened Thunderstore

  const U32Modulus: nat := 0x1_0000_0000

  predicate IsDigit(c: char) { '0' <= c <= '9' }

  /** The value of a run of ASCII digits, or None when some character is
      not a digit. */
  function Digits(s: string): (r: Option<nat>)
    decreases |s|
  {
    if s == [] then Some(0)
    else match Digits(s[..|s| - 1])
      case None => None
      case Some(v) => if IsDigit(s[|s| - 1]) then Some(v * 10 + (s[|s| - 1] as int - '0' as int)) else None
  }

  /** `str::parse::<u32>`: an optional `+`, then one or more ASCII digits,
      with a value that fits in 32 bits. */
  function ParseU32(s: string): (r: Option<nat>)
    ensures r.Some? ==> r.value < U32Modulus
    ensures r.Some? ==> |s| > 0
  {
    var digits := if |s| > 0 && s[0] == '+' then s[1..] else s;
    if |digits| == 0 then None
    else match Digits(digits)
      case None => None
      case Some(v) => if v < U32Modulus then Some(v) else None
  }

  /** Decimal rendering of a number, most significant digit first. */
  function ShowNat(n: nat): (r: string)
    ensures |r| > 0 && r[0] != '+'
    decreases n
  {
    var d := [(n % 10 + '0' as int) as char];
    if n < 10 then d else ShowNat(n / 10) + d
  }

  lemma {:induction false} DigitsShow(n: nat)
    ensures Digits(ShowNat(n)) == Some(n)
    decreases n
  {
    var s := ShowNat(n);
    if n >= 10 {
      DigitsShow(n / 10);
      assert s[..|s| - 1] == ShowNat(n / 10);
    }
  }

  /** The parser reads back every 32-bit number written in decimal. */
  lemma ParseU32Show(n: nat)
    requires n < U32Modulus
    ensures ParseU32(ShowNat(n)) == Some(n)
  {
    DigitsShow(n);
  }

  /** The first two `.`-separated components of a version number, parsed
      as `get_absolute_version` parses them (`split('.')`, then `[0]` and
      `[1]`), or None where the source panics: fewer than two components,
      or one of the two not a 32-bit number. */
  function VersionParts(number: string): (r: Option<(nat, nat)>)
    ensures r.Some? ==> r.value.0 < U32Modulus && r.value.1 < U32Modulus
  {
    match (Component(number, 0), Component(number, 1))
    case (Some(a), Some(b)) =>
      (match (ParseU32(a), ParseU32(b))
       case (Some(major), Some(minor)) => Some((major, minor))
       case _ => None)
    case _ => None
  }

  /** `split('.').nth(k)`: the `k`-th `.`-separated component. */
  function Component(s: string, k: nat): (r: Option<string>)
    decreases k
  {
    match IndexOf(s, '.')
    case None => if k == 0 then Some(s) else None
    case Some(i) => if k == 0 then Some(s[..i]) else Component(s[i + 1..], k - 1)
  }

  /** `get_absolute_version`: `major*100 + minor*10 + major` in wrapping
      32-bit arithmetic, or None where the source panics. The source reads
      the FIRST component twice and never looks at the third. */
  function AbsoluteVersion(number: string): (r: Option<nat>)
    ensures r.Some? <==> VersionParts(number).Some?
    ensures r.Some? ==> r.value < U32Modulus
  {
    match VersionParts(number)
    case None => None
    case Some((major, minor)) => Some(Weigh(major, minor))
  }

  /** The number `get_absolute_version` makes of the first two components,
      wrapped to 32 bits as a release build's `u32` arithmetic does. */
  function Weigh(major: nat, minor: nat): (r: nat)
    ensures r < U32Modulus
    ensures major * 101 + minor * 10 < U32Modulus ==> r == major * 101 + minor * 10
  {
    Wrap32(major * 100 + minor * 10 + major)
  }

  /** Reduction modulo 2^32, by repeated subtraction. */
  function Wrap32(n: nat): (r: nat)
    ensures r < U32Modulus
    ensures n < U32Modulus ==> r == n
    decreases n
  {
    if n < U32Modulus then n else Wrap32(n - U32Modulus)
  }

  /** The wrap is the remainder of division by 2^32. */
  lemma {:induction false} Wrap32IsMod(n: nat)
    ensures Wrap32(n) == n % U32Modulus
    decreases n
  {
    if n >= U32Modulus {
      Wrap32IsMod(n - U32Modulus);
    }
  }

  lemma VersionOfParts(major: string, minor: string, patch: string)
    requires '.' !in major && '.' !in minor
    ensures ParseU32(major).Some? && ParseU32(minor).Some? ==>
      VersionParts(major + "." + minor + "." + patch) == Some((ParseU32(major).value, ParseU32(minor).value))
  {
    var s := major + "." + minor + "." + patch;
    assert s == major + ['.'] + (minor + "." + patch);
    IndexOfAt(major, minor + "." + patch, '.');
    assert s[..|major|] == major && s[|major| + 1..] == minor + ['.'] + patch;
    IndexOfAt(minor, patch, '.');
    assert (minor + ['.'] + patch)[..|minor|] == minor;
  }

  /** Versions that differ only after the second component compare equal,
      so a patch release never counts as newer; and the value is
      computed from the first two alone. */
  lemma AbsoluteVersionIgnoresPatch(major: string, minor: string, p1: string, p2: string)
    requires '.' !in major && '.' !in minor
    requires ParseU32(major).Some? && ParseU32(minor).Some?
    ensures AbsoluteVersion(major + "." + minor + "." + p1) == AbsoluteVersion(major + "." + minor + "." + p2)
    ensures var (a, b) := (ParseU32(major).value, ParseU32(minor).value);
      AbsoluteVersion(major + "." + minor + "." + p1) == Some(Weigh(a, b))
  {
    var a, b := ParseU32(major).value, ParseU32(minor).value;
    VersionOfParts(major, minor, p1);
    VersionOfParts(major, minor, p2);
    var s1, s2 := major + "." + minor + "." + p1, major + "." + minor + "." + p2;
    assert VersionParts(s1) == Some((a, b)) == VersionParts(s2);
  }

  /** A version number with no `.` makes `get_absolute_version` panic. */
  lemma AbsoluteVersionNeedsTwoParts(number: string)
    requires '.' !in number
    ensures AbsoluteVersion(number).None?
  {
  }

  // ---------------------------------------------------------------------
  // Looking entries up

  /** How the list is searched for an entry of the mod being resolved.
      `BySubstring` is the source's test: the release's full name CONTAINS
      the mod's full name, so "a-bc-1.0.0" counts as an entry of "a-b".
      `ByModName` compares the mod part of the release's full name with the
      mod's full name, which is what the check is evidently meant to do. */
  datatype Lookup = BySubstring | ByModName

  /** `v` counts as an entry of the mod `name` under the lookup `how`. */
  predicate IsEntryFor(v: Version, name: string, how: Lookup) {
    match how
    case BySubstring => Contains(v.fullName, name)
    case ByModName => ParseModVersion(v.fullName).0 == name
  }

  /** `deps.iter().position(|m| m.full_name.contains(&full_name))` under
      `BySubstring`: the first entry of the mod, or None when there is none. */
  function FindEntry(deps: seq<Version>, name: string, how: Lookup): (r: Option<nat>)
    ensures r.Some? ==> r.value < |deps| && IsEntryFor(deps[r.value], name, how)
    ensures r.Some? ==> forall j :: 0 <= j < r.value ==> !IsEntryFor(deps[j], name, how)
    ensures r.None? ==> forall j :: 0 <= j < |deps| ==> !IsEntryFor(deps[j], name, how)
  {
    if deps == [] then None
    else if IsEntryFor(deps[0], name, how) then Some(0)
    else
      var r := FindEntry(deps[1..], name, how);
      assert forall j :: 1 <= j < |deps| ==> deps[j] == deps[1..][j - 1];
      match r
      case None => None
      case Some(i) => Some(i + 1)
  }

  /** `profile_mods.iter().position(|m| m.full_name == full_name)`. */
  function FindInstalled(installed: seq<ModInfo>, name: string): (r: Option<nat>)
    ensures r.Some? ==> r.value < |installed| && installed[r.value].fullName == name
    ensures r.Some? ==> forall j :: 0 <= j < r.value ==> installed[j].fullName != name
    ensures r.None? ==> forall j :: 0 <= j < |installed| ==> installed[j].fullName != name
  {
    if installed == [] then None
    else if installed[0].fullName == name then Some(0)
    else match FindInstalled(installed[1..], name)
      case None => None
      case Some(i) => Some(i + 1)
  }

  /** `a` stands where `b` stood: the same release, or one whose version
      parses and is at least as high. */
  predicate NoOlder(a: Version, b: Version) {
    || a == b
    || (var va, vb := AbsoluteVersion(a.versionNumber), AbsoluteVersion(b.versionNumber);
        va.Some? && vb.Some? && va.value >= vb.value)
  }

  /** `after` keeps what `before` held, judged by `le`: it is at least as
      long and, aligned from the end (entries are only ever inserted at the
      front), each old entry is matched by one `le`-above it. */
  predicate DominatesBy<T>(after: seq<T>, before: seq<T>, le: (T, T) -> bool) {
    && |after| >= |before|
    && forall j :: 0 <= j < |before| ==> le(after[|after| - |before| + j], before[j])
  }

  lemma DominatesByTransitive<T>(a: seq<T>, b: seq<T>, c: seq<T>, le: (T, T) -> bool)
    requires forall x, y, z :: le(x, y) && le(y, z) ==> le(x, z)
    requires DominatesBy(a, b, le) && DominatesBy(b, c, le)
    ensures DominatesBy(a, c, le)
  {
    forall j | 0 <= j < |c|
      ensures le(a[|a| - |c| + j], c[j])
    {
      var k := |b| - |c| + j;
      assert le(a[|a| - |b| + k], b[k]);
    }
  }

  /** Each position of the old list, aligned from the end, holds the same
      release or one of no lower weight. Weight is all it compares: under
      the substring lookup the release may be another mod's. */
  predicate Dominates(after: seq<Version>, before: seq<Version>) {
    DominatesBy(after, before, NoOlder)
  }

  lemma DominatesTransitive(a: seq<Version>, b: seq<Version>, c: seq<Version>)
    requires Dominates(a, b) && Dominates(b, c)
    ensures Dominates(a, c)
  {
    forall x, y, z | NoOlder(x, y) && NoOlder(y, z) ensures NoOlder(x, z) {
      NoOlderTransitive(x, y, z);
    }
    DominatesByTransitive(a, b, c, NoOlder);
  }

  lemma NoOlderPreorder()
    ensures Preorder(NoOlder)
  {
    forall x, y, z | NoOlder(x, y) && NoOlder(y, z) ensures NoOlder(x, z) {
      NoOlderTransitive(x, y, z);
    }
  }

  lemma NoOlderTransitive(x: Version, y: Version, z: Version)
    requires NoOlder(x, y) && NoOlder(y, z)
    ensures NoOlder(x, z)
  {
  }

  // ---------------------------------------------------------------------
  // One call of get_dependencies, before it recurses

  /** What one call decides before recursing. */
  datatype Step = Stop | Panic | Place(deps: seq<Version>, chosen: Version)

  /** `get_absolute_version(a) > get_absolute_version(b)`, evaluated left
      operand first; `None` where either call panics. */
  function Newer(a: string, b: string): (r: Option<bool>)
    ensures r.Some? <==> AbsoluteVersion(a).Some? && AbsoluteVersion(b).Some?
    ensures r == Some(true) <==> r.Some? && AbsoluteVersion(a).value > AbsoluteVersion(b).value
  {
    match (AbsoluteVersion(a), AbsoluteVersion(b))
    case (Some(x), Some(y)) => Some(x > y)
    case _ => None
  }

  /** Give up when an entry already found is at least as new; panic where
      the source unwraps a failed parse; otherwise go on to the profile's
      copy, remembering the older entry found. */
  function ResolveStep(how: Lookup, pkg: Package, installed: seq<ModInfo>, name: string, number: string,
                       deps: seq<Version>): (r: Step)
  {
    match FindEntry(deps, name, how)
    case None => AgainstInstalled(pkg, installed, name, number, deps, None)
    case Some(i) =>
      match Newer(number, deps[i].versionNumber)
      case None => Panic
      case Some(newer) =>
        if newer then AgainstInstalled(pkg, installed, name, number, deps, Some(i)) else Stop
  }

  /** Give up when the profile's copy is at least as new; otherwise fetch. */
  function AgainstInstalled(pkg: Package, installed: seq<ModInfo>, name: string, number: string,
                            deps: seq<Version>, at: Option<nat>): (r: Step)
    requires at.Some? ==> at.value < |deps|
  {
    match FindInstalled(installed, name)
    case None => Fetch(pkg, name, number, deps, at)
    case Some(k) =>
      match Newer(number, installed[k].versionNumber)
      case None => Panic
      case Some(newer) => if newer then Fetch(pkg, name, number, deps, at) else Stop
  }

  /** `get_mod_version`: nothing for a mod not catalogued, a panic for a
      missing release; the release found replaces the older entry at `at`,
      or goes to the front when there is none. */
  function Fetch(pkg: Package, name: string, number: string, deps: seq<Version>,
                 at: Option<nat>): (r: Step)
    requires at.Some? ==> at.value < |deps|
  {
    if name !in pkg.mods then Stop
    else match FindVersion(pkg.mods[name].versions, number)
      case None => Panic
      case Some(v) => Place(if at.Some? then deps[at.value := v] else [v] + deps, v)
  }

  /** Where a release is placed: it is the catalogue's release carrying the
      requested version number and it is strictly newer than the profile's
      copy, if there is one; it either replaces the first entry the lookup
      finds, which must be strictly older, or goes to the front when there
      is none. */
  lemma ResolveStepPlaces(how: Lookup, pkg: Package, installed: seq<ModInfo>, name: string, number: string,
                          deps: seq<Version>, placed: seq<Version>, v: Version)
    requires ResolveStep(how, pkg, installed, name, number, deps) == Place(placed, v)
    ensures && name in pkg.mods && v in pkg.mods[name].versions && v.versionNumber == number
      && match FindEntry(deps, name, how)
         case Some(i) =>
           && AbsoluteVersion(number).Some? && AbsoluteVersion(deps[i].versionNumber).Some?
           && AbsoluteVersion(number).value > AbsoluteVersion(deps[i].versionNumber).value
           && placed == deps[i := v]
         case None => placed == [v] + deps
    ensures match FindInstalled(installed, name)
      case Some(k) =>
        && AbsoluteVersion(number).Some? && AbsoluteVersion(installed[k].versionNumber).Some?
        && AbsoluteVersion(number).value > AbsoluteVersion(installed[k].versionNumber).value
      case None => true
  {
    match FindEntry(deps, name, how)
    case None =>
      AgainstInstalledPlaces(pkg, installed, name, number, deps, None, placed, v);
    case Some(i) =>
      assert Newer(number, deps[i].versionNumber) == Some(true);
      AgainstInstalledPlaces(pkg, installed, name, number, deps, Some(i), placed, v);
  }

  lemma AgainstInstalledPlaces(pkg: Package, installed: seq<ModInfo>, name: string, number: string,
                               deps: seq<Version>, at: Option<nat>, placed: seq<Version>, v: Version)
    requires at.Some? ==> at.value < |deps|
    requires AgainstInstalled(pkg, installed, name, number, deps, at) == Place(placed, v)
    ensures name in pkg.mods && v in pkg.mods[name].versions && v.versionNumber == number
    ensures placed == if at.Some? then deps[at.value := v] else [v] + deps
    ensures match FindInstalled(installed, name)
      case Some(k) =>
        && AbsoluteVersion(number).Some? && AbsoluteVersion(installed[k].versionNumber).Some?
        && AbsoluteVersion(number).value > AbsoluteVersion(installed[k].versionNumber).value
      case None => true
  {
    match FindInstalled(installed, name)
    case None =>
    case Some(k) => assert Newer(number, installed[k].versionNumber) == Some(true);
  }

  /** Placing a release keeps each position of the list at the same
      release or one of no lower weight. */
  lemma StepDominates(how: Lookup, pkg: Package, installed: seq<ModInfo>, name: string, number: string,
                      deps: seq<Version>, placed: seq<Version>, v: Version)
    requires ResolveStep(how, pkg, installed, name, number, deps) == Place(placed, v)
    ensures Dominates(placed, deps)
  {
    ResolveStepPlaces(how, pkg, installed, name, number, deps, placed, v);
    PlaceDominates(deps, FindEntry(deps, name, how), placed, v);
  }

  lemma PlaceDominates(deps: seq<Version>, at: Option<nat>, placed: seq<Version>, v: Version)
    requires at.Some? ==> at.value < |deps| && placed == deps[at.value := v] && NoOlder(v, deps[at.value])
    requires at.None? ==> placed == [v] + deps
    ensures Dominates(placed, deps)
  {
    forall j | 0 <= j < |deps|
      ensures NoOlder(placed[|placed| - |deps| + j], deps[j])
    {
      if at.None? || j != at.value {
        assert placed[|placed| - |deps| + j] == deps[j];
      }
    }
  }

  // ---------------------------------------------------------------------
  // The whole recursion, with a depth bound

  /** How a call of `get_dependencies` ends: with the final list, in a
      panic that abandons the download, or still recursing when the depth
      bound runs out (where the source has no bound and keeps going). */
  datatype Outcome = Finished(deps: seq<Version>) | Panicked | OutOfFuel

  /** What one call of `get_dependencies` decides, given the full name it
      was called with and the list it was handed. */
  type Decision = (string, seq<Version>) -> Step

  /** `le` is reflexive and transitive, so keeping each position by `le`
      holds of an unchanged list and composes across calls. */
  ghost predicate Preorder(le: (Version, Version) -> bool) {
    && (forall x :: le(x, x))
    && (forall x, y, z :: le(x, y) && le(y, z) ==> le(x, z))
  }

  /** A decision that, whenever it places a release, keeps each position
      of the list it was handed, as judged by `le`. */
  ghost predicate NeverLosesBy(decide: Decision, le: (Version, Version) -> bool) {
    forall name, deps {:trigger decide(name, deps)} ::
      decide(name, deps).Place? ==> DominatesBy(decide(name, deps).deps, deps, le)
  }

  /** The recursion of `get_dependencies` for any decision: stop, panic, or
      place a release and resolve its dependencies one level down, cut off
      after `fuel` levels. */
  function Walk(decide: Decision, versionName: string, deps: seq<Version>, fuel: nat): Outcome
    decreases fuel, 0
  {
    if fuel == 0 then OutOfFuel
    else match decide(versionName, deps)
      case Stop => Finished(deps)
      case Panic => Panicked
      case Place(d1, v) => WalkAll(decide, v.dependencies, d1, fuel - 1)
  }

  /** The `for dep in &dependencies` loop: each dependency resolved in turn
      against the list the previous one left; a panic, or running out of
      depth, ends it. */
  function WalkAll(decide: Decision, names: seq<string>, deps: seq<Version>, fuel: nat): Outcome
    decreases fuel, 1, |names|
  {
    if names == [] then Finished(deps)
    else match Walk(decide, names[0], deps, fuel)
      case Finished(d1) => WalkAll(decide, names[1..], d1, fuel)
      case ended => ended
  }

  /** A decision that keeps each position by `le` gives a recursion that
      does: each placement keeps the list, and keeping composes. */
  lemma {:induction false} WalkDominates(decide: Decision, le: (Version, Version) -> bool,
                                         versionName: string, deps: seq<Version>, fuel: nat)
    requires Preorder(le) && NeverLosesBy(decide, le)
    ensures var r := Walk(decide, versionName, deps, fuel);
      r.Finished? ==> DominatesBy(r.deps, deps, le)
    decreases fuel, 0
  {
    if fuel > 0 {
      match decide(versionName, deps)
      case Stop => assert DominatesBy(deps, deps, le);
      case Panic =>
      case Place(d1, v) =>
        WalkAllDominates(decide, le, v.dependencies, d1, fuel - 1);
        var r := WalkAll(decide, v.dependencies, d1, fuel - 1);
        if r.Finished? {
          DominatesByTransitive(r.deps, d1, deps, le);
        }
    }
  }

  lemma {:induction false} WalkAllDominates(decide: Decision, le: (Version, Version) -> bool,
                                            names: seq<string>, deps: seq<Version>, fuel: nat)
    requires Preorder(le) && NeverLosesBy(decide, le)
    ensures var r := WalkAll(decide, names, deps, fuel);
      r.Finished? ==> DominatesBy(r.deps, deps, le)
    decreases fuel, 1, |names|
  {
    if names == [] {
      assert DominatesBy(deps, deps, le);
    } else {
      WalkDominates(decide, le, names[0], deps, fuel);
      match Walk(decide, names[0], deps, fuel)
      case Finished(d1) =>
        WalkAllDominates(decide, le, names[1..], d1, fuel);
        var r := WalkAll(decide, names[1..], d1, fuel);
        if r.Finished? {
          DominatesByTransitive(r.deps, d1, deps, le);
        }
      case _ =>
    }
  }

  /** The decision `get_dependencies` makes: split the full name into mod
      and version, then take the step. */
  function Decide(how: Lookup, pkg: Package, installed: seq<ModInfo>): Decision {
    (versionName: string, deps: seq<Version>) =>
      var parsed := ParseModVersion(versionName);
      ResolveStep(how, pkg, installed, parsed.0, parsed.1, deps)
  }

  /** No decision of `get_dependencies` leaves a position of the list with
      a release of lower weight; which mod that release belongs to is not
      compared (see `DecideKeepsMods`). */
  lemma DecideNeverLoses(how: Lookup, pkg: Package, installed: seq<ModInfo>)
    ensures NeverLosesBy(Decide(how, pkg, installed), NoOlder)
  {
    var decide := Decide(how, pkg, installed);
    forall name, deps | decide(name, deps).Place?
      ensures Dominates(decide(name, deps).deps, deps)
    {
      var parsed := ParseModVersion(name);
      var step := ResolveStep(how, pkg, installed, parsed.0, parsed.1, deps);
      StepDominates(how, pkg, installed, parsed.0, parsed.1, deps, step.deps, step.chosen);
    }
  }

  /** `get_dependencies(version_name, deps, profile_mods)` as a function of
      the list it is handed, cut off after `fuel` levels of recursion. */
  function Resolve(how: Lookup, pkg: Package, installed: seq<ModInfo>, versionName: string,
                   deps: seq<Version>, fuel: nat): (r: Outcome)
    ensures r.Finished? ==> Dominates(r.deps, deps)
  {
    DecideNeverLoses(how, pkg, installed);
    NoOlderPreorder();
    WalkDominates(Decide(how, pkg, installed), NoOlder, versionName, deps, fuel);
    Walk(Decide(how, pkg, installed), versionName, deps, fuel)
  }

  /** Each of `names` resolved in turn. */
  function ResolveAll(how: Lookup, pkg: Package, installed: seq<ModInfo>, names: seq<string>,
                      deps: seq<Version>, fuel: nat): (r: Outcome)
    ensures r.Finished? ==> Dominates(r.deps, deps)
  {
    DecideNeverLoses(how, pkg, installed);
    NoOlderPreorder();
    WalkAllDominates(Decide(how, pkg, installed), NoOlder, names, deps, fuel);
    WalkAll(Decide(how, pkg, installed), names, deps, fuel)
  }

  /** One level of `get_dependencies` once the step has placed a release:
      what remains is the loop over that release's dependencies. */
  lemma ResolvePlaced(how: Lookup, pkg: Package, installed: seq<ModInfo>, versionName: string,
                      deps: seq<Version>, fuel: nat, placed: seq<Version>, v: Version)
    requires fuel > 0
    requires var parsed := ParseModVersion(versionName);
      ResolveStep(how, pkg, installed, parsed.0, parsed.1, deps) == Place(placed, v)
    ensures Resolve(how, pkg, installed, versionName, deps, fuel)
      == ResolveAll(how, pkg, installed, v.dependencies, placed, fuel - 1)
  {
  }

  lemma ResolveAllAt(how: Lookup, pkg: Package, installed: seq<ModInfo>, names: seq<string>, i: nat,
                     deps: seq<Version>, fuel: nat)
    requires i < |names|
    ensures ResolveAll(how, pkg, installed, names[i..], deps, fuel) ==
      match Resolve(how, pkg, installed, names[i], deps, fuel)
      case Finished(d1) => ResolveAll(how, pkg, installed, names[i + 1..], d1, fuel)
      case ended => ended
  {
    assert names[i..][0] == names[i] && names[i..][1..] == names[i + 1..];
  }

  /** The checks `get_dependencies` makes before it recurses, in the
      source's order, and the placement of the chosen release. */
  method CheckAndPlace(how: Lookup, pkg: Package, installed: seq<ModInfo>, fullName: string,
                       versionNumber: string, deps: seq<Version>) returns (step: Step)
    ensures step == ResolveStep(how, pkg, installed, fullName, versionNumber, deps)
  {
    var mine := AbsoluteVersion(versionNumber);
    var hasNewerVersion := false;

    var ind := FindEntry(deps, fullName, how);
    if ind.Some? {
      var found := AbsoluteVersion(deps[ind.value].versionNumber);
      if mine.None? || found.None? {
        return Panic;
      }
      if mine.value > found.value {
        hasNewerVersion := true;
      } else {
        return Stop;
      }
    }

    var inst := FindInstalled(installed, fullName);
    if inst.Some? {
      var have := AbsoluteVersion(installed[inst.value].versionNumber);
      if mine.None? || have.None? {
        return Panic;
      }
      if mine.value <= have.value {
        return Stop;
      }
    }

    if fullName !in pkg.mods {
      return Stop;
    }
    var release := FindVersion(pkg.mods[fullName].versions, versionNumber);
    if release.None? {
      return Panic;
    }
    var v := release.value;
    var list := deps;
    if hasNewerVersion {
      list := list[ind.value := v];
    } else {
      list := [v] + list;
    }
    return Place(list, v);
  }

  /** `get_dependencies`, updating the list across the recursion: here the
      list goes in and its final state, the panic, or the exhausted depth
      bound comes out. */
  method GetDependencies(how: Lookup, pkg: Package, versionName: string, deps: seq<Version>,
                         installed: seq<ModInfo>, fuel: nat) returns (r: Outcome)
    ensures r == Resolve(how, pkg, installed, versionName, deps, fuel)
    ensures r.Finished? ==> Dominates(r.deps, deps)
    decreases fuel, 0
  {
    if fuel == 0 {
      return OutOfFuel;
    }
    var parsed := ParseModVersion(versionName);
    var step := CheckAndPlace(how, pkg, installed, parsed.0, parsed.1, deps);
    match step
    case Stop =>
      r := Finished(deps);
    case Panic =>
      r := Panicked;
    case Place(placed, v) =>
      ResolvePlaced(how, pkg, installed, versionName, deps, fuel, placed, v);
      r := GetEachDependency(how, pkg, v.dependencies, placed, installed, fuel - 1);
  }

  /** The `for dep in &dependencies` loop of `get_dependencies`. */
  method GetEachDependency(how: Lookup, pkg: Package, names: seq<string>, deps: seq<Version>,
                           installed: seq<ModInfo>, fuel: nat) returns (r: Outcome)
    ensures r == ResolveAll(how, pkg, installed, names, deps, fuel)
    ensures r.Finished? ==> Dominates(r.deps, deps)
    decreases fuel, 1
  {
    var list := deps;
    for i := 0 to |names|
      invariant ResolveAll(how, pkg, installed, names[i..], list, fuel)
        == ResolveAll(how, pkg, installed, names, deps, fuel)
    {
      ResolveAllAt(how, pkg, installed, names, i, list, fuel);
      var sub := GetDependencies(how, pkg, names[i], list, installed, fuel);
      if !sub.Finished? {
        return sub;
      }
      list := sub.deps;
    }
    assert names[|names|..] == [];
    return Finished(list);
  }

  // ---------------------------------------------------------------------
  // Properties of the resolution

  /** An entry already in the list at an equal or higher version stops the
      resolution: the list comes back unchanged. */
  lemma ResolveKeepsNewerFound(how: Lookup, pkg: Package, installed: seq<ModInfo>, versionName: string,
                               deps: seq<Version>, fuel: nat, name: string, number: string, i: nat)
    requires fuel > 0
    requires ParseModVersion(versionName) == (name, number)
    requires i < |deps| && IsEntryFor(deps[i], name, how)
    requires forall j :: 0 <= j < i ==> !IsEntryFor(deps[j], name, how)
    requires AbsoluteVersion(number).Some? && AbsoluteVersion(deps[i].versionNumber).Some?
    requires AbsoluteVersion(number).value <= AbsoluteVersion(deps[i].versionNumber).value
    ensures Resolve(how, pkg, installed, versionName, deps, fuel) == Finished(deps)
  {
    StepKeepsNewerFound(how, pkg, installed, name, number, deps, i);
  }

  lemma StepKeepsNewerFound(how: Lookup, pkg: Package, installed: seq<ModInfo>, name: string, number: string,
                            deps: seq<Version>, i: nat)
    requires i < |deps| && IsEntryFor(deps[i], name, how)
    requires forall j :: 0 <= j < i ==> !IsEntryFor(deps[j], name, how)
    requires AbsoluteVersion(number).Some? && AbsoluteVersion(deps[i].versionNumber).Some?
    requires AbsoluteVersion(number).value <= AbsoluteVersion(deps[i].versionNumber).value
    ensures ResolveStep(how, pkg, installed, name, number, deps) == Stop
  {
    assert FindEntry(deps, name, how) == Some(i);
  }

  /** A profile that already has the mod, at an equal or higher version,
      needs nothing: whether or not the list has an entry for it (an entry
      at least as new stops the resolution first, an older one is passed
      over to the profile's copy), the list comes back unchanged. */
  lemma ResolveKeepsInstalled(how: Lookup, pkg: Package, installed: seq<ModInfo>, versionName: string,
                              deps: seq<Version>, fuel: nat, name: string, number: string, k: nat)
    requires fuel > 0
    requires ParseModVersion(versionName) == (name, number)
    requires FindEntry(deps, name, how).Some? ==>
      AbsoluteVersion(deps[FindEntry(deps, name, how).value].versionNumber).Some?
    requires k < |installed| && installed[k].fullName == name
    requires forall j :: 0 <= j < k ==> installed[j].fullName != name
    requires AbsoluteVersion(number).Some? && AbsoluteVersion(installed[k].versionNumber).Some?
    requires AbsoluteVersion(number).value <= AbsoluteVersion(installed[k].versionNumber).value
    ensures Resolve(how, pkg, installed, versionName, deps, fuel) == Finished(deps)
  {
    StepKeepsInstalled(how, pkg, installed, name, number, deps, k);
  }

  lemma StepKeepsInstalled(how: Lookup, pkg: Package, installed: seq<ModInfo>, name: string, number: string,
                           deps: seq<Version>, k: nat)
    requires FindEntry(deps, name, how).Some? ==>
      AbsoluteVersion(deps[FindEntry(deps, name, how).value].versionNumber).Some?
    requires k < |installed| && installed[k].fullName == name
    requires forall j :: 0 <= j < k ==> installed[j].fullName != name
    requires AbsoluteVersion(number).Some? && AbsoluteVersion(installed[k].versionNumber).Some?
    requires AbsoluteVersion(number).value <= AbsoluteVersion(installed[k].versionNumber).value
    ensures ResolveStep(how, pkg, installed, name, number, deps) == Stop
  {
    assert FindInstalled(installed, name) == Some(k);
    match FindEntry(deps, name, how)
    case None =>
    case Some(i) =>
      assert AgainstInstalled(pkg, installed, name, number, deps, Some(i)) == Stop;
  }

  /** A mod that is not catalogued never changes the list. */
  lemma ResolveUnknownMod(how: Lookup, pkg: Package, installed: seq<ModInfo>, versionName: string,
                          deps: seq<Version>, fuel: nat)
    requires fuel > 0
    requires ParseModVersion(versionName).0 !in pkg.mods
    ensures Resolve(how, pkg, installed, versionName, deps, fuel) == Finished(deps)
      || Resolve(how, pkg, installed, versionName, deps, fuel) == Panicked
  {
    var (name, number) := ParseModVersion(versionName);
    StepUnknownMod(how, pkg, installed, name, number, deps);
  }

  lemma StepUnknownMod(how: Lookup, pkg: Package, installed: seq<ModInfo>, name: string, number: string,
                       deps: seq<Version>)
    requires name !in pkg.mods
    ensures !ResolveStep(how, pkg, installed, name, number, deps).Place?
  {
    match FindEntry(deps, name, how)
    case None => assert Fetch(pkg, name, number, deps, None) == Stop;
    case Some(i) => assert Fetch(pkg, name, number, deps, Some(i)) == Stop;
  }

  /** With nothing in the list or the profile to stop it, a catalogued mod
      lacking the requested release makes the download panic, and one
      having it, with no dependencies of its own, goes to the front of the
      list and nothing else changes. */
  lemma ResolveNewMod(how: Lookup, pkg: Package, installed: seq<ModInfo>, versionName: string,
                      deps: seq<Version>, fuel: nat, name: string, number: string)
    requires fuel > 0
    requires ParseModVersion(versionName) == (name, number)
    requires forall j :: 0 <= j < |deps| ==> !IsEntryFor(deps[j], name, how)
    requires forall j :: 0 <= j < |installed| ==> installed[j].fullName != name
    requires name in pkg.mods
    ensures !HasVersion(pkg.mods[name], number) ==> Resolve(how, pkg, installed, versionName, deps, fuel) == Panicked
    ensures forall v :: FindVersion(pkg.mods[name].versions, number) == Some(v) && v.dependencies == [] ==>
      Resolve(how, pkg, installed, versionName, deps, fuel) == Finished([v] + deps)
  {
    StepNewMod(how, pkg, installed, name, number, deps);
    forall v | FindVersion(pkg.mods[name].versions, number) == Some(v) && v.dependencies == []
      ensures Resolve(how, pkg, installed, versionName, deps, fuel) == Finished([v] + deps)
    {
      assert WalkAll(Decide(how, pkg, installed), v.dependencies, [v] + deps, fuel - 1) == Finished([v] + deps);
    }
  }

  lemma StepNewMod(how: Lookup, pkg: Package, installed: seq<ModInfo>, name: string, number: string,
                   deps: seq<Version>)
    requires forall j :: 0 <= j < |deps| ==> !IsEntryFor(deps[j], name, how)
    requires forall j :: 0 <= j < |installed| ==> installed[j].fullName != name
    requires name in pkg.mods
    ensures ResolveStep(how, pkg, installed, name, number, deps) ==
      match FindVersion(pkg.mods[name].versions, number)
      case None => Panic
      case Some(v) => Place([v] + deps, v)
  {
    assert FindEntry(deps, name, how).None?;
    assert FindInstalled(installed, name).None?;
  }

  /** A patch release of something already in the list is ignored, since
      the third version component takes no part in the comparison. */
  lemma ResolveIgnoresPatchBump(how: Lookup, pkg: Package, installed: seq<ModInfo>, versionName: string,
                                deps: seq<Version>, fuel: nat, name: string,
                                major: string, minor: string, oldPatch: string, newPatch: string)
    requires fuel > 0
    requires ParseModVersion(versionName) == (name, major + "." + minor + "." + newPatch)
    requires '.' !in major && '.' !in minor
    requires ParseU32(major).Some? && ParseU32(minor).Some?
    requires |deps| > 0 && IsEntryFor(deps[0], name, how)
    requires deps[0].versionNumber == major + "." + minor + "." + oldPatch
    ensures Resolve(how, pkg, installed, versionName, deps, fuel) == Finished(deps)
  {
    AbsoluteVersionIgnoresPatch(major, minor, oldPatch, newPatch);
    ResolveKeepsNewerFound(how, pkg, installed, versionName, deps, fuel, name,
      major + "." + minor + "." + newPatch, 0);
  }

  /** With the mod-name lookup, a step never drops an entry of another mod:
      the only entry it can replace is one of the mod being resolved. */
  lemma SameModLookupKeepsOtherMods(pkg: Package, installed: seq<ModInfo>, name: string, number: string,
                                    deps: seq<Version>, placed: seq<Version>, v: Version)
    requires ResolveStep(ByModName, pkg, installed, name, number, deps) == Place(placed, v)
    ensures forall j :: 0 <= j < |deps| && ParseModVersion(deps[j].fullName).0 != name ==> deps[j] in placed
  {
    ResolveStepPlaces(ByModName, pkg, installed, name, number, deps, placed, v);
    forall j | 0 <= j < |deps| && ParseModVersion(deps[j].fullName).0 != name
      ensures deps[j] in placed
    {
      match FindEntry(deps, name, ByModName)
      case None => assert placed[j + 1] == deps[j];
      case Some(i) => assert placed[j] == deps[j];
    }
  }

  /** The mod a release belongs to: its full name without the version. */
  function ModOf(v: Version): string {
    ParseModVersion(v.fullName).0
  }

  /** `a` stands where `b` stood as a release of the same mod: `b` itself,
      or a release of `b`'s mod of no lower weight. */
  predicate SameModNoOlder(a: Version, b: Version) {
    a == b || (ModOf(a) == ModOf(b) && NoOlder(a, b))
  }

  /** Each position of the old list, aligned from the end, holds the same
      release or one of the same mod of no lower weight. */
  predicate KeepsMods(after: seq<Version>, before: seq<Version>) {
    DominatesBy(after, before, SameModNoOlder)
  }

  /** Every release the catalogue lists under a mod carries that mod's
      full name, as Thunderstore's `<mod>-<version>` names do. */
  predicate NamesReleases(pkg: Package) {
    forall name, v :: name in pkg.mods && v in pkg.mods[name].versions ==> ModOf(v) == name
  }

  lemma SameModNoOlderPreorder()
    ensures Preorder(SameModNoOlder)
  {
    forall x, y, z | SameModNoOlder(x, y) && SameModNoOlder(y, z) ensures SameModNoOlder(x, z) {
      NoOlderTransitive(x, y, z);
    }
  }

  /** With the mod-name lookup, a step keeps each position for its mod:
      the entry it replaces is an older release of the mod it places. */
  lemma StepKeepsMods(pkg: Package, installed: seq<ModInfo>, name: string, number: string,
                      deps: seq<Version>, placed: seq<Version>, v: Version)
    requires NamesReleases(pkg)
    requires ResolveStep(ByModName, pkg, installed, name, number, deps) == Place(placed, v)
    ensures KeepsMods(placed, deps)
  {
    ResolveStepPlaces(ByModName, pkg, installed, name, number, deps, placed, v);
    var at := FindEntry(deps, name, ByModName);
    assert at.Some? ==> SameModNoOlder(v, deps[at.value]) by {
      if at.Some? {
        assert ModOf(v) == name;
        assert IsEntryFor(deps[at.value], name, ByModName);
      }
    }
    PlaceKeepsMods(deps, at, placed, v);
  }

  lemma PlaceKeepsMods(deps: seq<Version>, at: Option<nat>, placed: seq<Version>, v: Version)
    requires at.Some? ==> at.value < |deps| && placed == deps[at.value := v] && SameModNoOlder(v, deps[at.value])
    requires at.None? ==> placed == [v] + deps
    ensures KeepsMods(placed, deps)
  {
    forall j | 0 <= j < |deps|
      ensures SameModNoOlder(placed[|placed| - |deps| + j], deps[j])
    {
      if at.None? || j != at.value {
        assert placed[|placed| - |deps| + j] == deps[j];
      }
    }
  }

  lemma DecideKeepsMods(pkg: Package, installed: seq<ModInfo>)
    requires NamesReleases(pkg)
    ensures NeverLosesBy(Decide(ByModName, pkg, installed), SameModNoOlder)
  {
    var decide := Decide(ByModName, pkg, installed);
    forall name, deps | decide(name, deps).Place?
      ensures KeepsMods(decide(name, deps).deps, deps)
    {
      var parsed := ParseModVersion(name);
      var step := ResolveStep(ByModName, pkg, installed, parsed.0, parsed.1, deps);
      StepKeepsMods(pkg, installed, parsed.0, parsed.1, deps, step.deps, step.chosen);
    }
  }

  /** With the mod-name lookup, a finished resolution keeps every mod it
      was given: each position holds the same release or a release of the
      same mod of no lower weight. */
  lemma ResolveKeepsMods(pkg: Package, installed: seq<ModInfo>, versionName: string,
                         deps: seq<Version>, fuel: nat)
    requires NamesReleases(pkg)
    ensures var r := Resolve(ByModName, pkg, installed, versionName, deps, fuel);
      r.Finished? ==> KeepsMods(r.deps, deps)
  {
    DecideKeepsMods(pkg, installed);
    SameModNoOlderPreorder();
    WalkDominates(Decide(ByModName, pkg, installed), SameModNoOlder, versionName, deps, fuel);
  }

  // ---------------------------------------------------------------------
  // Two mods whose names share a prefix

  /** A release of the mod "a-b" that depends on the mod "a-bc", and a
      release of "a-bc" that depends back on "a-b". */
  const PrefixRelease := Version("a-b-2.0.0", "b", "2.0.0", ["a-bc-1.0.0"], "", "", 0, "", 0)
  const ExtendedRelease := Version("a-bc-1.0.0", "bc", "1.0.0", ["a-b-2.0.0"], "", "", 0, "", 0)

  /** A catalogue holding just those two mods. */
  const PrefixCatalogue := Package([], map[
    "a-b" := Mod("a-b", "b", "a", [], 0, 0, 0, [PrefixRelease]),
    "a-bc" := Mod("a-bc", "bc", "a", [], 0, 0, 0, [ExtendedRelease])])

  /** The mod and version parts of the two releases' full names. */
  lemma PrefixNames()
    ensures ParseModVersion("a-b-2.0.0") == ("a-b", "2.0.0")
    ensures ParseModVersion("a-bc-1.0.0") == ("a-bc", "1.0.0")
  {
    assert "a-b" + "-" + "2.0.0" == "a-b-2.0.0";
    ParseModVersionOfJoined("a-b", "2.0.0");
    assert "a-bc" + "-" + "1.0.0" == "a-bc-1.0.0";
    ParseModVersionOfJoined("a-bc", "1.0.0");
  }

  /** "a-b" occurs in the longer full name, "a-bc" not in the shorter one. */
  lemma PrefixContains()
    ensures Contains("a-bc-1.0.0", "a-b") && !Contains("a-b-2.0.0", "a-bc")
  {
    assert OccursAt("a-bc-1.0.0", "a-b", 0);
    var s := "a-b-2.0.0";
    assert forall k :: 0 <= k < |s| ==> s[k] != 'c';
    forall i: nat | i <= |s| ensures !OccursAt(s, "a-bc", i) {
      if i + 4 <= |s| {
        assert s[i..i + 4][3] == s[i + 3] != "a-bc"[3];
      }
    }
  }

  /** The weight of "n.0.0" for a one-digit n. */
  lemma WeightOfMajor(n: nat, number: string)
    requires n < 10 && number == ShowNat(n) + ".0.0"
    ensures AbsoluteVersion(number) == Some(n * 101)
  {
    ParseU32Show(n);
    ParseU32Show(0);
    assert ShowNat(0) == "0";
    assert number == ShowNat(n) + "." + "0" + "." + "0";
    AbsoluteVersionIgnoresPatch(ShowNat(n), "0", "0", "0");
  }

  /** 2.0.0 weighs more than 1.0.0 and as much as itself. */
  lemma PrefixWeights()
    ensures Newer("2.0.0", "1.0.0") == Some(true) && Newer("2.0.0", "2.0.0") == Some(false)
  {
    assert ShowNat(1) == "1" && ShowNat(2) == "2";
    WeightOfMajor(1, "1.0.0");
    WeightOfMajor(2, "2.0.0");
  }

  /** Which release counts as an entry of which mod, under each lookup. */
  lemma PrefixEntries()
    ensures IsEntryFor(ExtendedRelease, "a-b", BySubstring) && !IsEntryFor(PrefixRelease, "a-bc", BySubstring)
    ensures IsEntryFor(PrefixRelease, "a-b", ByModName)
    ensures !IsEntryFor(PrefixRelease, "a-bc", ByModName) && !IsEntryFor(ExtendedRelease, "a-b", ByModName)
  {
    PrefixNames();
    PrefixContains();
  }

  /** The catalogue has both mods, each with its one release. */
  lemma PrefixCatalogued()
    ensures "a-b" in PrefixCatalogue.mods && "a-bc" in PrefixCatalogue.mods
    ensures FindVersion(PrefixCatalogue.mods["a-b"].versions, "2.0.0") == Some(PrefixRelease)
    ensures FindVersion(PrefixCatalogue.mods["a-bc"].versions, "1.0.0") == Some(ExtendedRelease)
  {
  }

  /** With an empty profile, a catalogued release is placed at the entry
      the lookup finds when it is strictly newer, or at the front. */
  lemma PlaceWithoutProfile(how: Lookup, pkg: Package, name: string, number: string,
                            deps: seq<Version>, at: Option<nat>, v: Version)
    requires FindEntry(deps, name, how) == at
    requires at.Some? ==> Newer(number, deps[at.value].versionNumber) == Some(true)
    requires name in pkg.mods && FindVersion(pkg.mods[name].versions, number) == Some(v)
    ensures ResolveStep(how, pkg, [], name, number, deps)
      == Place(if at.Some? then deps[at.value := v] else [v] + deps, v)
  {
  }

  /** The shape of the example: `x` is a catalogued release of the mod `a`
      and `y` one of the mod `b`, each depends on the other, and `x` has
      the higher version. */
  predicate MutualPair(pkg: Package, a: string, b: string, x: Version, y: Version) {
    && Release(pkg, a, x, y.fullName)
    && Release(pkg, b, y, x.fullName)
    && Newer(x.versionNumber, y.versionNumber) == Some(true)
  }

  /** The two releases of "a-b" and "a-bc" have that shape, and the
      substring lookup takes the "a-bc" release for an entry of "a-b" but
      not the other way round. */
  lemma PrefixCatalogueIsMutualPair()
    ensures MutualPair(PrefixCatalogue, "a-b", "a-bc", PrefixRelease, ExtendedRelease)
    ensures IsEntryFor(ExtendedRelease, "a-b", BySubstring) && !IsEntryFor(PrefixRelease, "a-bc", BySubstring)
  {
    PrefixNames();
    PrefixEntries();
    PrefixCatalogued();
    PrefixWeights();
  }

  /** A list made only of copies of `x`. */
  predicate AllOf(copies: seq<Version>, x: Version) {
    forall i :: 0 <= i < |copies| ==> copies[i] == x
  }

  /** `v` is the catalogue's release of the mod `name` it names, and it
      depends on `dep` alone. */
  predicate Release(pkg: Package, name: string, v: Version, dep: string) {
    && name in pkg.mods && FindVersion(pkg.mods[name].versions, v.versionNumber) == Some(v)
    && ParseModVersion(v.fullName) == (name, v.versionNumber)
    && v.dependencies == [dep]
  }

  /** One level of the recursion for a release with a single dependency:
      once the decision has placed it, what remains is resolving that
      dependency one level down. */
  lemma WalkHop(decide: Decision, v: Version, deps: seq<Version>, placed: seq<Version>, fuel: nat)
    requires fuel > 0 && |v.dependencies| == 1
    requires decide(v.fullName, deps) == Place(placed, v)
    ensures Walk(decide, v.fullName, deps, fuel) == Walk(decide, v.dependencies[0], placed, fuel - 1)
  {
    var names := v.dependencies;
    assert names[1..] == [];
    match Walk(decide, names[0], placed, fuel - 1)
    case Finished(d1) =>
      assert WalkAll(decide, names[1..], d1, fuel - 1) == Finished(d1);
    case _ =>
  }

  /** The decisions of a download of `x` that never ends: `x` goes in
      first; after that `y` is put in front of any list of copies of `x`,
      and `x` then takes `y`'s place, leaving one more copy of `x`. */
  ghost predicate Cycle(decide: Decision, x: Version, y: Version) {
    && x.dependencies == [y.fullName] && y.dependencies == [x.fullName]
    && decide(x.fullName, []) == Place([x], x)
    && forall c {:trigger AllOf(c, x)} :: AllOf(c, x) ==>
         && decide(y.fullName, c) == Place([y] + c, y)
         && decide(x.fullName, [y] + c) == Place([x] + c, x)
  }

  /** From a list of copies of `x`, resolving `y` recurses as deep as it
      may: every two levels it comes back to `y` with one more copy. */
  lemma {:induction false} CycleNeverFinishesFrom(decide: Decision, x: Version, y: Version,
                                                  copies: seq<Version>, fuel: nat)
    requires Cycle(decide, x, y) && AllOf(copies, x)
    ensures Walk(decide, y.fullName, copies, fuel) == OutOfFuel
    decreases fuel
  {
    if fuel > 0 {
      WalkHop(decide, y, copies, [y] + copies, fuel);
      if fuel > 1 {
        WalkHop(decide, x, [y] + copies, [x] + copies, fuel - 1);
        assert AllOf([x] + copies, x);
        CycleNeverFinishesFrom(decide, x, y, [x] + copies, fuel - 2);
      }
    }
  }

  /** Decisions that cycle make the download of `x` recurse as deep as it
      may, whatever the depth bound. */
  lemma CycleNeverFinishes(decide: Decision, x: Version, y: Version, fuel: nat)
    requires Cycle(decide, x, y)
    ensures Walk(decide, x.fullName, [], fuel) == OutOfFuel
  {
    if fuel > 0 {
      WalkHop(decide, x, [], [x], fuel);
      assert AllOf([x], x);
      CycleNeverFinishesFrom(decide, x, y, [x], fuel - 1);
    }
  }

  /** With an empty list, a catalogued release goes in, under either
      lookup. */
  lemma PrefixGoesFirst(how: Lookup, pkg: Package, a: string, x: Version)
    requires a in pkg.mods && FindVersion(pkg.mods[a].versions, x.versionNumber) == Some(x)
    requires ParseModVersion(x.fullName) == (a, x.versionNumber)
    ensures Decide(how, pkg, [])(x.fullName, []) == Place([x], x)
  {
    PlaceWithoutProfile(how, pkg, a, x.versionNumber, [], None, x);
  }

  /** When no copy of `x` counts as an entry of `b`, `y` goes in front of
      any list of copies of `x`. */
  lemma ExtendedGoesFirst(how: Lookup, pkg: Package, b: string, x: Version, y: Version, copies: seq<Version>)
    requires b in pkg.mods && FindVersion(pkg.mods[b].versions, y.versionNumber) == Some(y)
    requires ParseModVersion(y.fullName) == (b, y.versionNumber)
    requires !IsEntryFor(x, b, how) && AllOf(copies, x)
    ensures Decide(how, pkg, [])(y.fullName, copies) == Place([y] + copies, y)
  {
    assert FindEntry(copies, b, how).None?;
    PlaceWithoutProfile(how, pkg, b, y.versionNumber, copies, None, y);
  }

  /** An older entry of the mod at the front of the list is replaced in
      place by the release fetched. */
  lemma ReplaceFront(how: Lookup, pkg: Package, name: string, number: string, y: Version,
                     copies: seq<Version>, x: Version)
    requires IsEntryFor(y, name, how) && Newer(number, y.versionNumber) == Some(true)
    requires name in pkg.mods && FindVersion(pkg.mods[name].versions, number) == Some(x)
    ensures ResolveStep(how, pkg, [], name, number, [y] + copies) == Place([x] + copies, x)
  {
    var d1 := [y] + copies;
    FrontEntry(d1, name, how);
    PlaceWithoutProfile(how, pkg, name, number, d1, Some(0), x);
    FrontReplaced(y, copies, x);
  }

  lemma FrontEntry(deps: seq<Version>, name: string, how: Lookup)
    requires |deps| > 0 && IsEntryFor(deps[0], name, how)
    ensures FindEntry(deps, name, how) == Some(0)
  {
  }

  lemma FrontReplaced(y: Version, copies: seq<Version>, x: Version)
    ensures ([y] + copies)[0 := x] == [x] + copies
  {
  }

  /** With the substring lookup, `y` in front counts as an older entry of
      `a`, so `x` takes its place. */
  lemma PrefixReplacesExtended(pkg: Package, a: string, x: Version, y: Version, copies: seq<Version>)
    requires Release(pkg, a, x, y.fullName) && IsEntryFor(y, a, BySubstring)
    requires Newer(x.versionNumber, y.versionNumber) == Some(true)
    ensures Decide(BySubstring, pkg, [])(x.fullName, [y] + copies) == Place([x] + copies, x)
  {
    ReplaceFront(BySubstring, pkg, a, x.versionNumber, y, copies, x);
  }

  /** The substring lookup gives the pair those decisions. */
  lemma SubstringLookupCycles(pkg: Package, a: string, b: string, x: Version, y: Version)
    requires MutualPair(pkg, a, b, x, y)
    requires IsEntryFor(y, a, BySubstring) && !IsEntryFor(x, b, BySubstring)
    ensures Cycle(Decide(BySubstring, pkg, []), x, y)
  {
    PrefixGoesFirst(BySubstring, pkg, a, x);
    forall c | AllOf(c, x)
      ensures Decide(BySubstring, pkg, [])(y.fullName, c) == Place([y] + c, y)
      ensures Decide(BySubstring, pkg, [])(x.fullName, [y] + c) == Place([x] + c, x)
    {
      ExtendedGoesFirst(BySubstring, pkg, b, x, y, c);
      PrefixReplacesExtended(pkg, a, x, y, c);
    }
  }

  /** With the substring lookup, downloading `x` never finishes: each pass
      round the cycle replaces `y` by `x` and adds one more copy of `x`, so
      the recursion goes as deep as it is allowed to. */
  lemma SubstringLookupDiverges(pkg: Package, a: string, b: string, x: Version, y: Version, fuel: nat)
    requires MutualPair(pkg, a, b, x, y)
    requires IsEntryFor(y, a, BySubstring) && !IsEntryFor(x, b, BySubstring)
    ensures Resolve(BySubstring, pkg, [], x.fullName, [], fuel) == OutOfFuel
  {
    SubstringLookupCycles(pkg, a, b, x, y);
    CycleNeverFinishes(Decide(BySubstring, pkg, []), x, y, fuel);
  }

  /** A chain of three decisions that ends in a stop: `x` goes in, then
      `y` in front of it, then `x` finds itself already there. */
  lemma ChainFinishes(decide: Decision, x: Version, y: Version, fuel: nat)
    requires x.dependencies == [y.fullName] && y.dependencies == [x.fullName]
    requires decide(x.fullName, []) == Place([x], x)
    requires decide(y.fullName, [x]) == Place([y, x], y)
    requires decide(x.fullName, [y, x]) == Stop
    requires fuel >= 3
    ensures Walk(decide, x.fullName, [], fuel) == Finished([y, x])
  {
    WalkHop(decide, x, [], [x], fuel);
    WalkHop(decide, y, [x], [y, x], fuel - 1);
  }

  /** With the mod-name lookup, a release finds its own earlier copy
      behind an entry of another mod, and stops there. */
  lemma SameModLookupStops(pkg: Package, a: string, x: Version, y: Version)
    requires ParseModVersion(x.fullName) == (a, x.versionNumber)
    requires ParseModVersion(y.fullName).0 != a
    requires AbsoluteVersion(x.versionNumber).Some?
    ensures Decide(ByModName, pkg, [])(x.fullName, [y, x]) == Stop
  {
    assert FindEntry([y, x], a, ByModName) == Some(1);
    StepKeepsNewerFound(ByModName, pkg, [], a, x.versionNumber, [y, x], 1);
  }

  /** With the mod-name lookup the same download finishes after three
      levels, with one release of each mod. */
  lemma SameModLookupFinishes(pkg: Package, a: string, b: string, x: Version, y: Version, fuel: nat)
    requires Release(pkg, a, x, y.fullName) && Release(pkg, b, y, x.fullName) && a != b
    requires AbsoluteVersion(x.versionNumber).Some?
    requires fuel >= 3
    ensures Resolve(ByModName, pkg, [], x.fullName, [], fuel) == Finished([y, x])
  {
    PrefixGoesFirst(ByModName, pkg, a, x);
    assert AllOf([x], x) && [y] + [x] == [y, x];
    ExtendedGoesFirst(ByModName, pkg, b, x, y, [x]);
    SameModLookupStops(pkg, a, x, y);
    ChainFinishes(Decide(ByModName, pkg, []), x, y, fuel);
  }

  /** The catalogue of "a-b" and "a-bc": downloading "a-b-2.0.0" with the
      source's substring lookup recurses without end, whatever the depth
      bound. */
  lemma PrefixCatalogueDiverges(fuel: nat)
    ensures Resolve(BySubstring, PrefixCatalogue, [], "a-b-2.0.0", [], fuel) == OutOfFuel
  {
    PrefixCatalogueIsMutualPair();
    SubstringLookupDiverges(PrefixCatalogue, "a-b", "a-bc", PrefixRelease, ExtendedRelease, fuel);
  }

  /** The same download with the mod-name lookup finishes after three
      levels with both releases, the dependency in front. */
  lemma PrefixCatalogueFinishes(fuel: nat)
    requires fuel >= 3
    ensures Resolve(ByModName, PrefixCatalogue, [], "a-b-2.0.0", [], fuel)
      == Finished([ExtendedRelease, PrefixRelease])
  {
    PrefixCatalogueIsMutualPair();
    SameModLookupFinishes(PrefixCatalogue, "a-b", "a-bc", PrefixRelease, ExtendedRelease, fuel);
  }

  /** A release of "a-b" 2.0.0 without dependencies, alone in a catalogue. */
  const LeafRelease := Version("a-b-2.0.0", "b", "2.0.0", [], "", "", 0, "", 0)
  const LeafCatalogue := Package([], map["a-b" := Mod("a-b", "b", "a", [], 0, 0, 0, [LeafRelease])])

  lemma LeafCatalogued()
    ensures "a-b" in LeafCatalogue.mods
    ensures FindVersion(LeafCatalogue.mods["a-b"].versions, "2.0.0") == Some(LeafRelease)
  {
  }

  /** One placement of `v`, which has no dependencies, finishes the
      download with the list placed. */
  lemma LeafWalk(decide: Decision, v: Version, deps: seq<Version>, placed: seq<Version>, fuel: nat)
    requires fuel >= 1 && v.dependencies == []
    requires decide(v.fullName, deps) == Place(placed, v)
    ensures Walk(decide, v.fullName, deps, fuel) == Finished(placed)
  {
  }

  /** With the substring lookup, downloading "a-b-2.0.0" onto a list
      holding the "a-bc" release overwrites it: the "a-bc" mod is gone from
      the list, though weights alone say nothing was lost. */
  lemma SubstringLookupDropsOtherMod(fuel: nat)
    requires fuel >= 1
    ensures Resolve(BySubstring, LeafCatalogue, [], "a-b-2.0.0", [ExtendedRelease], fuel)
      == Finished([LeafRelease])
    ensures Dominates([LeafRelease], [ExtendedRelease])
    ensures !KeepsMods([LeafRelease], [ExtendedRelease])
  {
    LeafReplacesExtended();
    LeafWalk(Decide(BySubstring, LeafCatalogue, []), LeafRelease, [ExtendedRelease], [LeafRelease], fuel);
    LeafOverExtended();
  }

  /** With the substring lookup, the "a-bc" release in the list counts as
      an older entry of "a-b" and is overwritten. */
  lemma LeafReplacesExtended()
    ensures Decide(BySubstring, LeafCatalogue, [])(LeafRelease.fullName, [ExtendedRelease])
      == Place([LeafRelease], LeafRelease)
  {
    assert IsEntryFor(ExtendedRelease, "a-b", BySubstring) && Newer("2.0.0", "1.0.0") == Some(true) by {
      PrefixEntries();
      PrefixWeights();
    }
    LeafCatalogued();
    ReplaceFront(BySubstring, LeafCatalogue, "a-b", "2.0.0", ExtendedRelease, [], LeafRelease);
    assert [ExtendedRelease] + [] == [ExtendedRelease] && [LeafRelease] + [] == [LeafRelease];
    PrefixNames();
  }

  /** With the mod-name lookup the same download puts the "a-b" release in
      front and keeps the "a-bc" one. */
  lemma ModNameLookupKeepsOtherMod(fuel: nat)
    requires fuel >= 1
    ensures Resolve(ByModName, LeafCatalogue, [], "a-b-2.0.0", [ExtendedRelease], fuel)
      == Finished([LeafRelease, ExtendedRelease])
  {
    var decide := Decide(ByModName, LeafCatalogue, []);
    assert decide(LeafRelease.fullName, [ExtendedRelease]) == Place([LeafRelease, ExtendedRelease], LeafRelease) by {
      PrefixNames();
      PrefixEntries();
      LeafCatalogued();
      assert FindEntry([ExtendedRelease], "a-b", ByModName) == None;
      PlaceWithoutProfile(ByModName, LeafCatalogue, "a-b", "2.0.0", [ExtendedRelease], None, LeafRelease);
    }
    LeafWalk(decide, LeafRelease, [ExtendedRelease], [LeafRelease, ExtendedRelease], fuel);
  }

  /** The "a-b" release outweighs the "a-bc" one but belongs to another
      mod. */
  lemma LeafOverExtended()
    ensures Dominates([LeafRelease], [ExtendedRelease])
    ensures !KeepsMods([LeafRelease], [ExtendedRelease])
  {
    assert Dominates([LeafRelease], [ExtendedRelease]) by {
      PrefixWeights();
    }
    assert !KeepsMods([LeafRelease], [ExtendedRelease]) by {
      PrefixNames();
      assert |LeafRelease.fullName| != |ExtendedRelease.fullName|;
      assert !SameModNoOlder(LeafRelease, ExtendedRelease);
      assert [LeafRelease][0] == LeafRelease && [ExtendedRelease][0] == ExtendedRelease;
    }
  }
}
