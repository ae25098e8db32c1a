/** The mode controller of core/performer.go: read-only mode sets the
    immutable attribute on every entry of the managed system directories,
    read-write mode clears it, and the chosen mode is recorded in the
    configuration under `Almost::CurrentMode` ("0" read-only, "1"
    read-write). */
module Performer {

  import opened Outcomes
  import opened Decimal

  const ManagedPaths: seq<string> := ["/bin", "/lib", "/lib64", "/sbin", "/usr"]

  const CurrentModeKey: string := "Almost::CurrentMode"
  const DefaultModeKey: string := "Almost::DefaultMode"
  const PersistModeKey: string := "Almost::PersistModeStatus"

  type Config = map<string, string>

  /** What `filepath.Glob` lists for the pattern `*` in each directory:
      all its entries, dot-files included, in lexical order. */
  type Listing = map<string, seq<string>>

  /** The configuration's value for `key`, "" when it is not set. */
  function Get(config: Config, key: string): string
  {
    if key in config then config[key] else ""
  }

  /** The glob result for `dir`; a directory the listing does not know has no entries. */
  function Glob(entries: Listing, dir: string): seq<string>
  {
    if dir in entries then entries[dir] else []
  }

  // ---- Reading the attribute: `lsattr` ----------------------------------------

  /** The first attributes `lsattr` prints, in its column order. */
  datatype Attr = SecureDeletion | Undeletable | SyncUpdates | DirSync | Immutable | AppendOnly | NoDump | NoAtime

  const AttrColumns: seq<Attr> := [SecureDeletion, Undeletable, SyncUpdates, DirSync, Immutable, AppendOnly, NoDump, NoAtime]
  const AttrLetters: string := "suSDiadA"

  /** One line of `lsattr` output: a letter per set attribute, `-` per
      clear one, then the name. */
  function LsattrLine(attrs: set<Attr>, name: string): (line: string)
    ensures |line| > |AttrColumns|
  {
    seq(|AttrColumns|, i requires 0 <= i < |AttrColumns| =>
      if AttrColumns[i] in attrs then AttrLetters[i] else '-') + " " + name + "\n"
  }

  /** GetImmutableFlag on the captured output of `lsattr <path>` (`None`
      when the command failed): 1 when byte 4 is `i`, else 0.  `None` as
      the result is Go's index-out-of-range panic on output shorter than
      five bytes, which `lsattr` prints for an empty directory. */
  function GetImmutableFlag(out: Option<string>): (r: Option<int>)
    ensures r.Some? ==> r.value == 0 || r.value == 1
  {
    if out.None? then Some(0)
    else if |out.value| < 5 then None
    else if out.value[4] == 'i' then Some(1)
    else Some(0)
  }

  /** On a line `lsattr` prints, GetImmutableFlag reports exactly the
      immutable attribute, and never panics. */
  lemma ImmutableFlagReadsLsattr(attrs: set<Attr>, name: string)
    ensures GetImmutableFlag(Some(LsattrLine(attrs, name))) == Some(if Immutable in attrs then 1 else 0)
  {
    var line := LsattrLine(attrs, name);
    assert AttrColumns[4] == Immutable && AttrLetters[4] == 'i';
    assert line[4] == if Immutable in attrs then 'i' else '-';
  }

  /** A failed `lsattr` reads as "not immutable"; output too short panics. */
  lemma ImmutableFlagOnFailure(out: string)
    ensures GetImmutableFlag(None) == Some(0)
    ensures GetImmutableFlag(Some(out)).None? <==> |out| < 5
    ensures GetImmutableFlag(Some(out)) == Some(1) <==> |out| >= 5 && out[4] == 'i'
  {
  }

  /** SetImmutableFlag's `ifDiff` test: skip when the flag printed in
      decimal equals the recorded mode. */
  predicate IfDiffSkips(flag: int, currentMode: string)
  {
    Itoa(flag) == currentMode
  }

  /** Mode "0" (read-only) goes with the immutable flag 1 and mode "1"
      with flag 0; the `ifDiff` test skips exactly when the path does NOT
      match the recorded mode, and goes ahead when it does. */
  lemma IfDiffSkipsOnMismatch(immutableNow: bool, mode: string)
    requires mode == "0" || mode == "1"
    ensures IfDiffSkips(if immutableNow then 1 else 0, mode) <==> !(immutableNow <==> mode == "0")
  {
    assert Itoa(0) == "0" && Itoa(1) == "1";
  }

  // ---- Changing the attribute ----------------------------------------------

  /** The immutable set after SetImmutableFlag's loop changed `files`,
      except those whose attribute could not be changed: state 0 sets the
      flag, any other state clears it. */
  function Flip(imm: set<string>, files: seq<string>, failing: set<string>, state: int): (r: set<string>)
    ensures forall f :: f in files && f !in failing ==> (f in r <==> state == 0)
    ensures forall f :: f !in files || f in failing ==> (f in r <==> f in imm)
  {
    var hit := set f | f in files && f !in failing;
    if state == 0 then imm + hit else imm - hit
  }

  /** The immutable set after SetImmutableFlag ran on each of `paths` in order. */
  function FlipAll(imm: set<string>, entries: Listing, paths: seq<string>, failing: set<string>, state: int)
    : (r: set<string>)
    ensures state == 0 ==> imm <= r
    ensures state != 0 ==> r <= imm
  {
    if paths == [] then imm
    else Flip(FlipAll(imm, entries, paths[..|paths| - 1], failing, state), Glob(entries, paths[|paths| - 1]), failing, state)
  }

  /** `f` is an entry of one of `paths`. */
  predicate Managed(entries: Listing, paths: seq<string>, f: string)
  {
    exists i :: 0 <= i < |paths| && f in Glob(entries, paths[i])
  }

  /** Walking the managed paths gives every entry whose attribute can be
      changed the state's flag, and leaves every other path as it was. */
  lemma {:induction false} FlipAllEffect(imm: set<string>, entries: Listing, paths: seq<string>,
                                         failing: set<string>, state: int, f: string)
    ensures Managed(entries, paths, f) && f !in failing ==>
      (f in FlipAll(imm, entries, paths, failing, state) <==> state == 0)
    ensures !Managed(entries, paths, f) || f in failing ==>
      (f in FlipAll(imm, entries, paths, failing, state) <==> f in imm)
  {
    if paths != [] {
      var p := paths[..|paths| - 1];
      FlipAllEffect(imm, entries, p, failing, state, f);
      if Managed(entries, p, f) {
        var i :| 0 <= i < |p| && f in Glob(entries, p[i]);
        assert paths[i] == p[i];
      }
      if Managed(entries, paths, f) && !Managed(entries, p, f) {
        var i :| 0 <= i < |paths| && f in Glob(entries, paths[i]);
        assert i == |paths| - 1;
      }
      if !Managed(entries, paths, f) {
        assert f !in Glob(entries, paths[|paths| - 1]);
        forall i | 0 <= i < |p| ensures f !in Glob(entries, p[i]) {
          assert p[i] == paths[i];
        }
      }
    }
  }

  /** Entering a mode twice is entering it once. */
  lemma FlipAllIdempotent(imm: set<string>, entries: Listing, paths: seq<string>, failing: set<string>, state: int)
    ensures var once := FlipAll(imm, entries, paths, failing, state);
      FlipAll(once, entries, paths, failing, state) == once
  {
    var once := FlipAll(imm, entries, paths, failing, state);
    forall f ensures f in FlipAll(once, entries, paths, failing, state) <==> f in once {
      FlipAllEffect(imm, entries, paths, failing, state, f);
      FlipAllEffect(once, entries, paths, failing, state, f);
    }
  }

  /** The last mode entered wins: read-only after read-write is the same
      as read-only straight away. */
  lemma FlipAllLastWins(imm: set<string>, entries: Listing, paths: seq<string>, failing: set<string>, s1: int, s2: int)
    ensures FlipAll(FlipAll(imm, entries, paths, failing, s1), entries, paths, failing, s2)
         == FlipAll(imm, entries, paths, failing, s2)
  {
    var mid := FlipAll(imm, entries, paths, failing, s1);
    forall f ensures f in FlipAll(mid, entries, paths, failing, s2) <==> f in FlipAll(imm, entries, paths, failing, s2) {
      FlipAllEffect(imm, entries, paths, failing, s1, f);
      FlipAllEffect(mid, entries, paths, failing, s2, f);
      FlipAllEffect(imm, entries, paths, failing, s2, f);
    }
  }

  // ---- Choosing the default mode -------------------------------------------

  datatype Action = EnterReadOnly | EnterReadWrite | KeepMode

  /** EnterDefault's decision: at shutdown (`onPersistent`) a staged
      offline update or upgrade forces read-write and a disabled
      persistent mode (`PersistModeStatus` "1") keeps the mode; otherwise
      `DefaultMode` "0" means read-only and anything else read-write. */
  function DefaultAction(onPersistent: bool, updatePrepared: bool, upgradePrepared: bool,
                         persistMode: string, defaultMode: string): (r: Action)
    ensures r == KeepMode <==> onPersistent && !updatePrepared && !upgradePrepared && persistMode == "1"
  {
    if onPersistent && (updatePrepared || upgradePrepared) then EnterReadWrite
    else if onPersistent && persistMode == "1" then KeepMode
    else if defaultMode == "0" then EnterReadOnly
    else EnterReadWrite
  }

  /** A staged update or upgrade at shutdown unlocks, whatever the configuration says. */
  lemma StagedUpdateUnlocks(updatePrepared: bool, upgradePrepared: bool, persistMode: string, defaultMode: string)
    requires updatePrepared || upgradePrepared
    ensures DefaultAction(true, updatePrepared, upgradePrepared, persistMode, defaultMode) == EnterReadWrite
  {
  }

  /** Outside those cases only `DefaultMode` "0" locks; an unset or any
      other value unlocks. */
  lemma OnlyZeroLocks(onPersistent: bool, updatePrepared: bool, upgradePrepared: bool,
                      persistMode: string, defaultMode: string)
    ensures DefaultAction(onPersistent, updatePrepared, upgradePrepared, persistMode, defaultMode) == EnterReadOnly
      <==> defaultMode == "0" && !(onPersistent && (updatePrepared || upgradePrepared || persistMode == "1"))
  {
  }

  // ---- The component -------------------------------------------------------

  class LockController {
    var config: Config
    /** Paths whose immutable attribute is set. */
    var immutable: set<string>
    /** The directory listings the glob reads; the controller never changes them. */
    var entries: Listing

    constructor (config0: Config, immutable0: set<string>, entries0: Listing)
      ensures config == config0 && immutable == immutable0 && entries == entries0
    {
      config, immutable, entries := config0, immutable0, entries0;
    }

    /** SetImmutableFlag: unless the `ifDiff` test skips, set (state 0) or
        clear (other states) the attribute of every entry of `path`;
        entries in `failing` cannot be opened or changed and are passed
        over.  `lsattr` is the output of `lsattr <path>`, read only when
        `ifDiff` is set. */
    method SetImmutableFlag(path: string, state: int, ifDiff: bool, lsattr: Option<string>, failing: set<string>)
      returns (r: Outcome)
      modifies this`immutable
      ensures r == Ok || r == Crash
      ensures r == Crash <==> ifDiff && GetImmutableFlag(lsattr).None?
      ensures var flag := GetImmutableFlag(lsattr);
        immutable == if ifDiff && (flag.None? || IfDiffSkips(flag.value, Get(config, CurrentModeKey)))
                     then old(immutable)
                     else Flip(old(immutable), Glob(entries, path), failing, state)
    {
      if ifDiff {
        var current := GetImmutableFlag(lsattr);
        if current.None? {
          return Crash;
        }
        var currentConfig := Get(config, CurrentModeKey);
        if Itoa(current.value) == currentConfig {
          return Ok;
        }
      }
      var files := Glob(entries, path);
      ghost var imm0 := immutable;
      for i := 0 to |files|
        invariant immutable == Flip(imm0, files[..i], failing, state)
      {
        assert files[..i + 1] == files[..i] + [files[i]];
        if files[i] !in failing {
          if state == 0 {
            immutable := immutable + {files[i]};
          } else {
            immutable := immutable - {files[i]};
          }
        }
      }
      assert files[..|files|] == files;
      r := Ok;
    }

    /** The loop EnterRo and EnterRw share: SetImmutableFlag on each
        managed path in order, without `ifDiff`. */
    method ApplyToManagedPaths(state: int, failing: set<string>)
      modifies this`immutable
      ensures immutable == FlipAll(old(immutable), entries, ManagedPaths, failing, state)
    {
      for i := 0 to |ManagedPaths|
        invariant immutable == FlipAll(old(immutable), entries, ManagedPaths[..i], failing, state)
      {
        assert ManagedPaths[..i + 1][..i] == ManagedPaths[..i];
        var _ := SetImmutableFlag(ManagedPaths[i], state, false, None, failing);
      }
      assert ManagedPaths[..|ManagedPaths|] == ManagedPaths;
    }

    /** `Set(key, value)`; a failure to load or write the file is ignored. */
    method SetConfig(key: string, value: string, saveOk: bool)
      modifies this`config
      ensures config == if saveOk then old(config)[key := value] else old(config)
    {
      if saveOk {
        config := config[key := value];
      }
    }

    /** EnterRo: as root, lock every managed path, then record mode "0". */
    method EnterRo(isRoot: bool, failing: set<string>, saveOk: bool) returns (r: Outcome)
      modifies this`immutable, this`config
      ensures r == Ok
      ensures immutable == if isRoot then FlipAll(old(immutable), entries, ManagedPaths, failing, 0) else old(immutable)
      ensures config == if isRoot && saveOk then old(config)[CurrentModeKey := "0"] else old(config)
    {
      if !isRoot {
        return Ok;
      }
      ApplyToManagedPaths(0, failing);
      SetConfig(CurrentModeKey, "0", saveOk);
      r := Ok;
    }

    /** EnterRw: as root, unlock every managed path, then record mode "1". */
    method EnterRw(isRoot: bool, failing: set<string>, saveOk: bool) returns (r: Outcome)
      modifies this`immutable, this`config
      ensures r == Ok
      ensures immutable == if isRoot then FlipAll(old(immutable), entries, ManagedPaths, failing, 1) else old(immutable)
      ensures config == if isRoot && saveOk then old(config)[CurrentModeKey := "1"] else old(config)
    {
      if !isRoot {
        return Ok;
      }
      ApplyToManagedPaths(1, failing);
      SetConfig(CurrentModeKey, "1", saveOk);
      r := Ok;
    }

    /** EnterDefault: as root, enter the mode DefaultAction picks from the
        configuration and the two PackageKit answers. */
    method EnterDefault(isRoot: bool, onPersistent: bool, updatePrepared: bool, upgradePrepared: bool,
                        failing: set<string>, saveOk: bool) returns (r: Outcome)
      modifies this`immutable, this`config
      ensures r == Ok
      ensures var action := DefaultAction(onPersistent, updatePrepared, upgradePrepared,
                                          Get(old(config), PersistModeKey), Get(old(config), DefaultModeKey));
        && (!isRoot || action == KeepMode ==> immutable == old(immutable) && config == old(config))
        && (isRoot && action == EnterReadOnly ==>
              immutable == FlipAll(old(immutable), entries, ManagedPaths, failing, 0)
              && config == if saveOk then old(config)[CurrentModeKey := "0"] else old(config))
        && (isRoot && action == EnterReadWrite ==>
              immutable == FlipAll(old(immutable), entries, ManagedPaths, failing, 1)
              && config == if saveOk then old(config)[CurrentModeKey := "1"] else old(config))
    {
      if !isRoot {
        return Ok;
      }
      var confDefault := Get(config, DefaultModeKey);
      var confPersist := Get(config, PersistModeKey);
      if onPersistent {
        if updatePrepared || upgradePrepared {
          r := EnterRw(isRoot, failing, saveOk);
          return;
        }
        if confPersist == "1" {
          return Ok;
        }
      }
      if confDefault == "0" {
        var _ := EnterRo(isRoot, failing, saveOk);
      } else {
        var _ := EnterRw(isRoot, failing, saveOk);
      }
      r := Ok;
    }
  }
}
