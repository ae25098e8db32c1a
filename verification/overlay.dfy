/** The ephemeral overlay catalogue of core/overlay.go: a directory of the
    system is overlaid by an overlayfs mount whose upper and work
    directories live in a fresh work directory under `/etc/almost/overlays`,
    and a SQLite table keyed by the original path records which work
    directory belongs to which path. */
module Overlay {

  import opened Outcomes
  import opened Mounts

  const OverlaysPath: string := "/etc/almost/overlays"

  datatype Kind = File | Directory

  /** One row of the `overlays` table; the original path is its primary
      key, so the catalogue is a map from original path to row. */
  datatype Row = Row(workdir: string, timestamp: string, persist: int)

  type Catalog = map<string, Row>

  /** The file system: every existing path and what it is. */
  type FileSystem = map<string, Kind>

  /** The syscalls and library calls that can fail on their own. */
  datatype Step =
    | MkdirOverlays | MkdirWorkDir | MkdirUpper | MkdirLower | MkdirWork
    | MountOverlay | Unmount | UnmountDetach | CopyTree | RemoveWorkDir

  function WorkDir(uuid: string): string
  {
    OverlaysPath + "/" + uuid
  }

  /** The work directory and the three directories OverlayAdd makes in it,
      in the order it makes them. */
  function Subdirs(wd: string): seq<string>
  {
    [wd, wd + "/upper", wd + "/lower", wd + "/work"]
  }

  /** The data of the overlayfs mount OverlayAdd makes over `path`. */
  function OverlayOptions(path: string, wd: string): string
  {
    "lowerdir=" + path + ",upperdir=" + wd + "/upper,workdir=" + wd + "/work"
  }

  /** `p` lies strictly inside directory `dir`. */
  predicate Under(p: string, dir: string)
  {
    |p| > |dir| && p[..|dir| + 1] == dir + "/"
  }

  /** `os.MkdirAll(p)` succeeds unless a file is in the way. */
  predicate MkdirAllOk(fs: FileSystem, p: string)
  {
    p !in fs || fs[p] == Directory
  }

  /** `os.Mkdir(wd)` succeeds when `wd` is new and the overlays directory exists. */
  predicate MkdirOk(fs: FileSystem, wd: string)
  {
    wd !in fs && OverlaysPath in fs && fs[OverlaysPath] == Directory
  }

  /** The file system with the directories `ps` made, in order. */
  function AddDirs(fs: FileSystem, ps: seq<string>): (r: FileSystem)
    ensures forall p :: p in ps ==> p in r && r[p] == Directory
    ensures forall p :: p in r ==> p in fs || p in ps
    ensures forall p :: p in fs && p !in ps ==> p in r && r[p] == fs[p]
  {
    if ps == [] then fs else AddDirs(fs, ps[..|ps| - 1])[ps[|ps| - 1] := Directory]
  }

  /** How many of Subdirs(wd) OverlayAdd creates before a step fails. */
  function DirsMade(fs: FileSystem, wd: string, fails: set<Step>): (n: nat)
    ensures n <= 4
  {
    if MkdirWorkDir in fails || !MkdirOk(fs, wd) then 0
    else if MkdirUpper in fails || !MkdirAllOk(fs, wd + "/upper") then 1
    else if MkdirLower in fails || !MkdirAllOk(fs, wd + "/lower") then 2
    else if MkdirWork in fails || !MkdirAllOk(fs, wd + "/work") then 3
    else 4
  }

  /** OverlayAdd gets past its two checks: the path exists and is not
      catalogued, or `force` is set. */
  predicate Proceeds(fs: FileSystem, catalog: Catalog, path: string, force: bool)
  {
    path in fs && (path !in catalog || force)
  }

  /** OverlayAdd gets its overlay mounted: the four directories are made
      and the mount succeeds. */
  predicate GetsMounted(fs: FileSystem, wd: string, fails: set<Step>)
  {
    DirsMade(fs, wd, fails) == 4 && MountOverlay !in fails
  }

  /** The step behind each of Subdirs(wd). */
  const MkdirSteps: seq<Step> := [MkdirWorkDir, MkdirUpper, MkdirLower, MkdirWork]

  /** Past the work directory, OverlayAdd makes one more directory exactly
      when its step succeeds and no file is in the way. */
  lemma DirsMadeNext(fs: FileSystem, wd: string, fails: set<Step>, n: nat)
    requires 1 <= n < 4 && n <= DirsMade(fs, wd, fails)
    ensures DirsMade(fs, wd, fails) > n <==> MkdirSteps[n] !in fails && MkdirAllOk(fs, Subdirs(wd)[n])
  {
  }

  /** The file system after `os.RemoveAll(dir)`. */
  function RemoveTree(fs: FileSystem, dir: string): (r: FileSystem)
    ensures dir !in r
    ensures forall p :: p in r ==> p in fs && r[p] == fs[p] && !Under(p, dir)
    ensures forall p :: p in fs && p != dir && !Under(p, dir) ==> p in r
  {
    map p | p in fs && p != dir && !Under(p, dir) :: fs[p]
  }

  /** What OverlayList reads from the catalogue. */
  function Listing(catalog: Catalog): (r: map<string, string>)
    ensures r.Keys == catalog.Keys
    ensures forall k :: k in r ==> r[k] == catalog[k].workdir
  {
    map k | k in catalog :: catalog[k].workdir
  }

  /** The catalogue after removeOrphanOverlays: the rows whose work
      directory is gone are dropped. */
  function Pruned(catalog: Catalog, fs: FileSystem): (r: Catalog)
    ensures forall k :: k in r <==> k in catalog && catalog[k].workdir in fs
    ensures forall k :: k in r ==> r[k] == catalog[k]
  {
    map k | k in catalog && catalog[k].workdir in fs :: catalog[k]
  }

  /** Whether OverlayRemove gets the overlay unmounted: something is
      mounted there and the plain or the detaching unmount succeeds. */
  predicate Unmounted(mounts: seq<Mount>, path: string, fails: set<Step>)
  {
    MountedAt(mounts, path) && (Unmount !in fails || UnmountDetach !in fails)
  }

  // ---- Properties of the bookkeeping ---------------------------------------

  /** The four directories OverlayAdd creates are distinct and lie in the
      work directory's tree. */
  lemma SubdirsInTree(wd: string)
    ensures forall p :: p in Subdirs(wd) ==> p == wd || Under(p, wd)
    ensures forall i, j :: 0 <= i < j < 4 ==> Subdirs(wd)[i] != Subdirs(wd)[j]
  {
    var ps := Subdirs(wd);
    assert ps[1][..|wd| + 1] == wd + "/";
    assert ps[2][..|wd| + 1] == wd + "/";
    assert ps[3][..|wd| + 1] == wd + "/";
    assert ps[1][|wd| + 1] == 'u' && ps[2][|wd| + 1] == 'l' && ps[3][|wd| + 1] == 'w';
  }

  /** Removing a fresh work directory's tree undoes creating it: when
      nothing existed at or below `wd`, OverlayRemove's `os.RemoveAll`
      gives back the file system OverlayAdd started from, whatever
      prefix of the four directories was made. */
  lemma RemoveTreeUndoesAddDirs(fs: FileSystem, wd: string, n: nat)
    requires n <= 4
    requires wd !in fs && forall p :: p in fs ==> !Under(p, wd)
    ensures RemoveTree(AddDirs(fs, Subdirs(wd)[..n]), wd) == fs
  {
    SubdirsInTree(wd);
    var ps := Subdirs(wd)[..n];
    var r := RemoveTree(AddDirs(fs, ps), wd);
    forall p | p in ps ensures p == wd || Under(p, wd) {
      assert p in Subdirs(wd);
    }
    assert forall p :: p in r <==> p in fs;
  }

  /** Once `os.Mkdir` of the work directory succeeded, the directory stays
      behind whatever fails next, the mount included. */
  lemma WorkDirLeftBehind(fs: FileSystem, wd: string, fails: set<Step>)
    requires DirsMade(fs, wd, fails) >= 1
    ensures wd !in fs
    ensures var after := AddDirs(fs, Subdirs(wd)[..DirsMade(fs, wd, fails)]);
      wd in after && after[wd] == Directory
  {
    assert Subdirs(wd)[..DirsMade(fs, wd, fails)][0] == wd;
  }

  /** A row that removeOrphanOverlays keeps is kept on every later run:
      pruning twice is pruning once. */
  lemma PrunedIdempotent(catalog: Catalog, fs: FileSystem)
    ensures Pruned(Pruned(catalog, fs), fs) == Pruned(catalog, fs)
  {
  }

  /** A row registered by a successful OverlayAdd survives reconciliation,
      because its work directory exists. */
  lemma FreshRowNotOrphan(catalog: Catalog, fs: FileSystem, path: string, wd: string, now: string)
    requires Pruned(catalog, fs) == catalog
    ensures Pruned(catalog[path := Row(wd, now, 0)], AddDirs(fs, Subdirs(wd))) == catalog[path := Row(wd, now, 0)]
  {
    var fs' := AddDirs(fs, Subdirs(wd));
    assert wd in Subdirs(wd);
    forall k | k in catalog ensures catalog[k].workdir in fs' {
      assert k in Pruned(catalog, fs);
    }
  }

  /** Registering a row and removing it again gives back the catalogue,
      and the listing gains exactly the new pair. */
  lemma RegisterThenRemove(catalog: Catalog, path: string, wd: string, now: string)
    requires path !in catalog
    ensures catalog[path := Row(wd, now, 0)] - {path} == catalog
    ensures Listing(catalog[path := Row(wd, now, 0)]) == Listing(catalog)[path := wd]
  {
  }

  // ---- The component -------------------------------------------------------

  class OverlayManager {
    var catalog: Catalog
    var fs: FileSystem
    /** Overlay mounts, oldest first. */
    var mounts: seq<Mount>
    /** Every `copy.Copy` performed, as (source, destination), oldest first. */
    var copies: seq<(string, string)>

    constructor (catalog0: Catalog, fs0: FileSystem, mounts0: seq<Mount>)
      ensures catalog == catalog0 && fs == fs0 && mounts == mounts0 && copies == []
    {
      catalog, fs, mounts, copies := catalog0, fs0, mounts0, [];
    }

    /** The package's `init`: as root, make the overlays directory when it
        is missing (a failure is ignored), then drop orphan rows. */
    method Init(isRoot: bool, dbOk: bool, fails: set<Step>)
      modifies this
      ensures !isRoot ==> fs == old(fs) && catalog == old(catalog)
      ensures isRoot ==> fs == (if OverlaysPath !in old(fs) && MkdirOverlays !in fails
                                then old(fs)[OverlaysPath := Directory] else old(fs))
      ensures isRoot ==> catalog == (if dbOk then Pruned(old(catalog), fs) else old(catalog))
      ensures mounts == old(mounts) && copies == old(copies)
    {
      if !isRoot {
        return;
      }
      if OverlaysPath !in fs && MkdirOverlays !in fails {
        fs := fs[OverlaysPath := Directory];
      }
      RemoveOrphanOverlays(dbOk);
    }

    /** overlayCheck: whether the catalogue has a row for `path`. */
    method OverlayCheck(path: string) returns (overlayed: bool)
      ensures overlayed <==> path in catalog
    {
      overlayed := path in catalog;
    }

    /** registerOverlay: insert a row; an existing key violates the
        primary key and the process exits. */
    method RegisterOverlay(path: string, wd: string, now: string) returns (r: Outcome)
      modifies this`catalog
      ensures path in old(catalog) ==> r == Crash && catalog == old(catalog)
      ensures path !in old(catalog) ==> r == Ok && catalog == old(catalog)[path := Row(wd, now, 0)]
    {
      if path in catalog {
        return Crash;
      }
      catalog := catalog[path := Row(wd, now, 0)];
      r := Ok;
    }

    /** removeOverlay: delete the row for `path`, if any. */
    method RemoveOverlay(path: string)
      modifies this`catalog
      ensures catalog == old(catalog) - {path}
    {
      catalog := catalog - {path};
    }

    /** OverlayList: the catalogue as original -> work directory, empty
        when the database cannot be opened or queried. */
    method OverlayList(dbOk: bool) returns (overlays: map<string, string>)
      ensures overlays == if dbOk then Listing(catalog) else map[]
    {
      overlays := map[];
      if !dbOk {
        return;
      }
      var rows := catalog.Keys;
      while rows != {}
        invariant rows <= catalog.Keys
        invariant overlays.Keys == catalog.Keys - rows
        invariant forall k :: k in overlays ==> overlays[k] == catalog[k].workdir
        decreases rows
      {
        var original :| original in rows;
        overlays := overlays[original := catalog[original].workdir];
        rows := rows - {original};
      }
    }

    /** removeOrphanOverlays: delete every row whose work directory no
        longer exists. */
    method RemoveOrphanOverlays(dbOk: bool)
      modifies this`catalog
      ensures catalog == if dbOk then Pruned(old(catalog), fs) else old(catalog)
    {
      var overlays := OverlayList(dbOk);
      var todo := overlays.Keys;
      while todo != {}
        invariant todo <= overlays.Keys
        invariant forall k :: k in catalog <==> k in old(catalog) && (k in todo || k !in overlays || overlays[k] in fs)
        invariant forall k :: k in catalog ==> catalog[k] == old(catalog)[k]
        decreases todo
      {
        var original :| original in todo;
        if overlays[original] !in fs {
          RemoveOverlay(original);
        }
        todo := todo - {original};
      }
    }

    /** copyDir: copy a directory tree; the source must exist and be a directory. */
    method CopyDir(src: string, dst: string, fails: set<Step>) returns (r: Outcome)
      modifies this`copies
      ensures src !in fs ==> r == Fail(NotExist)
      ensures src in fs && fs[src] == File ==> r == Fail(NotADirectory)
      ensures src in fs && fs[src] == Directory ==> r == (if CopyTree in fails then Fail(StepFailed) else Ok)
      ensures copies == old(copies) + (if r == Ok then [(src, dst)] else [])
    {
      if src !in fs {
        return Fail(NotExist);
      }
      if fs[src] != Directory {
        return Fail(NotADirectory);
      }
      if CopyTree in fails {
        return Fail(StepFailed);
      }
      copies := copies + [(src, dst)];
      r := Ok;
    }

    /** OverlayAdd's `os.Mkdir` of the work directory and its loop of
        `os.MkdirAll` over `upper`, `lower` and `work`, stopping at the
        first failure. */
    method MakeWorkDir(wd: string, fails: set<Step>) returns (made: nat)
      modifies this`fs
      ensures made == DirsMade(old(fs), wd, fails)
      ensures fs == AddDirs(old(fs), Subdirs(wd)[..made])
    {
      var ps := Subdirs(wd);
      SubdirsInTree(wd);
      if MkdirWorkDir in fails || !MkdirOk(fs, wd) {
        assert ps[..0] == [];
        return 0;
      }
      ghost var fs0 := fs;
      fs := fs[wd := Directory];
      assert fs == AddDirs(fs0, ps[..1]) by { assert ps[..1][..0] == []; }
      made := 1;
      while made < 4
        invariant 1 <= made <= 4 && made <= DirsMade(fs0, wd, fails)
        invariant fs == AddDirs(fs0, ps[..made])
      {
        var sub := ps[made];
        var step := MkdirSteps[made];
        assert sub !in ps[..made];
        DirsMadeNext(fs0, wd, fails, made);
        if step in fails || !MkdirAllOk(fs, sub) {
          return;
        }
        assert ps[..made + 1][..made] == ps[..made];
        fs := fs[sub := Directory];
        made := made + 1;
      }
    }

    /** OverlayAdd: overlay `path` with a fresh work directory named by
        `uuid`, then record it in the catalogue. */
    method OverlayAdd(path: string, force: bool, uuid: string, now: string, fails: set<Step>)
      returns (r: Outcome)
      modifies this
      ensures copies == old(copies)
      ensures path !in old(fs) ==> r == Fail(NotExist)
      ensures path in old(fs) && path in old(catalog) && !force ==> r == Fail(AlreadyOverlayed)
      ensures !Proceeds(old(fs), old(catalog), path, force) ==>
        fs == old(fs) && catalog == old(catalog) && mounts == old(mounts)
      ensures Proceeds(old(fs), old(catalog), path, force) ==>
        fs == AddDirs(old(fs), Subdirs(WorkDir(uuid))[..DirsMade(old(fs), WorkDir(uuid), fails)])
      ensures Proceeds(old(fs), old(catalog), path, force) && !GetsMounted(old(fs), WorkDir(uuid), fails) ==>
        r == Fail(StepFailed) && mounts == old(mounts) && catalog == old(catalog)
      ensures Proceeds(old(fs), old(catalog), path, force) && GetsMounted(old(fs), WorkDir(uuid), fails) ==>
        mounts == old(mounts) + [Mount(path, OverlayOptions(path, WorkDir(uuid)))]
      ensures Proceeds(old(fs), old(catalog), path, force) && GetsMounted(old(fs), WorkDir(uuid), fails) ==>
        if path in old(catalog) then r == Crash && catalog == old(catalog)
        else r == Ok && catalog == old(catalog)[path := Row(WorkDir(uuid), now, 0)]
    {
      if path !in fs {
        return Fail(NotExist);
      }
      var overlayed := OverlayCheck(path);
      if overlayed && !force {
        return Fail(AlreadyOverlayed);
      }
      var wd := WorkDir(uuid);
      assert Proceeds(old(fs), old(catalog), path, force);
      var made := MakeWorkDir(wd, fails);
      if made < 4 {
        return Fail(StepFailed);
      }
      if MountOverlay in fails {
        return Fail(StepFailed);
      }
      mounts := mounts + [Mount(path, OverlayOptions(path, wd))];
      r := RegisterOverlay(path, wd, now);
    }

    /** OverlayRemove: unmount the overlay over `path` (retrying with a
        lazy detach), forget its row, copy its upper directory back onto
        `path` when `keep` is set, and delete its work directory. */
    method OverlayRemove(path: string, keep: bool, fails: set<Step>) returns (r: Outcome)
      modifies this
      ensures path !in old(catalog) ==> r == Fail(NotOverlayed)
      ensures path in old(catalog) && !Unmounted(old(mounts), path, fails) ==> r == Fail(StepFailed)
      ensures path !in old(catalog) || !Unmounted(old(mounts), path, fails) ==>
        fs == old(fs) && catalog == old(catalog) && mounts == old(mounts) && copies == old(copies)
      ensures path in old(catalog) && Unmounted(old(mounts), path, fails) ==>
        var wd := old(catalog)[path].workdir;
        var copied := keep && wd + "/upper" in old(fs) && CopyTree !in fails;
        && mounts == UnmountTop(old(mounts), path)
        && catalog == old(catalog) - {path}
        && copies == old(copies) + (if copied then [(wd + "/upper", path)] else [])
        && fs == (if (!keep || copied) && RemoveWorkDir !in fails then RemoveTree(old(fs), wd) else old(fs))
        && r == (if (!keep || copied) && RemoveWorkDir !in fails then Ok else Fail(StepFailed))
    {
      var overlayed := OverlayCheck(path);
      if !overlayed {
        return Fail(NotOverlayed);
      }
      var wd := catalog[path].workdir;
      if !MountedAt(mounts, path) || (Unmount in fails && UnmountDetach in fails) {
        return Fail(StepFailed);
      }
      mounts := UnmountTop(mounts, path);
      RemoveOverlay(path);
      if keep {
        if wd + "/upper" !in fs || CopyTree in fails {
          return Fail(StepFailed);
        }
        copies := copies + [(wd + "/upper", path)];
      }
      if RemoveWorkDir in fails {
        return Fail(StepFailed);
      }
      fs := RemoveTree(fs, wd);
      r := Ok;
    }
  }
}
