/** The persistent state-layering engine: numbered state directories under
    `/var/almost/states`, each holding a `data` (upper) and `temp` (work)
    directory, stacked as overlayfs layers over `/usr`; retired states are
    moved to `/var/almost/trash`.  The boot-time `usr.mount` unit carries
    the layer stack in its `Options=` line (systemd.mount(5)). */
module StateOverlay {

  import opened Outcomes
  import opened Decimal
  import opened Mounts
  import LexOrder

  const SourcePath: string := "/usr"
  const StatesPath: string := "/var/almost/states"
  const TrashPath: string := "/var/almost/trash"

  /** What a directory entry is: a plain file, or a directory with the
      names of its subdirectories. */
  datatype Node = File | Dir(children: set<string>)

  datatype Entry = Entry(name: string, node: Node)

  /** A state area: `Some(entries)`, sorted by name as `os.ReadDir`
      returns them, or `None` when the directory does not exist. */
  type Area = Option<seq<Entry>>

  /** The syscalls, exec calls and file writes of the engine.  Each call
      takes the set of steps that fail this time. */
  datatype Step =
    | MkdirStates | MkdirState | MkdirData | MkdirTemp | MountState
    | RemoveTrash | MkdirTrash | UnmountState | RenameState
    | WriteUnit | DaemonReload | EnableUnit

  function Entries(a: Area): seq<Entry>
  {
    if a.Some? then a.value else []
  }

  predicate UniqueNames(es: seq<Entry>)
  {
    forall i, j :: 0 <= i < j < |es| ==> es[i].name != es[j].name
  }

  /** Entry names strictly increasing in Go's string order: the order
      `os.ReadDir` sorts a directory's entries into. */
  predicate SortedNames(es: seq<Entry>)
  {
    forall i, j :: 0 <= i < j < |es| ==> LexOrder.Less(es[i].name, es[j].name)
  }

  predicate AreaValid(a: Area)
  {
    a.Some? ==> SortedNames(a.value)
  }

  /** A directory never holds two entries with the same name. */
  lemma SortedNamesUnique(es: seq<Entry>)
    requires SortedNames(es)
    ensures UniqueNames(es)
  {
    forall i, j | 0 <= i < j < |es| ensures es[i].name != es[j].name {
      LexOrder.LessIrreflexive(es[i].name);
    }
  }

  /** An entry StateList keeps: a directory whose name `strconv.Atoi` accepts. */
  predicate IsStateEntry(e: Entry)
  {
    e.node.Dir? && Atoi(e.name).Some?
  }

  /** The names StateList collects from a listing, in listing order. */
  function StateNames(es: seq<Entry>): (r: seq<string>)
    ensures |r| <= |es|
    ensures forall k :: 0 <= k < |r| ==> Atoi(r[k]).Some?
  {
    if es == [] then []
    else
      var p := es[..|es| - 1];
      var last := es[|es| - 1];
      StateNames(p) + (if IsStateEntry(last) then [last.name] else [])
  }

  /** Every collected name is the name of a state entry of the listing. */
  lemma {:induction false} StateNameSource(es: seq<Entry>, k: nat) returns (i: nat)
    requires k < |StateNames(es)|
    ensures i < |es| && IsStateEntry(es[i]) && es[i].name == StateNames(es)[k]
  {
    var p := es[..|es| - 1];
    if k < |StateNames(p)| {
      i := StateNameSource(p, k);
      assert es[i] == p[i];
    } else {
      i := |es| - 1;
    }
  }

  /** Conversely, the name of every state entry is collected. */
  lemma {:induction false} StateNamesContain(es: seq<Entry>, i: nat)
    requires i < |es| && IsStateEntry(es[i])
    ensures es[i].name in StateNames(es)
  {
    var p := es[..|es| - 1];
    if i < |es| - 1 {
      StateNamesContain(p, i);
      assert p[i] == es[i];
    }
  }

  /** Filtering a listing in two parts is filtering it whole: StateList
      keeps the relative order of the entries it keeps. */
  lemma {:induction false} StateNamesAppend(a: seq<Entry>, b: seq<Entry>)
    ensures StateNames(a + b) == StateNames(a) + StateNames(b)
  {
    if b != [] {
      assert (a + b)[..|a + b| - 1] == a + b[..|b| - 1];
      StateNamesAppend(a, b[..|b| - 1]);
    } else {
      assert a + b == a;
    }
  }

  /** No name collected from the listing without its last entry is that
      entry's name, when names do not repeat. */
  lemma LastNameIsNew(es: seq<Entry>)
    requires UniqueNames(es) && es != []
    ensures es[|es| - 1].name !in StateNames(es[..|es| - 1])
  {
    var p := es[..|es| - 1];
    var names := StateNames(p);
    forall k | 0 <= k < |names| ensures names[k] != es[|es| - 1].name {
      var j := StateNameSource(p, k);
      assert p[j] == es[j];
    }
  }

  /** In a listing without repeated names, a name is collected exactly when
      its entry is a directory with an integer name. */
  lemma {:induction false} StateNamesExactly(es: seq<Entry>, i: nat)
    requires UniqueNames(es) && i < |es|
    ensures es[i].name in StateNames(es) <==> IsStateEntry(es[i])
  {
    var p := es[..|es| - 1];
    assert UniqueNames(p);
    if i < |es| - 1 {
      StateNamesExactly(p, i);
      assert p[i] == es[i];
      assert es[i].name != es[|es| - 1].name;
    } else {
      LastNameIsNew(es);
    }
  }

  /** Names collected from a listing without repeats are themselves distinct. */
  lemma {:induction false} StateNamesDistinct(es: seq<Entry>)
    requires UniqueNames(es)
    ensures LexOrder.Distinct(StateNames(es))
  {
    if es != [] {
      var p := es[..|es| - 1];
      assert UniqueNames(p);
      StateNamesDistinct(p);
      LastNameIsNew(es);
    }
  }

  /** Collecting from a listing that starts with `x`. */
  lemma StateNamesCons(x: Entry, s: seq<Entry>)
    ensures StateNames([x] + s) == (if IsStateEntry(x) then [x.name] else []) + StateNames(s)
  {
    StateNamesAppend([x], s);
    assert [x][..0] == [];
  }

  /** Listing a directory in name order gives the states in strictly
      increasing string order. */
  lemma {:induction false} StateNamesStrict(es: seq<Entry>)
    requires SortedNames(es)
    ensures LexOrder.StrictlySorted(StateNames(es))
  {
    if es != [] {
      var p := es[..|es| - 1];
      var last := es[|es| - 1];
      assert SortedNames(p);
      StateNamesStrict(p);
      var np := StateNames(p);
      forall k | 0 <= k < |np| ensures LexOrder.Less(np[k], last.name) {
        var i := StateNameSource(p, k);
        assert p[i] == es[i];
      }
      var r := StateNames(es);
      forall i, j | 0 <= i < j < |r| ensures LexOrder.Less(r[i], r[j]) {
        if j < |np| {
          assert r[i] == np[i] && r[j] == np[j];
        } else {
          assert r[i] == np[i] && r[j] == last.name;
        }
      }
    }
  }

  /** The `sort.Slice` in StateMountUnitRegenerate changes nothing: the
      states already come out of the listing in string order. */
  lemma ListingAlreadySorted(es: seq<Entry>)
    requires SortedNames(es)
    ensures LexOrder.Sort(StateNames(es)) == StateNames(es)
  {
    var names := StateNames(es);
    StateNamesStrict(es);
    LexOrder.StrictDistinct(names);
    LexOrder.SortStrict(names);
    LexOrder.SortedUnique(LexOrder.Sort(names), names);
  }

  /** `highestId` after StateNextId's loop: the largest value among the
      names that parse, never below its starting value 0. */
  function MaxId(names: seq<string>): (m: int)
    ensures 0 <= m <= MaxInt64
    ensures forall i :: 0 <= i < |names| && Atoi(names[i]).Some? ==> Atoi(names[i]).value <= m
  {
    if names == [] then 0
    else
      var p := names[..|names| - 1];
      var m := MaxId(p);
      var a := Atoi(names[|names| - 1]);
      assert forall i :: 0 <= i < |p| ==> p[i] == names[i];
      if a.Some? && a.value > m then a.value else m
  }

  /** A highest id other than 0 is the id of one of the names. */
  lemma {:induction false} MaxIdAttained(names: seq<string>) returns (i: nat)
    requires MaxId(names) != 0
    ensures i < |names| && Atoi(names[i]) == Some(MaxId(names))
  {
    var p := names[..|names| - 1];
    var a := Atoi(names[|names| - 1]);
    if a.Some? && a.value > MaxId(p) {
      i := |names| - 1;
    } else {
      i := MaxIdAttained(p);
      assert p[i] == names[i];
    }
  }

  /** One more turn of StateNextId's loop. */
  lemma MaxIdSnoc(names: seq<string>, n: string)
    ensures var a := Atoi(n);
      MaxId(names + [n]) == if a.Some? && a.value > MaxId(names) then a.value else MaxId(names)
  {
    assert (names + [n])[..|names|] == names;
  }

  /** What StateNextId returns for the two areas: "0" when either listing
      fails or there is no state, otherwise `highestId + 1` in decimal. */
  function NextId(active: Area, trash: Area): (id: string)
    ensures active.None? || trash.None? || StateNames(active.value) == [] ==> id == "0"
    ensures Atoi(id).Some?
  {
    if active.None? || trash.None? || StateNames(active.value) == [] then "0"
    else
      var n := Next64(MaxId(StateNames(active.value)));
      AtoiItoa(n);
      Itoa(n)
  }

  /** Below the int64 limit, the next id is one more than the highest
      active id, so it is above every active id and is not the name of
      any active directory. */
  lemma NextIdFresh(active: Area, trash: Area)
    requires active.Some? && trash.Some?
    requires StateNames(active.value) != []
    requires MaxId(StateNames(active.value)) < MaxInt64
    ensures Atoi(NextId(active, trash)) == Some(MaxId(StateNames(active.value)) + 1)
    ensures forall k :: 0 <= k < |StateNames(active.value)| ==>
      Atoi(StateNames(active.value)[k]).value < MaxId(StateNames(active.value)) + 1
    ensures forall k :: 0 <= k < |active.value| && active.value[k].node.Dir? ==>
      active.value[k].name != NextId(active, trash)
  {
    var m := MaxId(StateNames(active.value));
    assert NextId(active, trash) == Itoa(m + 1);
    AtoiItoa(m + 1);
    NoDirNamedAbove(active.value, NextId(active, trash));
  }

  /** No directory of a listing bears an id above all its state ids. */
  lemma NoDirNamedAbove(es: seq<Entry>, id: string)
    requires Atoi(id).Some? && Atoi(id).value > MaxId(StateNames(es))
    ensures forall k :: 0 <= k < |es| && es[k].node.Dir? ==> es[k].name != id
  {
    forall k | 0 <= k < |es| && es[k].node.Dir? ensures es[k].name != id {
      if es[k].name == id {
        StateNamesContain(es, k);
      }
    }
  }

  /** The trash contents never influence the next id; only whether the
      trash directory can be listed does. */
  lemma NextIdIgnoresTrashContents(active: Area, t1: seq<Entry>, t2: seq<Entry>)
    ensures NextId(active, Some(t1)) == NextId(active, Some(t2))
    ensures NextId(active, None) == "0"
  {
  }

  /** A state named with the largest int64 makes Go's `highestId+1` wrap:
      the next id is negative. */
  lemma NextIdWraps(active: Area, trash: Area)
    requires active.Some? && trash.Some?
    requires StateNames(active.value) != []
    requires MaxId(StateNames(active.value)) == MaxInt64
    ensures Atoi(NextId(active, trash)) == Some(MinInt64)
  {
    AtoiItoa(MinInt64);
  }

  // ---- Options= of the boot-time mount unit --------------------------------

  function StatePath(id: string): string { StatesPath + "/" + id }

  function DataDir(id: string): string { StatesPath + "/" + id + "/data" }

  function TempDir(id: string): string { StatesPath + "/" + id + "/temp" }

  function DataDirs(ids: seq<string>): (r: seq<string>)
    ensures |r| == |ids| && forall i :: 0 <= i < |ids| ==> r[i] == DataDir(ids[i])
  {
    seq(|ids|, i requires 0 <= i < |ids| => DataDir(ids[i]))
  }

  /** `strings.Join(xs, ":")`: starts with the first element and ends
      with the last. */
  function Join(xs: seq<string>): (r: string)
    ensures xs != [] ==> xs[0] <= r
    ensures xs != [] ==> |xs[|xs| - 1]| <= |r| && r[|r| - |xs[|xs| - 1]|..] == xs[|xs| - 1]
  {
    if xs == [] then ""
    else if |xs| == 1 then xs[0]
    else Join(xs[..|xs| - 1]) + ":" + xs[|xs| - 1]
  }

  /** Joining one more element adds a separator and the element. */
  lemma JoinSnoc(xs: seq<string>, x: string)
    requires xs != []
    ensures Join(xs + [x]) == Join(xs) + ":" + x
  {
    assert (xs + [x])[..|xs|] == xs;
  }

  /** `strings.TrimSuffix(s, suffix)`: a prefix of `s`, which gives `s`
      back with the suffix appended when `s` ended in it. */
  function TrimSuffix(s: string, suffix: string): (r: string)
    ensures r <= s
    ensures |suffix| <= |s| && s[|s| - |suffix|..] == suffix ==> r + suffix == s
    ensures !(|suffix| <= |s| && s[|s| - |suffix|..] == suffix) ==> r == s
  {
    if |suffix| <= |s| && s[|s| - |suffix|..] == suffix then s[..|s| - |suffix|] else s
  }

  lemma TrimColon(s: string)
    ensures TrimSuffix(s + ":", ":") == s
  {
    assert (s + ":")[|s|..] == ":";
    assert (s + ":")[..|s|] == s;
  }

  /** The overlayfs lower-directory chain for a sorted state list: the
      source tree first, then every state's `data` but the last one's. */
  function LowerChain(sorted: seq<string>): (r: seq<string>)
    requires |sorted| > 0
    ensures |r| == |sorted| && r[0] == SourcePath
    ensures forall i :: 0 <= i < |sorted| - 1 ==> r[i + 1] == DataDir(sorted[i])
  {
    [SourcePath] + DataDirs(sorted[..|sorted| - 1])
  }

  /** The overlayfs options both mounts use: the lower directories, then
      the top state's `data` as upper and `temp` as work directory. */
  function MountOptions(lower: string, top: string): (r: string)
    ensures "lowerdir=" + lower + ",upperdir=" <= r
  {
    "lowerdir=" + lower + ",upperdir=" + DataDir(top) + ",workdir=" + TempDir(top)
  }

  /** The `Options=` value StateMountUnitRegenerate writes for the states
      in the order it sorted them: the last state supplies the upper and
      work directories. */
  function UnitOptions(sorted: seq<string>): (r: string)
    requires |sorted| > 0
    ensures |r| > 5 && r[..5] == "auto," && "lowerdir=" + SourcePath <= r[5..]
  {
    var lower := Join(LowerChain(sorted));
    var m := MountOptions(lower, sorted[|sorted| - 1]);
    PrefixUnder("lowerdir=", SourcePath, lower, ",upperdir=", m);
    assert ("auto," + m)[5..] == m;
    "auto," + m
  }

  /** A prefix of `b` stays a prefix of any text that starts with `head`
      followed by `b` and more. */
  lemma PrefixUnder(head: string, a: string, b: string, tail: string, c: string)
    requires a <= b && head + b + tail <= c
    ensures head + a <= c
  {
    assert head + a == (head + b + tail)[..|head| + |a|];
  }

  /** The options of the live mount StateNew makes: only `/usr` below. */
  function LiveOptions(id: string): (r: string)
    ensures "lowerdir=" + SourcePath + "," <= r
  {
    MountOptions(SourcePath, id)
  }

  lemma DataDirInjective(a: string, b: string)
    requires DataDir(a) == DataDir(b)
    ensures a == b
  {
    var p := |StatesPath + "/"|;
    assert a == DataDir(a)[p..|DataDir(a)| - 5];
    assert b == DataDir(b)[p..|DataDir(b)| - 5];
  }

  /** The top state is never a lower layer of itself. */
  lemma TopNotInLowerChain(sorted: seq<string>)
    requires |sorted| > 0 && LexOrder.Distinct(sorted)
    ensures DataDir(sorted[|sorted| - 1]) !in LowerChain(sorted)
  {
    var top := sorted[|sorted| - 1];
    var chain := LowerChain(sorted);
    forall k | 0 <= k < |chain| ensures chain[k] != DataDir(top) {
      if k == 0 {
        assert DataDir(top)[1] == 'v' && SourcePath[1] == 'u';
      } else {
        assert chain[k] == DataDir(sorted[k - 1]);
        if chain[k] == DataDir(top) {
          DataDirInjective(sorted[k - 1], top);
        }
      }
    }
  }

  /** For two or more strings, the joined text starts with the first one
      and a colon. */
  lemma {:induction false} JoinPrefix(xs: seq<string>)
    requires |xs| >= 2
    ensures |Join(xs)| > |xs[0]| && Join(xs)[..|xs[0]| + 1] == xs[0] + ":"
  {
    if |xs| > 2 {
      JoinPrefix(xs[..|xs| - 1]);
    }
  }

  /** Options for the same top state differ whenever their lower
      directories differ. */
  lemma MountOptionsInjective(a: string, b: string, top: string)
    requires MountOptions(a, top) == MountOptions(b, top)
    ensures a == b
  {
    var m := MountOptions(a, top);
    assert |a| == |b|;
    assert a == m[9..9 + |a|];
    assert b == m[9..9 + |b|];
  }

  /** For a single state the live mount and the boot unit agree. */
  lemma LiveMountSingleState(id: string)
    ensures "auto," + LiveOptions(id) == UnitOptions([id])
  {
    assert LowerChain([id]) == [SourcePath];
    assert Join([SourcePath]) == SourcePath;
  }

  /** For a deeper stack the live mount differs from the boot unit,
      because the live mount has `/usr` as its only lower directory. */
  lemma LiveMountIgnoresLowerStates(sorted: seq<string>)
    requires |sorted| >= 2
    ensures "auto," + LiveOptions(sorted[|sorted| - 1]) != UnitOptions(sorted)
  {
    var top := sorted[|sorted| - 1];
    var lower := Join(LowerChain(sorted));
    JoinPrefix(LowerChain(sorted));
    if "auto," + LiveOptions(top) == UnitOptions(sorted) {
      MountOptionsInjective(SourcePath, lower, top);
    }
  }

  /** One- and three-state stacks: `/usr` alone below state 0; `/usr`,
      then state 0, then state 1 below state 2. */
  lemma LowerChainExamples()
    ensures LowerChain(["0"]) == [SourcePath]
    ensures LowerChain(["0", "1", "2"]) == [SourcePath, DataDir("0"), DataDir("1")]
  {
    assert ["0", "1", "2"][..2] == ["0", "1"];
  }

  /** The sort compares strings, not numbers: with states 9 and 10 the
      newer state 10 sorts first and becomes a lower layer, and 9 is the
      writable top. */
  lemma StringSortPutsNineOverTen()
    ensures LexOrder.Sort(["9", "10"]) == ["10", "9"]
    ensures LowerChain(LexOrder.Sort(["9", "10"])) == [SourcePath, DataDir("10")]
  {
    assert LexOrder.Less("10", "9");
    assert LexOrder.Sort(["10"]) == ["10"];
    assert ["10", "9"][..1] == ["10"];
  }

  // ---- Directory bookkeeping of the two areas ------------------------------

  /** Position of the entry called `name`, or -1. */
  function IndexOf(es: seq<Entry>, name: string): (k: int)
    ensures -1 <= k < |es|
    ensures k >= 0 ==> es[k].name == name
    ensures k < 0 ==> forall i :: 0 <= i < |es| ==> es[i].name != name
  {
    if es == [] then -1
    else if es[|es| - 1].name == name then |es| - 1
    else IndexOf(es[..|es| - 1], name)
  }

  /** Whether `os.MkdirAll` can make `name` a directory of the area: it
      is absent or already a directory (a file there is ENOTDIR). */
  predicate CanMkdir(es: seq<Entry>, name: string)
  {
    IndexOf(es, name) < 0 || es[IndexOf(es, name)].node.Dir?
  }

  /** The area with `e` put in at its place in name order, where the next
      `os.ReadDir` lists a newly made entry. */
  function InsertEntry(es: seq<Entry>, e: Entry): (r: seq<Entry>)
    ensures |r| == |es| + 1
    ensures forall x :: x in r <==> x in es || x == e
  {
    if es == [] || !LexOrder.Less(es[0].name, e.name) then [e] + es
    else
      assert es == [es[0]] + es[1..];
      [es[0]] + InsertEntry(es[1..], e)
  }

  /** An entry with a new name keeps the area in name order. */
  lemma {:induction false} InsertEntrySorted(es: seq<Entry>, e: Entry)
    requires SortedNames(es) && IndexOf(es, e.name) < 0
    ensures SortedNames(InsertEntry(es, e))
  {
    if es == [] || !LexOrder.Less(es[0].name, e.name) {
      if es != [] {
        LexOrder.LessTotal(es[0].name, e.name);
        forall j | 0 < j < |es| ensures LexOrder.Less(e.name, es[j].name) {
          LexOrder.LessTransitive(e.name, es[0].name, es[j].name);
        }
      }
    } else {
      var tail := es[1..];
      SortedTail(es);
      InsertEntrySorted(tail, e);
      var t := InsertEntry(tail, e);
      forall k | 0 <= k < |t| ensures LexOrder.Less(es[0].name, t[k].name) {
        assert t[k] in t;
        if t[k] != e {
          var m :| 0 <= m < |tail| && tail[m] == t[k];
          assert es[m + 1] == t[k];
        }
      }
      var r := [es[0]] + t;
      forall i, j | 0 <= i < j < |r| ensures LexOrder.Less(r[i].name, r[j].name) {
        if i > 0 {
          assert r[i] == t[i - 1] && r[j] == t[j - 1];
        }
      }
    }
  }

  lemma SortedTail(es: seq<Entry>)
    requires SortedNames(es) && es != []
    ensures SortedNames(es[1..])
  {
    var tail := es[1..];
    forall i, j | 0 <= i < j < |tail| ensures LexOrder.Less(tail[i].name, tail[j].name) {
      assert tail[i] == es[i + 1] && tail[j] == es[j + 1];
    }
  }

  /** An entry that sorts before every other entry lists first. */
  lemma StateNamesInsertFront(es: seq<Entry>, e: Entry)
    requires SortedNames(es) && (es == [] || !LexOrder.Less(es[0].name, e.name))
    ensures StateNames([e] + es)
         == if IsStateEntry(e) then LexOrder.Insert(e.name, StateNames(es)) else StateNames(es)
  {
    var names := StateNames(es);
    StateNamesCons(e, es);
    if names != [] {
      var i := StateNameSource(es, 0);
      if i > 0 && LexOrder.Less(names[0], e.name) {
        LexOrder.LessTransitive(es[0].name, es[i].name, e.name);
      }
    }
  }

  /** An entry that sorts after `x` goes in after it. */
  lemma StateNamesInsertStep(x: Entry, tail: seq<Entry>, e: Entry, t: seq<Entry>)
    requires LexOrder.Less(x.name, e.name)
    requires StateNames(t)
          == if IsStateEntry(e) then LexOrder.Insert(e.name, StateNames(tail)) else StateNames(tail)
    ensures StateNames([x] + t)
         == if IsStateEntry(e) then LexOrder.Insert(e.name, StateNames([x] + tail)) else StateNames([x] + tail)
  {
    var h: seq<string> := if IsStateEntry(x) then [x.name] else [];
    var s1 := StateNames(tail);
    StateNamesCons(x, tail);
    StateNamesCons(x, t);
    assert StateNames([x] + tail) == h + s1;
    assert StateNames([x] + t) == h + StateNames(t);
    if IsStateEntry(e) {
      if IsStateEntry(x) {
        var s := [x.name] + s1;
        assert s != [] && s[0] == x.name && s[1..] == s1;
        assert LexOrder.Insert(e.name, s) == [x.name] + LexOrder.Insert(e.name, s1);
      } else {
        assert h + s1 == s1 && h + StateNames(t) == StateNames(t);
      }
    }
  }

  /** Putting an entry in at its place in name order puts its name, when
      it is a state, at its place among the listed states. */
  lemma {:induction false} StateNamesInsert(es: seq<Entry>, e: Entry)
    requires SortedNames(es)
    ensures StateNames(InsertEntry(es, e))
         == if IsStateEntry(e) then LexOrder.Insert(e.name, StateNames(es)) else StateNames(es)
  {
    if es == [] || !LexOrder.Less(es[0].name, e.name) {
      StateNamesInsertFront(es, e);
    } else {
      var tail := es[1..];
      assert es == [es[0]] + tail;
      SortedTail(es);
      StateNamesInsert(tail, e);
      StateNamesInsertStep(es[0], tail, e, InsertEntry(tail, e));
    }
  }

  /** The area after `os.MkdirAll(<area>/<name>)` succeeded: an existing
      directory is kept, a missing one is added, nothing else changes. */
  function EnsureDir(es: seq<Entry>, name: string): (r: seq<Entry>)
    requires CanMkdir(es, name)
    ensures |r| == |es| + (if IndexOf(es, name) < 0 then 1 else 0)
    ensures forall x :: x in r <==> x in es || (IndexOf(es, name) < 0 && x == Entry(name, Dir({})))
  {
    if IndexOf(es, name) >= 0 then es else InsertEntry(es, Entry(name, Dir({})))
  }

  /** The area after `os.MkdirAll(<area>/<name>/<child>)` succeeded. */
  function AddChild(es: seq<Entry>, name: string, child: string): (r: seq<Entry>)
    ensures |r| == |es|
    ensures forall i :: 0 <= i < |es| ==> r[i].name == es[i].name && r[i].node.Dir? == es[i].node.Dir?
    ensures forall i :: 0 <= i < |es| && es[i].name != name ==> r[i] == es[i]
  {
    seq(|es|, i requires 0 <= i < |es| =>
      if es[i].name == name && es[i].node.Dir? then Entry(name, Dir(es[i].node.children + {child})) else es[i])
  }

  /** The active area after StateNew's three `os.MkdirAll` calls. */
  function Created(es: seq<Entry>, id: string): (r: seq<Entry>)
    requires CanMkdir(es, id)
    ensures |r| == |es| + (if IndexOf(es, id) < 0 then 1 else 0)
  {
    AddChild(AddChild(EnsureDir(es, id), id, "data"), id, "temp")
  }

  /** The area without the entry called `name` (`os.Rename` moving it out). */
  function Without(es: seq<Entry>, name: string): (r: seq<Entry>)
    ensures forall e :: e in r <==> e in es && e.name != name
  {
    if es == [] then []
    else
      var p := es[..|es| - 1];
      var last := es[|es| - 1];
      assert es == p + [last];
      Without(p, name) + (if last.name == name then [] else [last])
  }

  /** Taking an entry out keeps the names of an area unique. */
  lemma {:induction false} WithoutUnique(es: seq<Entry>, name: string)
    requires UniqueNames(es)
    ensures UniqueNames(Without(es, name))
  {
    if es != [] {
      var p := es[..|es| - 1];
      var last := es[|es| - 1];
      assert UniqueNames(p);
      WithoutUnique(p, name);
      var rp := Without(p, name);
      forall i | 0 <= i < |rp| ensures rp[i].name != last.name {
        assert rp[i] in p;
        var j :| 0 <= j < |p| && p[j] == rp[i];
        assert es[j] == p[j];
      }
    }
  }

  /** StateList only looks at names and at which entries are directories. */
  lemma {:induction false} StateNamesSameShape(a: seq<Entry>, b: seq<Entry>)
    requires |a| == |b|
    requires forall i :: 0 <= i < |a| ==> a[i].name == b[i].name && a[i].node.Dir? == b[i].node.Dir?
    ensures StateNames(a) == StateNames(b)
  {
    if a != [] {
      StateNamesSameShape(a[..|a| - 1], b[..|b| - 1]);
    }
  }

  /** Taking an entry out keeps an area in name order. */
  lemma {:induction false} WithoutSorted(es: seq<Entry>, name: string)
    requires SortedNames(es)
    ensures SortedNames(Without(es, name))
  {
    if es != [] {
      var p := es[..|es| - 1];
      var last := es[|es| - 1];
      assert SortedNames(p);
      WithoutSorted(p, name);
      var rp := Without(p, name);
      forall i | 0 <= i < |rp| ensures LexOrder.Less(rp[i].name, last.name) {
        assert rp[i] in p;
        var j :| 0 <= j < |p| && p[j] == rp[i];
        assert es[j] == p[j];
      }
      var r := Without(es, name);
      if last.name != name {
        forall i, j | 0 <= i < j < |r| ensures LexOrder.Less(r[i].name, r[j].name) {
          if j < |rp| {
            assert r[i] == rp[i] && r[j] == rp[j];
          } else {
            assert r[i] == rp[i] && r[j] == last;
          }
        }
      }
    }
  }

  /** `os.MkdirAll` of a directory keeps the area in name order. */
  lemma EnsureDirSorted(es: seq<Entry>, name: string)
    requires SortedNames(es) && CanMkdir(es, name)
    ensures SortedNames(EnsureDir(es, name))
  {
    if IndexOf(es, name) < 0 {
      InsertEntrySorted(es, Entry(name, Dir({})));
    }
  }

  /** Making a subdirectory renames nothing, so the area stays in name order. */
  lemma AddChildSorted(es: seq<Entry>, name: string, child: string)
    requires SortedNames(es)
    ensures SortedNames(AddChild(es, name, child))
  {
    var r := AddChild(es, name, child);
    assert forall i :: 0 <= i < |es| ==> r[i].name == es[i].name;
  }

  /** StateNew's directories keep the area in name order. */
  lemma CreatedSorted(es: seq<Entry>, id: string)
    requires SortedNames(es) && CanMkdir(es, id)
    ensures SortedNames(Created(es, id))
  {
    EnsureDirSorted(es, id);
    AddChildSorted(EnsureDir(es, id), id, "data");
    AddChildSorted(AddChild(EnsureDir(es, id), id, "data"), id, "temp");
  }

  /** After StateNew's directories exist the new id is listed as a state.
      A new id takes its place in name order among the states listed
      before; an existing state directory leaves the listing as it was. */
  lemma CreatedListed(es: seq<Entry>, id: string)
    requires SortedNames(es) && CanMkdir(es, id) && Atoi(id).Some?
    ensures id in StateNames(Created(es, id))
    ensures IndexOf(es, id) < 0 ==> StateNames(Created(es, id)) == LexOrder.Insert(id, StateNames(es))
    ensures IndexOf(es, id) >= 0 ==> StateNames(Created(es, id)) == StateNames(es)
  {
    var d := EnsureDir(es, id);
    var d1 := AddChild(d, id, "data");
    var c := AddChild(d1, id, "temp");
    StateNamesSameShape(d1, d);
    StateNamesSameShape(c, d1);
    if IndexOf(es, id) < 0 {
      StateNamesInsert(es, Entry(id, Dir({})));
      assert id in multiset(LexOrder.Insert(id, StateNames(es)));
    } else {
      var k := IndexOf(es, id);
      SortedNamesUnique(es);
      StateNamesExactly(es, k);
    }
  }

  /** Listing is by name, not by age: with state 9 present, StateNew's
      state 10 is listed before it. */
  lemma TenListedBeforeNine()
    ensures StateNames(Created([Entry("9", Dir({"data", "temp"}))], "10")) == ["10", "9"]
  {
    var es := [Entry("9", Dir({"data", "temp"}))];
    assert Atoi("9") == Some(9) && Atoi("10") == Some(10);
    assert !LexOrder.Less("9", "10");
    assert StateNames(es) == ["9"] by {
      assert es[..0] == [];
    }
    CreatedListed(es, "10");
  }

  /** StateNew's directories leave every other entry as it was and give
      the new state its `data` and `temp` directories. */
  lemma CreatedContents(es: seq<Entry>, id: string)
    requires CanMkdir(es, id)
    ensures forall e :: e in es && e.name != id ==> e in Created(es, id)
    ensures exists c :: Entry(id, Dir(c)) in Created(es, id) && "data" in c && "temp" in c
  {
    var d := EnsureDir(es, id);
    var d1 := AddChild(d, id, "data");
    var c := AddChild(d1, id, "temp");
    var k: int;
    if IndexOf(es, id) >= 0 {
      k := IndexOf(es, id);
    } else {
      assert Entry(id, Dir({})) in d;
      k :| 0 <= k < |d| && d[k] == Entry(id, Dir({}));
    }
    assert d[k].name == id && d[k].node.Dir?;
    assert d1[k] == Entry(id, Dir(d[k].node.children + {"data"}));
    assert c[k] == Entry(id, Dir(d[k].node.children + {"data", "temp"}));
    forall e | e in es && e.name != id ensures e in c {
      assert e in d;
      var i :| 0 <= i < |d| && d[i] == e;
      assert d1[i] == e && c[i] == e;
    }
  }

  /** Moving an entry out of the active area takes its name out of the
      active listing. */
  lemma TrashedNameLeaves(es: seq<Entry>, id: string)
    ensures id !in StateNames(Without(es, id))
  {
    var w := Without(es, id);
    var names := StateNames(w);
    forall j | 0 <= j < |names| ensures names[j] != id {
      var i := StateNameSource(w, j);
      assert w[i] in w;
    }
  }

  /** Every other state stays listed in the active area. */
  lemma OtherStatesStay(es: seq<Entry>, id: string, n: string)
    requires UniqueNames(es) && n in StateNames(es) && n != id
    ensures n in StateNames(Without(es, id))
  {
    var w := Without(es, id);
    WithoutUnique(es, id);
    var j :| 0 <= j < |StateNames(es)| && StateNames(es)[j] == n;
    var i := StateNameSource(es, j);
    assert es[i] in w;
    var m :| 0 <= m < |w| && w[m] == es[i];
    StateNamesExactly(w, m);
  }

  /** The moved state is listed in the trash at its place in name order,
      and the trash listing stays strictly increasing. */
  lemma TrashedNameArrives(ts: seq<Entry>, e: Entry)
    requires SortedNames(ts) && IsStateEntry(e) && IndexOf(ts, e.name) < 0
    ensures StateNames(InsertEntry(ts, e)) == LexOrder.Insert(e.name, StateNames(ts))
    ensures LexOrder.StrictlySorted(StateNames(InsertEntry(ts, e)))
  {
    StateNamesInsert(ts, e);
    InsertEntrySorted(ts, e);
    StateNamesStrict(InsertEntry(ts, e));
  }

  /** StateNew's three directories can all be made. */
  predicate DirsOk(es: seq<Entry>, id: string, fails: set<Step>)
  {
    MkdirState !in fails && CanMkdir(es, id) && MkdirData !in fails && MkdirTemp !in fails
  }

  /** The trash after StateEmptyTrash: untouched if `os.RemoveAll` failed,
      missing if only the re-creation failed, otherwise empty. */
  function EmptiedTrash(trash: Area, fails: set<Step>): (r: Area)
    ensures RemoveTrash !in fails && MkdirTrash !in fails ==> r == Some([])
    ensures RemoveTrash in fails ==> r == trash
  {
    if RemoveTrash in fails then trash
    else if MkdirTrash in fails then None
    else Some([])
  }

  /** Whether StateTrash gets its `unix.Unmount` of the state directory
      through: the state exists and something is mounted on its
      directory (unmounting anything else is EINVAL). */
  predicate StateUnmounted(active: Area, mounts: seq<Mount>, id: string, fails: set<Step>)
  {
    IndexOf(Entries(active), id) >= 0 && MountedAt(mounts, StatePath(id)) && UnmountState !in fails
  }

  /** Whether StateTrash gets as far as moving the state into the trash:
      the unmount and the rename succeed and the trash can take the name. */
  predicate Moved(active: Area, trash: Area, mounts: seq<Mount>, id: string, fails: set<Step>)
  {
    StateUnmounted(active, mounts, id, fails) && RenameState !in fails
    && trash.Some? && IndexOf(trash.value, id) < 0
  }

  /** StateNew mounts on `/usr`, never on a state directory: a mount table
      with nothing on the directory of state `x` still has nothing there
      after StateNew's live mount, and StateTrash cannot unmount `x`. */
  lemma LiveMountMissesStates(ms: seq<Mount>, id: string, x: string, active: Area, fails: set<Step>)
    requires !MountedAt(ms, StatePath(x))
    ensures !MountedAt(ms + [Mount(SourcePath, LiveOptions(id))], StatePath(x))
    ensures !StateUnmounted(active, ms + [Mount(SourcePath, LiveOptions(id))], x, fails)
  {
    var ms' := ms + [Mount(SourcePath, LiveOptions(id))];
    assert |StatePath(x)| > |SourcePath|;
    forall i | 0 <= i < |ms'| ensures ms'[i].target != StatePath(x) {
      if i < |ms| {
        assert ms'[i] == ms[i];
      }
    }
  }

  /** What StateMountUnitRegenerate reports: a listing error, Go's panic
      on `states[:len(states)-1]` when there is no active state, a failed
      write, reload or enable, or success. */
  function RegenOutcome(active: Area, trash: Area, fails: set<Step>): (r: Outcome)
    ensures r == Crash <==> active.Some? && trash.Some? && StateNames(active.value) == []
    ensures r == Ok ==> active.Some? && StateNames(active.value) != []
  {
    if active.None? || trash.None? then Fail(ListFailed)
    else if StateNames(active.value) == [] then Crash
    else if WriteUnit in fails || DaemonReload in fails || EnableUnit in fails then Fail(StepFailed)
    else Ok
  }

  /** The unit's `Options=` line and whether the unit is enabled, after
      StateMountUnitRegenerate ran on the two areas. */
  function RegenUnit(active: Area, trash: Area, fails: set<Step>, unit: Option<string>, enabled: bool)
    : (r: (Option<string>, bool))
    ensures r.1 == (enabled || RegenOutcome(active, trash, fails) == Ok)
  {
    if active.None? || trash.None? || StateNames(active.value) == [] || WriteUnit in fails then (unit, enabled)
    else (Some(UnitOptions(LexOrder.Sort(StateNames(active.value)))),
          enabled || (DaemonReload !in fails && EnableUnit !in fails))
  }

  /** A written unit stacks every active state in the order StateList
      lists them, which the sort leaves unchanged: the state on top (upper
      and work directories) is the greatest name in string order, `/usr`
      is at the bottom, and the top state is not also a lower layer. */
  lemma RegenUnitStacksStates(active: Area, trash: Area, fails: set<Step>, unit: Option<string>, enabled: bool)
    requires active.Some? && trash.Some? && AreaValid(active)
    requires StateNames(active.value) != [] && WriteUnit !in fails
    ensures RegenUnit(active, trash, fails, unit, enabled).0 == Some(UnitOptions(StateNames(active.value)))
    ensures var names := StateNames(active.value);
      forall i :: 0 <= i < |names| - 1 ==> LexOrder.Less(names[i], names[|names| - 1])
    ensures var names := StateNames(active.value);
      LowerChain(names)[0] == SourcePath && DataDir(names[|names| - 1]) !in LowerChain(names)
  {
    var names := StateNames(active.value);
    ListingAlreadySorted(active.value);
    StateNamesStrict(active.value);
    LexOrder.StrictDistinct(names);
    TopNotInLowerChain(names);
  }

  /** Regeneration never reports success without enabling the unit with
      freshly written options. */
  lemma RegenOkWritesUnit(active: Area, trash: Area, fails: set<Step>, unit: Option<string>, enabled: bool)
    requires RegenOutcome(active, trash, fails) == Ok
    ensures active.Some? && StateNames(active.value) != []
    ensures RegenUnit(active, trash, fails, unit, enabled)
         == (Some(UnitOptions(LexOrder.Sort(StateNames(active.value)))), true)
  {
  }

  /** When nothing is left after removing a state, that state was the only one. */
  lemma OnlyStateLeft(es: seq<Entry>, id: string)
    requires UniqueNames(es) && IndexOf(es, id) >= 0 && IsStateEntry(es[IndexOf(es, id)])
    requires StateNames(Without(es, id)) == []
    ensures StateNames(es) == [id]
  {
    var names := StateNames(es);
    StateNamesExactly(es, IndexOf(es, id));
    forall j | 0 <= j < |names| ensures names[j] == id {
      if names[j] != id {
        OtherStatesStay(es, id, names[j]);
      }
    }
    StateNamesDistinct(es);
    LexOrder.DistinctHead(names);
  }

  /** A state left after removing one is a state other than the removed one. */
  lemma SomeStateLeft(es: seq<Entry>, id: string)
    requires StateNames(Without(es, id)) != []
    ensures StateNames(Without(es, id))[0] in StateNames(es)
    ensures StateNames(Without(es, id))[0] != id
  {
    var w := Without(es, id);
    var i := StateNameSource(w, 0);
    assert w[i] in es;
    var m :| 0 <= m < |es| && es[m] == w[i];
    StateNamesContain(es, m);
  }

  /** Trashing panics in the regeneration exactly when the trashed state
      was the only active state. */
  lemma TrashingLastStateCrashes(es: seq<Entry>, id: string)
    requires UniqueNames(es) && IndexOf(es, id) >= 0 && IsStateEntry(es[IndexOf(es, id)])
    ensures StateNames(Without(es, id)) == [] <==> StateNames(es) == [id]
  {
    if StateNames(Without(es, id)) == [] {
      OnlyStateLeft(es, id);
    } else {
      SomeStateLeft(es, id);
    }
  }

  /** After StateNew made a state's directories, regenerating the unit
      cannot panic, and a written unit stacks the old states with the new
      one put in at its place in string order. */
  lemma NewStateIsStacked(es: seq<Entry>, id: string, trash: Area, fails: set<Step>, unit: Option<string>, enabled: bool)
    requires SortedNames(es) && CanMkdir(es, id) && Atoi(id).Some?
    ensures RegenOutcome(Some(Created(es, id)), trash, fails) != Crash
    ensures IndexOf(es, id) < 0 && trash.Some? && WriteUnit !in fails ==>
      RegenUnit(Some(Created(es, id)), trash, fails, unit, enabled).0
        == Some(UnitOptions(LexOrder.Insert(id, StateNames(es))))
  {
    CreatedListed(es, id);
    CreatedSorted(es, id);
    ListingAlreadySorted(Created(es, id));
  }

  /** The state engine of core/state-overlay.go: one method per function, over the
      two areas, the live mount list and the generated `usr.mount` unit. */
  class StateEngine {
    var active: Area
    var trash: Area
    /** The mount table, oldest mount first. */
    var mounts: seq<Mount>
    /** The `Options=` line of the unit file, `None` before it is written. */
    var unitOptions: Option<string>
    var unitEnabled: bool

    predicate Valid()
      reads this`active, this`trash
    {
      AreaValid(active) && AreaValid(trash)
    }

    constructor (active0: Area, trash0: Area, mounts0: seq<Mount>, unit0: Option<string>, enabled0: bool)
      requires AreaValid(active0) && AreaValid(trash0)
      ensures Valid()
      ensures active == active0 && trash == trash0 && mounts == mounts0
      ensures unitOptions == unit0 && unitEnabled == enabled0
    {
      active, trash, mounts := active0, trash0, mounts0;
      unitOptions, unitEnabled := unit0, enabled0;
    }

    /** The package's `init`: as root, create both areas if missing; stop
        at the first failure. */
    method Init(isRoot: bool, fails: set<Step>)
      requires Valid()
      modifies this
      ensures Valid()
      ensures active == (if isRoot && MkdirStates !in fails then Some(Entries(old(active))) else old(active))
      ensures trash == (if isRoot && MkdirStates !in fails && MkdirTrash !in fails
                        then Some(Entries(old(trash))) else old(trash))
      ensures mounts == old(mounts) && unitOptions == old(unitOptions) && unitEnabled == old(unitEnabled)
    {
      if !isRoot || MkdirStates in fails {
        return;
      }
      active := Some(Entries(active));
      if MkdirTrash in fails {
        return;
      }
      trash := Some(Entries(trash));
    }

    /** Both listings, each in string order; the trash is only read when
        the states area could be. */
    method StateList() returns (states: seq<string>, trashed: seq<string>, r: Outcome)
      requires Valid()
      ensures LexOrder.StrictlySorted(states) && LexOrder.StrictlySorted(trashed)
      ensures r == (if active.Some? && trash.Some? then Ok else Fail(ListFailed))
      ensures states == StateNames(Entries(active))
      ensures trashed == (if active.Some? then StateNames(Entries(trash)) else [])
    {
      states, trashed := [], [];
      if active.None? {
        return states, trashed, Fail(ListFailed);
      }
      states := CollectStates(active.value);
      StateNamesStrict(active.value);
      if trash.None? {
        return states, trashed, Fail(ListFailed);
      }
      trashed := CollectStates(trash.value);
      StateNamesStrict(trash.value);
      r := Ok;
    }

    /** `highestId + 1` over the active states, or "0". */
    method StateNextId() returns (id: string)
      requires Valid()
      ensures id == NextId(active, trash)
    {
      var states, _, r := StateList();
      if r != Ok || |states| == 0 {
        return "0";
      }
      var highest := HighestId(states);
      id := Itoa(Next64(highest));
    }

    /** Remove the trash directory and create it again, empty. */
    method StateEmptyTrash(fails: set<Step>) returns (r: Outcome)
      requires Valid()
      modifies this
      ensures Valid()
      ensures trash == EmptiedTrash(old(trash), fails)
      ensures r == (if RemoveTrash in fails || MkdirTrash in fails then Fail(StepFailed) else Ok)
      ensures active == old(active) && mounts == old(mounts)
      ensures unitOptions == old(unitOptions) && unitEnabled == old(unitEnabled)
    {
      if RemoveTrash in fails {
        return Fail(StepFailed);
      }
      trash := None;
      if MkdirTrash in fails {
        return Fail(StepFailed);
      }
      trash := Some([]);
      r := Ok;
    }

    /** Rebuild the `Options=` line from the active states sorted as
        strings, write the unit, reload systemd and enable the unit.
        With no active state Go's `states[:len(states)-1]` panics. */
    method StateMountUnitRegenerate(fails: set<Step>) returns (r: Outcome)
      requires Valid()
      modifies this
      ensures active == old(active) && trash == old(trash) && mounts == old(mounts)
      ensures r == RegenOutcome(active, trash, fails)
      ensures (unitOptions, unitEnabled) == RegenUnit(active, trash, fails, old(unitOptions), old(unitEnabled))
    {
      r, unitOptions, unitEnabled := RegenerateUnit(active, trash, fails, unitOptions, unitEnabled);
    }

    /** StateNew's three `os.MkdirAll` calls: the state directory, then
        its `data` and `temp` directories, stopping at the first failure. */
    method MakeStateDirs(id: string, fails: set<Step>) returns (r: Outcome)
      requires Valid()
      modifies this
      ensures Valid()
      ensures trash == old(trash) && mounts == old(mounts)
      ensures unitOptions == old(unitOptions) && unitEnabled == old(unitEnabled)
      ensures var es := Entries(old(active));
        && (MkdirState in fails || !CanMkdir(es, id) ==> active == old(active))
        && (MkdirState !in fails && CanMkdir(es, id) && MkdirData in fails ==>
              active == Some(EnsureDir(es, id)))
        && (MkdirState !in fails && CanMkdir(es, id) && MkdirData !in fails && MkdirTemp in fails ==>
              active == Some(AddChild(EnsureDir(es, id), id, "data")))
        && (DirsOk(es, id, fails) ==> active == Some(Created(es, id)))
        && r == (if DirsOk(es, id, fails) then Ok else Fail(StepFailed))
    {
      var es := Entries(active);
      if MkdirState in fails || !CanMkdir(es, id) {
        return Fail(StepFailed);
      }
      EnsureDirSorted(es, id);
      active := Some(EnsureDir(es, id));
      if MkdirData in fails {
        return Fail(StepFailed);
      }
      AddChildSorted(active.value, id, "data");
      active := Some(AddChild(active.value, id, "data"));
      if MkdirTemp in fails {
        return Fail(StepFailed);
      }
      active := Some(AddChild(active.value, id, "temp"));
      CreatedSorted(es, id);
      r := Ok;
    }

    /** Create the next state, mount it live over `/usr`, empty the trash
        and regenerate the unit; the last two report nothing to the caller. */
    method StateNew(fails: set<Step>) returns (r: Outcome)
      requires Valid()
      modifies this
      ensures Valid()
      ensures var id := NextId(old(active), old(trash));
              var es := Entries(old(active));
        && (MkdirState in fails || !CanMkdir(es, id) ==> active == old(active))
        && (MkdirState !in fails && CanMkdir(es, id) && MkdirData in fails ==>
              active == Some(EnsureDir(es, id)))
        && (MkdirState !in fails && CanMkdir(es, id) && MkdirData !in fails && MkdirTemp in fails ==>
              active == Some(AddChild(EnsureDir(es, id), id, "data")))
        && (DirsOk(es, id, fails) ==> active == Some(Created(es, id)))
        && r == (if DirsOk(es, id, fails) && MountState !in fails then Ok else Fail(StepFailed))
      ensures r.Fail? ==> trash == old(trash) && mounts == old(mounts)
                          && unitOptions == old(unitOptions) && unitEnabled == old(unitEnabled)
      ensures r == Ok ==>
        && mounts == old(mounts) + [Mount(SourcePath, LiveOptions(NextId(old(active), old(trash))))]
        && trash == EmptiedTrash(old(trash), fails)
        && (unitOptions, unitEnabled) == RegenUnit(active, trash, fails, old(unitOptions), old(unitEnabled))
    {
      var id := StateNextId();
      r := MakeStateDirs(id, fails);
      if r != Ok {
        return;
      }
      if MountState in fails {
        return Fail(StepFailed);
      }
      mounts := mounts + [Mount(SourcePath, LiveOptions(id))];
      var _ := StateEmptyTrash(fails);
      var _ := StateMountUnitRegenerate(fails);
      r := Ok;
    }

    /** StateTrash up to the rename: check the state exists, unmount its
        directory and rename it into the trash. */
    method MoveToTrash(id: string, fails: set<Step>) returns (r: Outcome)
      requires Valid()
      modifies this
      ensures Valid()
      ensures unitOptions == old(unitOptions) && unitEnabled == old(unitEnabled)
      ensures mounts == if StateUnmounted(old(active), old(mounts), id, fails)
                        then UnmountTop(old(mounts), StatePath(id)) else old(mounts)
      ensures IndexOf(Entries(old(active)), id) < 0 ==> r == Fail(NotExist)
      ensures IndexOf(Entries(old(active)), id) >= 0 && !Moved(old(active), old(trash), old(mounts), id, fails) ==>
        r == Fail(StepFailed)
      ensures r == Ok <==> Moved(old(active), old(trash), old(mounts), id, fails)
      ensures !Moved(old(active), old(trash), old(mounts), id, fails) ==> active == old(active) && trash == old(trash)
      ensures Moved(old(active), old(trash), old(mounts), id, fails) ==>
        var es := Entries(old(active));
        active == Some(Without(es, id)) && trash == Some(InsertEntry(Entries(old(trash)), es[IndexOf(es, id)]))
    {
      var es := Entries(active);
      var k := IndexOf(es, id);
      if k < 0 {
        return Fail(NotExist);
      }
      if !MountedAt(mounts, StatePath(id)) || UnmountState in fails {
        return Fail(StepFailed);
      }
      mounts := UnmountTop(mounts, StatePath(id));
      if RenameState in fails || trash.None? || IndexOf(trash.value, id) >= 0 {
        return Fail(StepFailed);
      }
      var ts := trash.value;
      InsertEntrySorted(ts, es[k]);
      WithoutSorted(es, id);
      active := Some(Without(es, id));
      trash := Some(InsertEntry(ts, es[k]));
      r := Ok;
    }

    /** Unmount the state directory and move it into the trash, then
        regenerate the unit; only a panic there reaches the caller. */
    method StateTrash(id: string, fails: set<Step>) returns (r: Outcome)
      requires Valid()
      modifies this
      ensures Valid()
      ensures mounts == if StateUnmounted(old(active), old(mounts), id, fails)
                        then UnmountTop(old(mounts), StatePath(id)) else old(mounts)
      ensures IndexOf(Entries(old(active)), id) < 0 ==> r == Fail(NotExist)
      ensures IndexOf(Entries(old(active)), id) >= 0 && !Moved(old(active), old(trash), old(mounts), id, fails) ==>
        r == Fail(StepFailed)
      ensures !Moved(old(active), old(trash), old(mounts), id, fails) ==>
        active == old(active) && trash == old(trash)
        && unitOptions == old(unitOptions) && unitEnabled == old(unitEnabled)
      ensures Moved(old(active), old(trash), old(mounts), id, fails) ==>
        var es := Entries(old(active));
        active == Some(Without(es, id)) && trash == Some(InsertEntry(Entries(old(trash)), es[IndexOf(es, id)]))
      ensures Moved(old(active), old(trash), old(mounts), id, fails) ==>
        && r == (if RegenOutcome(active, trash, fails) == Crash then Crash else Ok)
        && (unitOptions, unitEnabled) == RegenUnit(active, trash, fails, old(unitOptions), old(unitEnabled))
    {
      r := MoveToTrash(id, fails);
      if r != Ok {
        return;
      }
      var g := StateMountUnitRegenerate(fails);
      r := if g == Crash then Crash else Ok;
    }

    /** Rolling back is not implemented: success, no effect. */
    method StateRollback(id: string) returns (r: Outcome)
      ensures r == Ok
    {
      r := Ok;
    }
  }

  /** StateMountUnitRegenerate over the two areas and the unit it finds. */
  method RegenerateUnit(active: Area, trash: Area, fails: set<Step>, unit: Option<string>, enabled: bool)
    returns (r: Outcome, unit': Option<string>, enabled': bool)
    ensures r == RegenOutcome(active, trash, fails)
    ensures (unit', enabled') == RegenUnit(active, trash, fails, unit, enabled)
  {
    unit', enabled' := unit, enabled;
    if active.None? || trash.None? {
      return Fail(ListFailed), unit', enabled';
    }
    var states := CollectStates(active.value);
    if |states| == 0 {
      return Crash, unit', enabled';
    }
    var sorted := LexOrder.Sort(states);
    var options := BuildUnitOptions(sorted);
    if WriteUnit in fails {
      return Fail(StepFailed), unit', enabled';
    }
    unit' := Some(options);
    if DaemonReload in fails || EnableUnit in fails {
      return Fail(StepFailed), unit', enabled';
    }
    enabled' := true;
    r := Ok;
  }

  /** One turn of StateMountUnitRegenerate's loop appends the next `data`
      directory and a colon to the chain built so far. */
  lemma LowerStep(sorted: seq<string>, i: nat, lower: string)
    requires i < |sorted|
    requires lower == Join([SourcePath] + DataDirs(sorted[..i])) + ":"
    ensures lower + DataDir(sorted[i]) + ":" == Join([SourcePath] + DataDirs(sorted[..i + 1])) + ":"
  {
    JoinSnoc([SourcePath] + DataDirs(sorted[..i]), DataDir(sorted[i]));
    assert [SourcePath] + DataDirs(sorted[..i + 1]) == [SourcePath] + DataDirs(sorted[..i]) + [DataDir(sorted[i])];
  }

  /** Trimming the loop's last colon leaves the joined lower chain. */
  lemma LowerTrimmed(sorted: seq<string>, lower: string)
    requires |sorted| > 0
    requires lower == Join([SourcePath] + DataDirs(sorted[..|sorted| - 1])) + ":"
    ensures TrimSuffix(lower, ":") == Join(LowerChain(sorted))
  {
    TrimColon(Join(LowerChain(sorted)));
  }

  /** StateMountUnitRegenerate's loop and the line it writes: every
      state's `data` but the top one's after the source tree, each
      followed by `:`, the last `:` trimmed. */
  method BuildUnitOptions(sorted: seq<string>) returns (options: string)
    requires |sorted| > 0
    ensures options == UnitOptions(sorted)
  {
    var lower := SourcePath + ":";
    var i := 0;
    while i < |sorted| - 1
      invariant 0 <= i <= |sorted| - 1
      invariant lower == Join([SourcePath] + DataDirs(sorted[..i])) + ":"
    {
      LowerStep(sorted, i, lower);
      lower := lower + DataDir(sorted[i]) + ":";
      i := i + 1;
    }
    LowerTrimmed(sorted, lower);
    lower := TrimSuffix(lower, ":");
    var top := sorted[|sorted| - 1];
    options := "auto," + MountOptions(lower, top);
  }

  /** StateNextId's loop: the highest id among the names, from 0. */
  method HighestId(states: seq<string>) returns (highest: int)
    ensures highest == MaxId(states)
  {
    highest := 0;
    var i := 0;
    while i < |states|
      invariant 0 <= i <= |states|
      invariant highest == MaxId(states[..i])
    {
      var a := Atoi(states[i]);
      MaxIdSnoc(states[..i], states[i]);
      assert states[..i + 1] == states[..i] + [states[i]];
      if a.Some? && a.value > highest {
        highest := a.value;
      }
      i := i + 1;
    }
    assert states[..i] == states;
  }

  /** One of StateList's two loops: keep the directories whose name
      `strconv.Atoi` accepts, in listing order. */
  method CollectStates(es: seq<Entry>) returns (names: seq<string>)
    ensures names == StateNames(es)
  {
    names := [];
    var i := 0;
    while i < |es|
      invariant 0 <= i <= |es|
      invariant names == StateNames(es[..i])
    {
      assert es[..i + 1][..i] == es[..i];
      if es[i].node.Dir? {
        if Atoi(es[i].name).Some? {
          names := names + [es[i].name];
        }
      }
      i := i + 1;
    }
    assert es[..i] == es;
  }
}
