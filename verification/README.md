# almost: state layers, ephemeral overlays and the system lock, in Dafny

This project models the three components of the `almost` tool of Vanilla OS
that carry its bookkeeping, and proves properties of that model.

- **The persistent state-layering engine** (`core/state-overlay.go`).
  Numbered state directories live under `/var/almost/states`. Each one holds
  a `data` (upper) directory and a `temp` (work) directory. The states are
  stacked as overlayfs layers over `/usr`. A retired state is renamed into
  `/var/almost/trash`. After every change the engine rewrites the `Options=`
  line of the boot-time `usr.mount` unit (systemd.mount(5)).
  Modelled as the class `StateOverlay.StateEngine`. Its state is:
  - the two areas, as directory listings kept sorted by name, the order
    `os.ReadDir` returns (`core/state-overlay.go:81`, `:95`);
  - the mount table;
  - the unit's options line and whether the unit is enabled.
- **The ephemeral overlay catalogue** (`core/overlay.go`).
  `OverlayAdd` mounts an overlay over a directory. Its upper and work
  directories live in a fresh work directory under `/etc/almost/overlays`.
  The mount is recorded in an SQLite table whose primary key is the
  original path. `OverlayRemove` undoes this. An orphan pass drops the rows
  whose work directory is gone.
  Modelled as the class `Overlay.OverlayManager`. Its state is:
  - the catalogue, as a map from original path to row;
  - the file system, as a map from path to kind;
  - the mount table;
  - the log of tree copies.
- **The lock controller** (`core/performer.go`).
  Read-only mode sets the immutable attribute on every entry of `/bin`,
  `/lib`, `/lib64`, `/sbin` and `/usr`. Read-write mode clears it. The mode
  is recorded under `Almost::CurrentMode`.
  Modelled as the class `Performer.LockController`, holding:
  - the configuration;
  - the set of immutable paths;
  - the directory listings.

Every syscall, `exec` and file write is an abstract step. Each operation
takes the set of steps that fail this time (`fails`, or `failing` for
files). A Go function ends in one of three ways, named by `Outcome`:
- it returns `nil` (`Ok`);
- it returns an error (`Fail`);
- it ends the process, by an uncaught panic or `os.Exit(1)` (`Crash`).

Supporting modules:
- `Decimal` models Go's `strconv.Atoi` and `%d` on the 64-bit `int`, and
  the wrap-around of `highestId+1`.
- `LexOrder` models Go's `<` on strings and the order `sort.Slice` leaves.
- `Mounts` models the mount table.
- `Outcomes` holds the shared result types.

Where the code does something other than its own comments say, or
something a reader might not expect, the model follows the code:
- **`force` on a catalogued path.** The comment at
  `core/overlay.go:59-61` says `force` allows overwriting the existing
  overlay. In the code the INSERT of the second row violates the primary
  key and the process exits (`core/overlay.go:236-246`). See `OverlayAdd`,
  `RegisterOverlay`.
- **The live mount of a new state.** `StateNew` mounts the new state with
  `/usr` as its only lower directory (`core/state-overlay.go:55`), while
  the boot unit stacks every state. See `LiveMountIgnoresLowerStates`.
- **Stack order.** The comment at `core/state-overlay.go:215-217` says the
  states are sorted by id from lowest to highest. The code compares them as
  strings, so with states 9 and 10, state 9 ends up on top. See
  `StringSortPutsNineOverTen` and `TenListedBeforeNine`.
- **A failure before the mount.** `OverlayAdd` does not remove the work
  directory it made when a later step fails. See `WorkDirLeftBehind`.
- **`StateNextId`.** It also answers "0" when only the trash cannot be
  listed. See `NextId`.
- **The `ifDiff` test of `SetImmutableFlag`.** The comment at
  `core/performer.go:95-97` says a path that already respects the recorded
  mode is skipped. The test compares the immutable flag (1 = locked) with
  the recorded mode (`"0"` = locked). It therefore skips a path exactly
  when the path does NOT match the mode. See `IfDiffSkipsOnMismatch`.
- **`StateTrash` and the mount table.** `StateTrash` unmounts the state's
  own directory. The engine itself only ever mounts on `/usr`. So unless
  something else mounted the state directory, the unmount fails and the
  state is not trashed. See `StateTrash`, `LiveMountMissesStates`.

## Model

| member | source | states |
|---|---|---|
| Decimal.Atoi | core/state-overlay.go:88 | A string `strconv.Atoi` accepts has a value in the int64 range and starts with a digit or a sign |
| Decimal.NatDigits | core/state-overlay.go:130 | `%d` of a natural number is a non-empty string of digits without a leading zero |
| Decimal.Itoa | core/state-overlay.go:130 | `%d` of an int is never empty and starts with `-` exactly for a negative number |
| Decimal.NatDigitsValue | core/state-overlay.go:130 | The digits `%d` prints for a natural number read back as that number |
| Decimal.AtoiItoa | core/state-overlay.go:120-130 | Printing an int64 with `%d` and parsing it with `strconv.Atoi` gives the same number back |
| Decimal.ItoaInjective | core/state-overlay.go:130 | Different ids never print as the same directory name |
| Decimal.Next64 | core/state-overlay.go:130 | `highestId+1` on a 64-bit int is one more below the maximum, and wraps to the minimum at the maximum |
| LexOrder.LessIrreflexive | core/state-overlay.go:222-224 | No string is below itself in Go's string order |
| LexOrder.LessTransitive | core/state-overlay.go:222-224 | Go's string order is transitive |
| LexOrder.LessTotal | core/state-overlay.go:222-224 | Of two different strings one is below the other |
| LexOrder.LessAsymmetric | core/state-overlay.go:222-224 | Two strings are never below each other |
| LexOrder.Less | core/state-overlay.go:222-224 | Go's `<` on strings: a proper prefix is below the longer string |
| LexOrder.StrictDistinct | core/state-overlay.go:222-224 | A strictly increasing list of names has no repeats |
| LexOrder.Insert | core/state-overlay.go:222-224 | Inserting adds exactly one occurrence of the element |
| LexOrder.Sort | core/state-overlay.go:222-224 | The sorted list is a permutation of the state list |
| LexOrder.InsertSorted | core/state-overlay.go:222-224 | Inserting into a sorted list keeps it sorted |
| LexOrder.SortSorted | core/state-overlay.go:222-224 | The result is non-decreasing in Go's string order |
| LexOrder.SortStrict | core/state-overlay.go:222-224 | Sorting distinct names gives a strictly increasing, duplicate-free list |
| LexOrder.SortedUnique | core/state-overlay.go:222-224 | Any two strictly increasing orderings of the same names are equal, so the unstable `sort.Slice` leaves one order |
| Mounts.TopAt | core/overlay.go:106-108 | The mount an unmount of a target detaches is a mount on that target |
| Mounts.UnmountTop | core/overlay.go:106-108 | Unmounting removes exactly one mount, the most recent one on the target, and keeps the others |
| Mounts.UnmountUndoesMount | core/overlay.go:83-108 | Unmounting a target right after mounting on it gives back the previous mount table |
| StateOverlay.StateNames | core/state-overlay.go:86-92 | StateList keeps at most one name per entry, and each kept name parses as an integer |
| StateOverlay.StateNameSource | core/state-overlay.go:86-92 | Every kept name is the name of a directory entry whose name parses as an integer |
| StateOverlay.StateNamesContain | core/state-overlay.go:86-92 | Every directory entry with an integer name is kept |
| StateOverlay.StateNamesAppend | core/state-overlay.go:86-92 | Filtering keeps the listing order |
| StateOverlay.StateNamesExactly | core/state-overlay.go:86-92 | In a listing without repeated names, a name is kept if and only if its entry is a directory with an integer name |
| StateOverlay.StateNamesDistinct | core/state-overlay.go:86-92 | Names kept from a listing without repeats are distinct |
| StateOverlay.StateNamesSameShape | core/state-overlay.go:86-92 | StateList looks only at entry names and at which entries are directories |
| StateOverlay.StateNamesStrict | core/state-overlay.go:81-92 | A listing in name order gives the states in strictly increasing string order |
| StateOverlay.ListingAlreadySorted | core/state-overlay.go:215-224 | The `sort.Slice` changes nothing: `Sort` of what StateList returns is what StateList returns |
| StateOverlay.SortedNamesUnique | core/state-overlay.go:81 | A listing in name order has no repeated name |
| StateOverlay.InsertEntry | core/state-overlay.go:42 | The area gains exactly the new entry, at its place in name order |
| StateOverlay.InsertEntrySorted | core/state-overlay.go:42 | An entry with a new name keeps the area sorted by name |
| StateOverlay.StateNamesInsert | core/state-overlay.go:81-92 | An entry put in at its place in name order puts its name, when it is a state, at its place in the state list |
| StateOverlay.MaxId | core/state-overlay.go:118-128 | The loop's result lies between 0 and the int64 maximum and is at least every parsable id |
| StateOverlay.MaxIdAttained | core/state-overlay.go:118-128 | A highest id other than 0 is the id of one of the states |
| StateOverlay.NextId | core/state-overlay.go:111-131 | The next id is "0" when either listing fails or there is no active state, and always parses as an integer |
| StateOverlay.NextIdFresh | core/state-overlay.go:111-131 | Below the int64 limit the next id is highest+1: it exceeds every active id and names no active directory |
| StateOverlay.NoDirNamedAbove | core/state-overlay.go:111-131 | No directory of the active area bears an id above every state id |
| StateOverlay.NextIdIgnoresTrashContents | core/state-overlay.go:111-116 | Trashed ids never affect the next id; only whether the trash can be listed does |
| StateOverlay.NextIdWraps | core/state-overlay.go:130 | A state named with the int64 maximum makes the next id the int64 minimum |
| StateOverlay.DataDirs | core/state-overlay.go:228-230 | One `data` directory per listed state, in the same order |
| StateOverlay.Join | core/state-overlay.go:226-232 | The colon-joined chain starts with its first directory and ends with its last |
| StateOverlay.TrimSuffix | core/state-overlay.go:232 | `strings.TrimSuffix` gives a prefix of its argument, which with the suffix appended is the argument when it ended in the suffix, and is the argument otherwise |
| StateOverlay.JoinSnoc | core/state-overlay.go:227-232 | Appending one more `data` directory to the chain adds a colon and that directory |
| StateOverlay.TrimColon | core/state-overlay.go:232 | `strings.TrimSuffix` removes exactly the loop's final colon |
| StateOverlay.DataDirInjective | core/state-overlay.go:229 | Different states have different `data` directories |
| StateOverlay.LowerChain | core/state-overlay.go:226-232 | The lower chain has one entry per state: `/usr`, then the `data` directory of every state but the top one, in sorted order |
| StateOverlay.TopNotInLowerChain | core/state-overlay.go:228-233 | The top state's `data` directory is never among the lower directories |
| StateOverlay.JoinPrefix | core/state-overlay.go:227-232 | A chain of two or more directories starts with the first one and a colon |
| StateOverlay.MountOptions | core/state-overlay.go:235 | The overlayfs options start with `lowerdir=`, the given lower directories and `,upperdir=` |
| StateOverlay.MountOptionsInjective | core/state-overlay.go:235 | Two option lines for the same top state are equal only when their lower directories are |
| StateOverlay.UnitOptions | core/state-overlay.go:233-235 | The unit's options always begin with `auto,` and then `lowerdir=/usr`: the source tree is the lowest layer |
| StateOverlay.LiveOptions | core/state-overlay.go:55 | The live mount's options begin with `lowerdir=/usr,`: `/usr` is its only lower directory |
| StateOverlay.LiveMountSingleState | core/state-overlay.go:55 | With a single state, the live mount and the boot unit have the same options |
| StateOverlay.LiveMountIgnoresLowerStates | core/state-overlay.go:55 | With two or more states, the live mount differs from the boot unit: it has only `/usr` below the new state |
| StateOverlay.LowerChainExamples | core/state-overlay.go:209-232 | Concrete stacks: `/usr` alone below state 0; `/usr`, state 0 and state 1 below state 2 |
| StateOverlay.StringSortPutsNineOverTen | core/state-overlay.go:222-224 | With states 9 and 10, state 10 sorts first and becomes a lower layer, and 9 is the writable top |
| StateOverlay.IndexOf | core/state-overlay.go:156-158 | The found position holds the name; -1 means no entry bears it |
| StateOverlay.EnsureDir | core/state-overlay.go:42 | `os.MkdirAll` of a state keeps an existing directory, adds a missing one and changes nothing else |
| StateOverlay.AddChild | core/state-overlay.go:47-52 | Making `data` or `temp` keeps every entry's name and kind, and changes only the state's own entry |
| StateOverlay.Without | core/state-overlay.go:167 | The rename leaves exactly the entries not named by the id |
| StateOverlay.WithoutUnique | core/state-overlay.go:167 | The rename keeps the active area's names unique |
| StateOverlay.WithoutSorted | core/state-overlay.go:167 | The rename keeps the active area sorted by name |
| StateOverlay.Created | core/state-overlay.go:40-52 | StateNew's directories add one entry to the area exactly when the state directory was missing |
| StateOverlay.CreatedSorted | core/state-overlay.go:40-52 | StateNew's directories keep the area sorted by name |
| StateOverlay.EnsureDirSorted | core/state-overlay.go:42 | `os.MkdirAll` of a state keeps the area sorted by name |
| StateOverlay.AddChildSorted | core/state-overlay.go:47-52 | Making `data` or `temp` keeps the area sorted by name |
| StateOverlay.CreatedListed | core/state-overlay.go:40-52 | After StateNew's directories exist the new id is listed. A new id takes its place in string order among the earlier states; an existing state directory leaves the list as it was |
| StateOverlay.TenListedBeforeNine | core/state-overlay.go:40-52 | With state 9 present, the new state 10 is listed before 9 |
| StateOverlay.CreatedContents | core/state-overlay.go:40-52 | Every other entry is kept, and the new state has `data` and `temp` directories |
| StateOverlay.TrashedNameLeaves | core/state-overlay.go:167 | After the rename the trashed id is no longer listed as active |
| StateOverlay.OtherStatesStay | core/state-overlay.go:167 | Every other active state stays listed |
| StateOverlay.TrashedNameArrives | core/state-overlay.go:167 | The trashed state is listed in the trash at its place in string order, and the trash listing stays strictly increasing |
| StateOverlay.EmptiedTrash | core/state-overlay.go:178-188 | When both steps succeed the trash exists and is empty; when the removal fails it is untouched |
| StateOverlay.LiveMountMissesStates | core/state-overlay.go:162-164 | StateNew's live mount is on `/usr`, never on a state directory, so StateTrash still cannot unmount a state nothing else mounted |
| StateOverlay.RegenOutcome | core/state-overlay.go:218-268 | Regeneration panics if and only if both areas can be listed and no active state is left; success needs an active state |
| StateOverlay.RegenUnit | core/state-overlay.go:237-268 | The unit ends up enabled exactly when it already was or the regeneration succeeded |
| StateOverlay.RegenUnitStacksStates | core/state-overlay.go:215-235 | A written unit stacks the active states in the order StateList gives them, which the sort leaves unchanged. Every other state is below the top in string order, `/usr` is the lowest layer, and the top is not among the lower layers |
| StateOverlay.RegenOkWritesUnit | core/state-overlay.go:253-268 | Regeneration succeeds only after writing the options of the sorted active states and enabling the unit |
| StateOverlay.OnlyStateLeft | core/state-overlay.go:167-171 | When no active state is left after the rename, the trashed state was the only one |
| StateOverlay.SomeStateLeft | core/state-overlay.go:167-171 | A state left after the rename was already active and is not the trashed one |
| StateOverlay.TrashingLastStateCrashes | core/state-overlay.go:218-228 | The regeneration after a rename panics if and only if the trashed state was the only active state |
| StateOverlay.NewStateIsStacked | core/state-overlay.go:38-69 | After StateNew's directories exist, regeneration cannot panic. A written unit stacks the earlier states with the new one at its place in string order |
| StateOverlay.StateEngine.constructor | core/state-overlay.go:14-20 | The engine starts from the given areas, mount table and unit |
| StateOverlay.StateEngine.Init | core/state-overlay.go:22-36 | As root, create the states area and then the trash area, stopping at the first failure; nothing else changes |
| StateOverlay.StateEngine.StateList | core/state-overlay.go:76-109 | Both listings filtered to integer-named directories, each strictly increasing in string order. Fails when either area cannot be read, and the trash is read only after the states area |
| StateOverlay.StateEngine.StateNextId | core/state-overlay.go:111-131 | Returns NextId of the two areas |
| StateOverlay.StateEngine.StateEmptyTrash | core/state-overlay.go:178-188 | The trash becomes EmptiedTrash, the error reports either failed step, and nothing else changes |
| StateOverlay.StateEngine.StateMountUnitRegenerate | core/state-overlay.go:190-269 | The outcome is RegenOutcome. The unit becomes RegenUnit. The areas and the mounts are unchanged |
| StateOverlay.StateEngine.MakeStateDirs | core/state-overlay.go:41-52 | The active area after each prefix of the three `os.MkdirAll` calls that succeeded; Ok exactly when all three succeed |
| StateOverlay.StateEngine.StateNew | core/state-overlay.go:38-74 | Creates exactly the directories of the id NextId chose, inserting a new entry at its place in name order so that both areas stay sorted by name. On success it mounts that state live over `/usr` with its `data`/`temp`, empties the trash and regenerates the unit. Errors stop at the failing step and leave trash, mounts and unit as they were |
| StateOverlay.StateEngine.MoveToTrash | core/state-overlay.go:155-169 | NotExist when no entry bears the id. An error with both areas unchanged when the unmount or the rename fails. Otherwise exactly that entry leaves the active area and enters the trash at its place in name order; both stay sorted |
| StateOverlay.StateEngine.StateTrash | core/state-overlay.go:154-176 | MoveToTrash's cases: the entry leaves the states area and enters the trash at its place in name order, and both areas stay sorted by name. After a move the unit is regenerated, and the call reports only a panic there (no state left) |
| StateOverlay.StateEngine.StateRollback | core/state-overlay.go:271-277 | Succeeds and changes nothing |
| StateOverlay.RegenerateUnit | core/state-overlay.go:218-268 | The regeneration's outcome and unit are RegenOutcome and RegenUnit of the two areas |
| StateOverlay.BuildUnitOptions | core/state-overlay.go:226-235 | The loop-built options line equals UnitOptions of the sorted states |
| StateOverlay.HighestId | core/state-overlay.go:118-128 | The loop computes MaxId of the states |
| StateOverlay.CollectStates | core/state-overlay.go:86-92 | The loop computes StateNames of the listing |
| Overlay.AddDirs | core/overlay.go:69-79 | The made directories exist as directories; nothing else is added or changed |
| Overlay.DirsMade | core/overlay.go:69-79 | At most the four directories are made |
| Overlay.DirsMadeNext | core/overlay.go:74-79 | Past the work directory, one more directory is made exactly when its step succeeds and no file is in the way |
| Overlay.SubdirsInTree | core/overlay.go:68-79 | The four directories are distinct and lie in the work directory's tree |
| Overlay.RemoveTree | core/overlay.go:127-130 | `os.RemoveAll` removes the directory and everything under it, and keeps every other path as it was |
| Overlay.RemoveTreeUndoesAddDirs | core/overlay.go:127-130 | Removing a fresh work directory's tree gives back the file system from before any prefix of its creation |
| Overlay.WorkDirLeftBehind | core/overlay.go:69-86 | Once the work directory is made, it stays behind whatever fails next, the mount included |
| Overlay.PrunedIdempotent | core/overlay.go:299-309 | A second orphan pass changes nothing |
| Overlay.Pruned | core/overlay.go:299-309 | The orphan pass keeps exactly the rows whose work directory exists, each unchanged |
| Overlay.FreshRowNotOrphan | core/overlay.go:68-90 | The row a successful OverlayAdd registers survives the next orphan pass |
| Overlay.RegisterThenRemove | core/overlay.go:224-275 | Removing a just-registered row gives back the catalogue, and the listing gains exactly the new pair |
| Overlay.Listing | core/overlay.go:137-167 | One pair per catalogued path, mapping it to its work directory |
| Overlay.OverlayManager.constructor | core/overlay.go:15-18 | The manager starts from the given catalogue, file system and mounts, with no copies |
| Overlay.OverlayManager.Init | core/overlay.go:20-39 | As root, make the overlays directory if missing (a failure is ignored), then prune orphans; otherwise nothing changes |
| Overlay.OverlayManager.OverlayCheck | core/overlay.go:169-193 | True exactly when the catalogue has a row for the path |
| Overlay.OverlayManager.RegisterOverlay | core/overlay.go:224-248 | Inserts the row for a new key. An existing key ends the process and leaves the catalogue unchanged |
| Overlay.OverlayManager.RemoveOverlay | core/overlay.go:250-275 | The catalogue without the key, whether or not it was there |
| Overlay.OverlayManager.OverlayList | core/overlay.go:137-167 | The catalogue as a map from original path to work directory; empty when the database fails |
| Overlay.OverlayManager.RemoveOrphanOverlays | core/overlay.go:299-309 | The catalogue becomes Pruned: exactly the rows whose work directory exists |
| Overlay.OverlayManager.CopyDir | core/overlay.go:277-297 | NotExist for a missing source and NotADirectory for a file. A directory is copied unless the copy fails |
| Overlay.OverlayManager.MakeWorkDir | core/overlay.go:68-79 | Makes exactly the first DirsMade of the four directories |
| Overlay.OverlayManager.OverlayAdd | core/overlay.go:52-95 | Errors for a missing path and for a catalogued path without `force`, changing nothing. Failures up to the mount add no row and leave the made directories. After the mount, a new path gets exactly the row path -> work directory, and a catalogued one ends the process |
| Overlay.OverlayManager.OverlayRemove | core/overlay.go:97-135 | NotOverlayed for an uncatalogued path. An error with no change when no unmount succeeds. Otherwise: unmount, drop the row, copy `upper` back only with `keep`, then remove the work directory, stopping at the first failure |
| Performer.ImmutableFlagReadsLsattr | core/performer.go:140-149 | On a line `lsattr` prints, the flag is 1 exactly when the immutable attribute is set, and there is no panic |
| Performer.ImmutableFlagOnFailure | core/performer.go:140-149 | A failed `lsattr` reads as 0. Output shorter than five bytes panics, and 1 means byte 4 is `i` |
| Performer.GetImmutableFlag | core/performer.go:140-149 | The flag read is 0 or 1, or a panic |
| Performer.IfDiffSkipsOnMismatch | core/performer.go:94-103 | The `ifDiff` test skips a path exactly when its attribute does not match the recorded mode |
| Performer.Flip | core/performer.go:105-135 | Every listed entry whose attribute can be changed becomes locked (state 0) or unlocked; every other path keeps its attribute |
| Performer.FlipAllEffect | core/performer.go:25-30 | Walking the managed paths gives each changeable managed entry the state's attribute and leaves every other path as it was |
| Performer.FlipAll | core/performer.go:18-55 | Locking only adds to the immutable set and unlocking only removes from it |
| Performer.FlipAllIdempotent | core/performer.go:18-35 | Entering a mode twice is entering it once |
| Performer.FlipAllLastWins | core/performer.go:18-55 | Entering one mode after another equals entering only the last one |
| Performer.StagedUpdateUnlocks | core/performer.go:65-72 | At shutdown, a staged update or upgrade always chooses read-write |
| Performer.DefaultAction | core/performer.go:57-87 | The mode is kept if and only if at shutdown, with nothing staged and `PersistModeStatus` "1" |
| Performer.OnlyZeroLocks | core/performer.go:81-85 | Read-only is chosen if and only if `DefaultMode` is "0" and neither shutdown case applies |
| Performer.LockController.constructor | core/performer.go:10-16 | The controller starts from the given configuration, attributes and listings |
| Performer.LockController.SetImmutableFlag | core/performer.go:89-138 | Never returns an error. With `ifDiff` a short `lsattr` output panics and a skip changes nothing. Otherwise the path's entries get the state's attribute as Flip says |
| Performer.LockController.ApplyToManagedPaths | core/performer.go:25-30 | The loop gives the attributes FlipAll over the managed paths in order |
| Performer.LockController.SetConfig | core/performer.go:33 | The key gets the value when the save succeeds; otherwise the configuration is unchanged |
| Performer.LockController.EnterRo | core/performer.go:18-35 | As root, lock every managed path, then record mode "0"; without root, change nothing |
| Performer.LockController.EnterRw | core/performer.go:37-55 | As root, unlock every managed path, then record mode "1"; without root, change nothing |
| Performer.LockController.EnterDefault | core/performer.go:57-87 | As root, enter the mode DefaultAction chooses, or change nothing when it keeps the mode; without root, change nothing |

## Left out

- Output: printing, `verbose` and `StateStatus`, which only prints the two listings.
- Root detection: `RootCheck` is the `isRoot` input of the operations that check it.
- `PackageKitUpdatePrepared`/`PackageKitUpgradePrepared` are not part of this model. The two D-Bus answers are boolean inputs of `EnterDefault`.
- `Get`/`Set` of the configuration are not part of this model. The configuration is a string map. A missing key or a load error reads as "". A failed save is the `saveOk` input.
- `uuid.New()` and `time.Now()` are inputs of `OverlayAdd`.
- The SQLite database is a map keyed by the original path, so one row per path holds by construction. These paths are left out:
  - `initDb` creating the table;
  - the open, prepare and exec failures that end the process in `overlayCheck`, `getOverlay`, `registerOverlay` and `removeOverlay`;
  - `getOverlay` failing after `overlayCheck` succeeded.
  Only the primary-key violation of `registerOverlay` is modelled.
- Overlay.OverlayManager.OverlayList: a failure to open or query the database gives the empty map. A scan error part-way through, which returns the rows read so far, is not modelled.
- `copy.Copy` records a (source, destination) pair. The copied contents and the merge onto the original are not modelled.
- `os.RemoveAll` either removes the whole tree or fails without removing anything. Partial removal is not modelled.
- StateOverlay.Moved: a rename onto a name the trash already holds always fails. rename(2) would replace an empty directory.
- The text of the unit file and the `systemctl daemon-reload`/`enable` calls are abstract steps. Only the `Options=` line is modelled.
- `sort.Slice` is represented by an insertion sort over Go's string order. `LexOrder.SortedUnique` shows that any correct sort of distinct names gives the same order. State names in one listing are distinct.
- `filepath.Glob` results are the `Listing` input, in the order it returns them.
- Performer.LockController.SetImmutableFlag: a file that can be opened neither for writing nor for reading is handed to `SetAttr`/`UnsetAttr` as a nil file when `verbose` is off. The attribute change then fails, which the model expresses by putting that file in `failing`. `SetAttr`/`UnsetAttr` themselves are not part of this model.
- Performer.GetImmutableFlag reads byte 4 of the whole `lsattr` output. For a directory that output has one line per entry. `ImmutableFlagReadsLsattr` states the single-line case.
- The attribute walk is sequential, as in the code. There is no parallel fan-out, locking or concurrency in the modelled code.
- `StateRollback` is the stub the code has. No rollback behaviour is invented.
- Flip: the immutable set is keyed by path. `os.OpenFile` and `SetAttr` follow symbolic links and act on the inode, so paths that alias one inode through a symbolic or hard link change together. That aliasing is not modelled, for example `/bin` linked into `/usr` on a merged-`/usr` system.
- FlipAllEffect: for the same reason, "every other path keeps its attribute" holds only for paths that share no inode with a changed entry.
