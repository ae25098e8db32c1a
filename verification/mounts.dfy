/** The kernel mount table as the two overlay components see it: a list of
    overlay mounts, oldest first.  `unix.Unmount(target, …)` detaches the
    most recent mount on `target`. */
module Mounts {

  datatype Mount = Mount(target: string, options: string)

  predicate MountedAt(ms: seq<Mount>, target: string)
  {
    exists i :: 0 <= i < |ms| && ms[i].target == target
  }

  /** The most recent mount on `target`. */
  function TopAt(ms: seq<Mount>, target: string): (m: Mount)
    requires MountedAt(ms, target)
    ensures m in ms && m.target == target
  {
    var last := ms[|ms| - 1];
    if last.target == target then last
    else
      assert MountedAt(ms[..|ms| - 1], target) by {
        var i :| 0 <= i < |ms| && ms[i].target == target;
        assert ms[..|ms| - 1][i] == ms[i];
      }
      TopAt(ms[..|ms| - 1], target)
  }

  /** The table after the topmost mount on `target` is detached. */
  function UnmountTop(ms: seq<Mount>, target: string): (r: seq<Mount>)
    requires MountedAt(ms, target)
    ensures |r| == |ms| - 1
    ensures forall m :: m in r ==> m in ms
    ensures multiset(r) + multiset{TopAt(ms, target)} == multiset(ms)
  {
    var last := ms[|ms| - 1];
    assert ms == ms[..|ms| - 1] + [last];
    if last.target == target then ms[..|ms| - 1]
    else
      assert MountedAt(ms[..|ms| - 1], target) by {
        var i :| 0 <= i < |ms| && ms[i].target == target;
        assert ms[..|ms| - 1][i] == ms[i];
      }
      UnmountTop(ms[..|ms| - 1], target) + [last]
  }

  /** Unmounting a target right after mounting on it gives back the table
      as it was before the mount. */
  lemma UnmountUndoesMount(ms: seq<Mount>, m: Mount)
    ensures MountedAt(ms + [m], m.target)
    ensures TopAt(ms + [m], m.target) == m
    ensures UnmountTop(ms + [m], m.target) == ms
  {
    assert (ms + [m])[|ms|] == m;
    assert (ms + [m])[..|ms|] == ms;
  }
}
