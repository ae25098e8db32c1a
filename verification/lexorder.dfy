/** Go's `<` on strings, used by `sort.Slice` in StateMountUnitRegenerate.
    Go compares the UTF-8 bytes; UTF-8 preserves code-point order, so
    comparing the characters of `seq<char>` gives the same answer.  The
    library sort itself is represented by an insertion sort over that
    order; `SortedUnique` shows every correct sort of distinct names gives
    the same sequence, so the unstable `sort.Slice` is determined. */
module LexOrder {

  /** `a < b` for Go strings: a proper prefix is smaller, otherwise the
      first differing character decides. */
  predicate Less(a: string, b: string)
    ensures a < b ==> Less(a, b)
  {
    if a == [] then b != []
    else if b == [] then false
    else if a[0] != b[0] then a[0] < b[0]
    else Less(a[1..], b[1..])
  }

  lemma {:induction false} LessIrreflexive(a: string)
    ensures !Less(a, a)
  {
    if a != [] { LessIrreflexive(a[1..]); }
  }

  lemma {:induction false} LessTransitive(a: string, b: string, c: string)
    requires Less(a, b) && Less(b, c)
    ensures Less(a, c)
  {
    if a != [] && a[0] == b[0] && b[0] == c[0] {
      LessTransitive(a[1..], b[1..], c[1..]);
    }
  }

  lemma {:induction false} LessTotal(a: string, b: string)
    requires a != b
    ensures Less(a, b) || Less(b, a)
  {
    if a != [] && b != [] && a[0] == b[0] {
      assert a == [a[0]] + a[1..] && b == [b[0]] + b[1..];
      LessTotal(a[1..], b[1..]);
    }
  }

  lemma {:induction false} LessAsymmetric(a: string, b: string)
    requires Less(a, b)
    ensures !Less(b, a)
  {
    if a != [] && b != [] && a[0] == b[0] {
      LessAsymmetric(a[1..], b[1..]);
    }
  }

  /** "not greater" is transitive because `Less` is a strict total order. */
  lemma NotLessTransitive(a: string, b: string, c: string)
    requires !Less(b, a) && !Less(c, b)
    ensures !Less(c, a)
  {
    if Less(c, a) {
      if a == b {
      } else {
        LessTotal(a, b);
        LessTransitive(c, a, b);
      }
    }
  }

  /** Non-decreasing in Go's string order. */
  predicate Sorted(s: seq<string>)
  {
    forall i, j :: 0 <= i < j < |s| ==> !Less(s[j], s[i])
  }

  /** Strictly increasing in Go's string order. */
  predicate StrictlySorted(s: seq<string>)
  {
    forall i, j :: 0 <= i < j < |s| ==> Less(s[i], s[j])
  }

  predicate Distinct(s: seq<string>)
  {
    forall i, j :: 0 <= i < j < |s| ==> s[i] != s[j]
  }

  /** A strictly increasing sequence has no repeats. */
  lemma StrictDistinct(s: seq<string>)
    requires StrictlySorted(s)
    ensures Distinct(s)
  {
    forall i, j | 0 <= i < j < |s| ensures s[i] != s[j] {
      LessIrreflexive(s[i]);
    }
  }

  /** The first two elements of a distinct sequence differ. */
  lemma DistinctHead(s: seq<string>)
    requires Distinct(s)
    ensures |s| >= 2 ==> s[0] != s[1]
  {
  }

  function Insert(x: string, s: seq<string>): (r: seq<string>)
    ensures multiset(r) == multiset(s) + multiset{x}
    ensures |r| == |s| + 1
  {
    if s == [] || !Less(s[0], x) then [x] + s
    else
      assert s == [s[0]] + s[1..];
      [s[0]] + Insert(x, s[1..])
  }

  /** The order `sort.Slice(states, states[i] < states[j])` produces. */
  function Sort(s: seq<string>): (r: seq<string>)
    ensures multiset(r) == multiset(s)
    ensures |r| == |s|
  {
    if s == [] then []
    else
      assert s == [s[0]] + s[1..];
      Insert(s[0], Sort(s[1..]))
  }

  /** Inserting a value no smaller than `b` among values no smaller than
      `b` gives values no smaller than `b`. */
  lemma {:induction false} InsertLowerBound(x: string, s: seq<string>, b: string)
    requires !Less(x, b) && forall k :: 0 <= k < |s| ==> !Less(s[k], b)
    ensures forall k :: 0 <= k < |Insert(x, s)| ==> !Less(Insert(x, s)[k], b)
  {
    if s != [] && Less(s[0], x) {
      InsertLowerBound(x, s[1..], b);
      var t := Insert(x, s[1..]);
      var r := [s[0]] + t;
      forall k | 0 <= k < |r| ensures !Less(r[k], b) {
        if k > 0 {
          assert r[k] == t[k - 1];
        }
      }
    }
  }

  lemma {:induction false} InsertSorted(x: string, s: seq<string>)
    requires Sorted(s)
    ensures Sorted(Insert(x, s))
  {
    if s == [] || !Less(s[0], x) {
      forall j | 0 <= j < |s| ensures !Less(s[j], x) {
        if j > 0 { NotLessTransitive(x, s[0], s[j]); }
      }
    } else {
      var t := Insert(x, s[1..]);
      InsertSorted(x, s[1..]);
      LessAsymmetric(s[0], x);
      InsertLowerBound(x, s[1..], s[0]);
      var r := [s[0]] + t;
      forall i, j | 0 <= i < j < |r| ensures !Less(r[j], r[i]) {
        if i > 0 { assert r[i] == t[i - 1] && r[j] == t[j - 1]; }
      }
    }
  }

  /** The model of `sort.Slice` leaves its argument in Go's string order. */
  lemma {:induction false} SortSorted(s: seq<string>)
    ensures Sorted(Sort(s))
  {
    if s != [] {
      SortSorted(s[1..]);
      InsertSorted(s[0], Sort(s[1..]));
    }
  }

  lemma Occurrences(s: seq<string>, i: nat, j: nat)
    requires i < j < |s|
    ensures multiset(s)[s[i]] >= if s[i] == s[j] then 2 else 1
  {
    assert s == s[..i] + [s[i]] + s[i + 1..j] + [s[j]] + s[j + 1..];
  }

  lemma DistinctByMultiset(s: seq<string>)
    requires forall x :: multiset(s)[x] <= 1
    ensures Distinct(s)
  {
    forall i, j | 0 <= i < j < |s| ensures s[i] != s[j] {
      Occurrences(s, i, j);
    }
  }

  lemma {:induction false} MultisetOfDistinct(s: seq<string>)
    requires Distinct(s)
    ensures forall x :: multiset(s)[x] <= 1
  {
    if s != [] {
      MultisetOfDistinct(s[1..]);
      assert s == [s[0]] + s[1..];
      assert s[0] !in s[1..];
    }
  }

  /** Sorting distinct names gives a strictly increasing sequence. */
  lemma SortStrict(s: seq<string>)
    requires Distinct(s)
    ensures StrictlySorted(Sort(s)) && Distinct(Sort(s))
  {
    var r := Sort(s);
    SortSorted(s);
    MultisetOfDistinct(s);
    DistinctByMultiset(r);
    forall i, j | 0 <= i < j < |r| ensures Less(r[i], r[j]) {
      LessTotal(r[i], r[j]);
    }
  }

  /** The first element of a strictly increasing sequence is below every
      other element of it. */
  lemma SameHead(a: seq<string>, b: seq<string>)
    requires StrictlySorted(a) && StrictlySorted(b)
    requires multiset(a) == multiset(b) && a != [] && b != []
    ensures a[0] == b[0]
  {
    assert a[0] in multiset(b) && b[0] in multiset(a);
    var i :| 0 <= i < |b| && b[i] == a[0];
    var j :| 0 <= j < |a| && a[j] == b[0];
    if i != 0 && j != 0 {
      assert Less(b[0], b[i]);
      assert Less(a[0], a[j]);
      LessAsymmetric(a[0], b[0]);
    }
  }

  /** Two strictly increasing sequences with the same elements are equal:
      any correct sort of distinct names returns `Sort`'s answer. */
  lemma {:induction false} SortedUnique(a: seq<string>, b: seq<string>)
    requires StrictlySorted(a) && StrictlySorted(b)
    requires multiset(a) == multiset(b)
    ensures a == b
  {
    if a != [] && b != [] {
      SameHead(a, b);
      assert a == [a[0]] + a[1..] && b == [b[0]] + b[1..];
      assert multiset(a[1..]) == multiset(b[1..]) by {
        assert multiset(a) == multiset{a[0]} + multiset(a[1..]);
        assert multiset(b) == multiset{a[0]} + multiset(b[1..]);
        forall x ensures multiset(a[1..])[x] == multiset(b[1..])[x] {
          assert multiset(a)[x] == multiset(b)[x];
        }
      }
      SortedUnique(a[1..], b[1..]);
    } else {
      assert |multiset(a)| == |a| && |multiset(b)| == |b|;
    }
  }
}
