/**
  The address ranges of CXLMemExpander in include/cxlendpoint.h: the occupation list is sorted, runs of
  consecutive addresses become ranges, and an address is looked up in the ranges.
 */
module RangeIndex {
  import opened Common
  import opened Sorting

  datatype Occupation = Occupation(timestamp: nat, address: nat, accessCount: nat)

  datatype AddressRange = AddressRange(start: nat, end: nat)

  function AddressOf(o: Occupation): int {
    o.address
  }

  predicate InRange(r: AddressRange, a: nat) {
    r.start <= a <= r.end
  }

  ghost predicate InSome(ranges: seq<AddressRange>, a: nat) {
    exists k :: 0 <= k < |ranges| && InRange(ranges[k], a)
  }

  predicate Occupied(occupation: seq<Occupation>, a: nat) {
    exists i :: 0 <= i < |occupation| && occupation[i].address == a
  }

  /** Extend the current range while addresses follow on, and start a new one otherwise. */
  function Merge(rest: seq<Occupation>, current: AddressRange): seq<AddressRange> {
    if rest == [] then [current]
    else if rest[0].address == (current.end + 1) % UINT64_VALUES then
      Merge(rest[1..], AddressRange(current.start, rest[0].address))
    else
      [current] + Merge(rest[1..], AddressRange(rest[0].address, rest[0].address))
  }

  function BuildRanges(sorted: seq<Occupation>): seq<AddressRange> {
    if sorted == [] then []
    else Merge(sorted[1..], AddressRange(sorted[0].address, sorted[0].address))
  }

  /** Ranges are not empty, and each begins no earlier than the one before it ends; they may share an endpoint. */
  ghost predicate Ordered(ranges: seq<AddressRange>) {
    && (forall k :: 0 <= k < |ranges| ==> ranges[k].start <= ranges[k].end)
    && (forall k, l :: 0 <= k < l < |ranges| ==> ranges[k].end <= ranges[l].start)
  }

  /** What can follow a current range: 64-bit addresses in order, none below its end. */
  ghost predicate Follows(rest: seq<Occupation>, current: AddressRange) {
    && current.start <= current.end < UINT64_VALUES
    && SortedBy(rest, AddressOf)
    && (forall i :: 0 <= i < |rest| ==> current.end <= rest[i].address < UINT64_VALUES)
  }

  lemma FollowsTail(rest: seq<Occupation>, current: AddressRange)
    requires Follows(rest, current) && rest != []
    ensures Follows(rest[1..], AddressRange(rest[0].address, rest[0].address))
    ensures Follows(rest[1..], AddressRange(current.start, rest[0].address))
  {
  }

  lemma {:induction false} MergeIsOrdered(rest: seq<Occupation>, current: AddressRange)
    requires Follows(rest, current)
    ensures var m := Merge(rest, current);
            m != [] && m[0].start == current.start && Ordered(m)
  {
    if rest != [] {
      FollowsTail(rest, current);
      var a := rest[0].address;
      if a == (current.end + 1) % UINT64_VALUES {
        MergeIsOrdered(rest[1..], AddressRange(current.start, a));
      } else {
        MergeIsOrdered(rest[1..], AddressRange(a, a));
        var m := Merge(rest[1..], AddressRange(a, a));
        forall l | 0 <= l < |m| ensures current.end <= m[l].start {
          if l > 0 { assert m[0].end <= m[l].start; }
        }
      }
    }
  }

  lemma {:induction false} MergeCovers(rest: seq<Occupation>, current: AddressRange, a: nat)
    requires Follows(rest, current)
    ensures InSome(Merge(rest, current), a) <==> InRange(current, a) || Occupied(rest, a)
  {
    if rest == [] {
      assert InSome([current], a) <==> InRange([current][0], a);
    } else {
      FollowsTail(rest, current);
      var b, tail := rest[0].address, rest[1..];
      assert Occupied(rest, a) <==> a == b || Occupied(tail, a) by {
        OccupiedSplit(rest, a);
      }
      if b == (current.end + 1) % UINT64_VALUES {
        assert current.end + 1 < UINT64_VALUES;
        MergeCovers(tail, AddressRange(current.start, b), a);
      } else {
        MergeCovers(tail, AddressRange(b, b), a);
        InSomeSplit(current, Merge(tail, AddressRange(b, b)), a);
      }
    }
  }

  /** Neighbouring ranges never touch: runs are merged as far as they go. */
  ghost predicate Maximal(ranges: seq<AddressRange>) {
    forall k :: 0 <= k < |ranges| - 1 ==> ranges[k].end + 1 != ranges[k + 1].start
  }

  lemma {:induction false} MergeIsMaximal(rest: seq<Occupation>, current: AddressRange)
    requires Follows(rest, current)
    ensures Maximal(Merge(rest, current))
  {
    if rest != [] {
      FollowsTail(rest, current);
      var a := rest[0].address;
      if a == (current.end + 1) % UINT64_VALUES {
        MergeIsMaximal(rest[1..], AddressRange(current.start, a));
      } else {
        MergeIsMaximal(rest[1..], AddressRange(a, a));
        MergeIsOrdered(rest[1..], AddressRange(a, a));
        var m := Merge(rest[1..], AddressRange(a, a));
        assert current.end + 1 != m[0].start;
        forall k | 0 <= k < |[current] + m| - 1 ensures ([current] + m)[k].end + 1 != ([current] + m)[k + 1].start {
          if k > 0 {
            assert m[k - 1].end + 1 != m[k].start;
          }
        }
      }
    }
  }

  lemma OccupiedSplit(rest: seq<Occupation>, a: nat)
    requires rest != []
    ensures Occupied(rest, a) <==> a == rest[0].address || Occupied(rest[1..], a)
  {
  }

  lemma InSomeSplit(r: AddressRange, m: seq<AddressRange>, a: nat)
    ensures InSome([r] + m, a) <==> InRange(r, a) || InSome(m, a)
  {
    var s := [r] + m;
    if InSome(m, a) {
      var k :| 0 <= k < |m| && InRange(m[k], a);
      assert InRange(s[k + 1], a);
    }
    if InRange(r, a) {
      assert InRange(s[0], a);
    }
    if InSome(s, a) {
      var k :| 0 <= k < |s| && InRange(s[k], a);
      if k > 0 { assert InRange(m[k - 1], a); }
    }
  }

  /** The index answers for exactly the occupied addresses. */
  ghost predicate Indexes(ranges: seq<AddressRange>, occupation: seq<Occupation>) {
    Ordered(ranges) && forall a: nat :: InSome(ranges, a) <==> Occupied(occupation, a)
  }

  /** Duplicate addresses included: adjacent ranges then share an endpoint, and the index is still exact. */
  lemma BuildIndexes(sorted: seq<Occupation>)
    requires SortedBy(sorted, AddressOf)
    requires forall i :: 0 <= i < |sorted| ==> sorted[i].address < UINT64_VALUES
    ensures Indexes(BuildRanges(sorted), sorted) && Maximal(BuildRanges(sorted))
  {
    if sorted != [] {
      var b := sorted[0].address;
      assert Follows(sorted[1..], AddressRange(b, b)) by {
        forall i | 0 < i < |sorted| ensures b <= sorted[i].address {
          assert AddressOf(sorted[0]) <= AddressOf(sorted[i]);
        }
      }
      MergeIsOrdered(sorted[1..], AddressRange(b, b));
      MergeIsMaximal(sorted[1..], AddressRange(b, b));
      forall a: nat ensures InSome(BuildRanges(sorted), a) <==> Occupied(sorted, a) {
        MergeCovers(sorted[1..], AddressRange(b, b), a);
        OccupiedSplit(sorted, a);
      }
    }
  }

  lemma OccupiedIgnoresOrder(s: seq<Occupation>, t: seq<Occupation>, a: nat)
    requires multiset(s) == multiset(t)
    ensures Occupied(s, a) <==> Occupied(t, a)
  {
    SameElements(s, t);
    if Occupied(s, a) {
      var i :| 0 <= i < |s| && s[i].address == a;
      assert s[i] in t;
    }
    if Occupied(t, a) {
      var i :| 0 <= i < |t| && t[i].address == a;
      assert t[i] in s;
    }
  }

  /** Sorting the list and merging the runs indexes the list, sorted or not. */
  lemma SortThenBuild(occupation: seq<Occupation>)
    requires forall i :: 0 <= i < |occupation| ==> occupation[i].address < UINT64_VALUES
    ensures var s := Sort(occupation, AddressOf);
            && multiset(s) == multiset(occupation)
            && (forall i :: 0 <= i < |s| ==> s[i].address < UINT64_VALUES)
            && Indexes(BuildRanges(s), s) && Indexes(BuildRanges(s), occupation)
  {
    var s := Sort(occupation, AddressOf);
    SortSorts(occupation, AddressOf);
    SameElements(occupation, s);
    assert forall i :: 0 <= i < |s| ==> s[i] in occupation;
    BuildIndexes(s);
    forall a: nat ensures Occupied(s, a) <==> Occupied(occupation, a) {
      OccupiedIgnoresOrder(s, occupation, a);
    }
  }

  /** The first range that does not end before the address decides. */
  lemma LowerBoundDecides(ranges: seq<AddressRange>, a: nat, k: nat)
    requires Ordered(ranges) && k <= |ranges|
    requires forall i :: 0 <= i < k ==> ranges[i].end < a
    requires k < |ranges| ==> a <= ranges[k].end
    ensures InSome(ranges, a) <==> k < |ranges| && InRange(ranges[k], a)
  {
  }
}
