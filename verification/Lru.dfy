/**
  LRUCache of include/cxlcontroller.h. `Lru` is the abstract cache, a recency order and its entries;
  `LruCache` is the list, map and iterator-map structure that implements it. Calls are served one at
  a time. With a capacity of 0 the other calls find nothing, and `put` is undefined: it would evict from
  an empty list.
 */
module Lru {
  import opened Common
  import opened History
  import opened Recency

  datatype Entry = Entry(key: nat, value: nat, timestamp: nat)

  datatype Lru = Lru(limit: nat, recency: seq<nat>, entries: map<nat, Entry>)

  /** `cache.size() >= capacity` compares in 64 bits without sign, so a negative capacity is a huge one. */
  function Limit(capacity: int): nat
    requires -0x8000_0000 <= capacity < 0x8000_0000
  {
    if capacity < 0 then capacity + UINT64_VALUES else capacity
  }

  /** A negative capacity allows more than 2^63 entries. */
  lemma NegativeCapacityIsHuge(capacity: int)
    requires -0x8000_0000 <= capacity < 0x8000_0000
    ensures capacity < 0 ==> Limit(capacity) > 0x8000_0000_0000_0000
    ensures capacity >= 0 ==> Limit(capacity) == capacity
  {
  }

  function New(limit: nat): Lru {
    Lru(limit, [], map[])
  }

  function Peek(l: Lru, k: nat): Option<nat> {
    if k in l.entries then Some(l.entries[k].value) else None
  }

  /** Make a new key the most recent one. */
  function Push(l: Lru, k: nat, e: Entry): Lru {
    l.(recency := [k] + l.recency, entries := l.entries[k := e])
  }

  function Remove(l: Lru, k: nat): (Lru, bool) {
    if k !in l.entries then (l, false)
    else (l.(recency := Without(l.recency, k), entries := l.entries - {k}), true)
  }

  /** Room for one more key: drop the least recently used one when full. */
  function Evict(l: Lru): Lru {
    if |l.recency| < l.limit || l.recency == [] then l
    else var n := |l.recency| - 1; l.(recency := l.recency[..n], entries := l.entries - {l.recency[n]})
  }

  function Get(l: Lru, k: nat, time: nat): (Lru, Option<nat>) {
    if k !in l.entries then (l, None)
    else (Push(Remove(l, k).0, k, l.entries[k].(timestamp := time)), Some(l.entries[k].value))
  }

  function Put(l: Lru, k: nat, value: nat, time: nat): Lru {
    Push(if k in l.entries then Remove(l, k).0 else Evict(l), k, Entry(k, value, time))
  }

  datatype Op = GetOp(key: nat, time: nat) | PutOp(key: nat, value: nat, time: nat) | RemoveOp(key: nat) | ClearOp

  function Apply(l: Lru, op: Op): Lru {
    match op
    case GetOp(k, time) => Get(l, k, time).0
    case PutOp(k, value, time) => Put(l, k, value, time)
    case RemoveOp(k) => Remove(l, k).0
    case ClearOp => New(l.limit)
  }

  function Run(l: Lru, ops: seq<Op>): Lru
    decreases |ops|
  {
    if ops == [] then l else Run(Apply(l, ops[0]), ops[1..])
  }

  // ---------------------------------------------------------------------------------------------
  // Invariant
  // ---------------------------------------------------------------------------------------------

  ghost predicate Inv(l: Lru) {
    && |l.recency| <= l.limit
    && Distinct(l.recency)
    && (forall k :: k in l.recency <==> k in l.entries)
    && (forall k :: k in l.entries ==> l.entries[k].key == k)
  }

  lemma EvictKeepsInv(l: Lru)
    requires Inv(l) && l.limit >= 1
    ensures Inv(Evict(l)) && |Evict(l).recency| < l.limit
    ensures forall k :: k in Evict(l).entries ==> k in l.entries
  {
  }

  lemma RemoveKeepsInv(l: Lru, k: nat)
    requires Inv(l)
    ensures var l' := Remove(l, k).0; Inv(l') && k !in l'.entries
    ensures k in l.entries ==> |Remove(l, k).0.recency| == |l.recency| - 1
  {
    WithoutFacts(l.recency, k);
  }

  lemma PushKeepsInv(l: Lru, k: nat, e: Entry)
    requires Inv(l) && k !in l.entries && |l.recency| < l.limit && e.key == k
    ensures Inv(Push(l, k, e))
  {
  }

  lemma ApplyKeepsInv(l: Lru, op: Op)
    requires Inv(l) && (op.PutOp? ==> l.limit >= 1)
    ensures Inv(Apply(l, op)) && Apply(l, op).limit == l.limit
  {
    match op
    case GetOp(k, time) =>
      if k in l.entries {
        RemoveKeepsInv(l, k);
        PushKeepsInv(Remove(l, k).0, k, l.entries[k].(timestamp := time));
      }
    case PutOp(k, value, time) =>
      RemoveKeepsInv(l, k);
      EvictKeepsInv(l);
      PushKeepsInv(if k in l.entries then Remove(l, k).0 else Evict(l), k, Entry(k, value, time));
    case RemoveOp(k) => RemoveKeepsInv(l, k);
    case ClearOp =>
  }

  lemma RecencySize(l: Lru)
    requires Inv(l)
    ensures |l.entries| == |l.recency|
  {
    DistinctSize(l.recency);
    assert l.entries.Keys == Elements(l.recency);
  }

  // ---------------------------------------------------------------------------------------------
  // The recency order is the order of last use
  // ---------------------------------------------------------------------------------------------

  predicate UsesKey(op: Op, k: nat) {
    (op.GetOp? || op.PutOp?) && op.key == k
  }

  /** The position of the last get or put of a key, or -1. */
  function LastUse(ops: seq<Op>, k: nat): (n: int)
    ensures -1 <= n < |ops|
    decreases |ops|
  {
    if ops == [] then -1
    else var n := |ops| - 1; if UsesKey(ops[n], k) then n else LastUse(ops[..n], k)
  }

  /** The keys carry ranks from 0 up, falling along the list. */
  ghost predicate Falling(s: seq<nat>, rank: nat -> int) {
    && (forall i :: 0 <= i < |s| ==> rank(s[i]) >= 0)
    && (forall i, j :: 0 <= i < j < |s| ==> rank(s[i]) > rank(s[j]))
  }

  lemma WithoutKeepsFalling(s: seq<nat>, k: nat, rank: nat -> int)
    requires Falling(s, rank)
    ensures Falling(Without(s, k), rank)
  {
    if i :| 0 <= i < |s| && s[i] == k {
      assert Distinct(s);
      WithoutAt(s, i);
      var cut := s[..i] + s[i + 1..];
      assert forall j :: 0 <= j < |cut| ==> cut[j] == s[if j < i then j else j + 1];
    } else {
      WithoutFacts(s, k);
    }
  }

  /** Every listed key was used, and each was used later than those after it. */
  ghost predicate ByLastUse(s: seq<nat>, ops: seq<Op>) {
    Falling(s, (k: nat) => LastUse(ops, k))
  }

  lemma WithoutKeepsByLastUse(s: seq<nat>, k: nat, ops: seq<Op>)
    requires ByLastUse(s, ops)
    ensures ByLastUse(Without(s, k), ops)
  {
    WithoutKeepsFalling(s, k, (x: nat) => LastUse(ops, x));
  }

  /** An operation that uses none of the listed keys does not matter to them. */
  lemma OtherUseKeepsOrder(s: seq<nat>, ops: seq<Op>, op: Op)
    requires ByLastUse(s, ops) && forall i :: 0 <= i < |s| ==> !UsesKey(op, s[i])
    ensures ByLastUse(s, ops + [op])
  {
  }

  lemma UseMovesToFront(s: seq<nat>, ops: seq<Op>, op: Op)
    requires ByLastUse(s, ops) && (op.GetOp? || op.PutOp?) && op.key !in s
    ensures ByLastUse([op.key] + s, ops + [op])
  {
  }

  lemma EvictKeepsByLastUse(l: Lru, ops: seq<Op>)
    requires ByLastUse(l.recency, ops)
    ensures ByLastUse(Evict(l).recency, ops)
  {
  }

  lemma GetOrPutKeepsByLastUse(l: Lru, ops: seq<Op>, op: Op)
    requires Inv(l) && l.limit >= 1 && ByLastUse(l.recency, ops) && (op.PutOp? || (op.GetOp? && op.key in l.entries))
    ensures ByLastUse(Apply(l, op).recency, ops + [op])
  {
    if op.key in l.entries {
      RemoveKeepsInv(l, op.key);
      WithoutKeepsByLastUse(l.recency, op.key, ops);
      UseMovesToFront(Remove(l, op.key).0.recency, ops, op);
    } else {
      EvictKeepsInv(l);
      EvictKeepsByLastUse(l, ops);
      UseMovesToFront(Evict(l).recency, ops, op);
    }
  }

  lemma ApplyKeepsByLastUse(l: Lru, ops: seq<Op>, op: Op)
    requires Inv(l) && l.limit >= 1 && ByLastUse(l.recency, ops)
    ensures ByLastUse(Apply(l, op).recency, ops + [op])
  {
    if op.PutOp? || (op.GetOp? && op.key in l.entries) {
      GetOrPutKeepsByLastUse(l, ops, op);
    } else if op.RemoveOp? {
      WithoutKeepsByLastUse(l.recency, op.key, ops);
      OtherUseKeepsOrder(Apply(l, op).recency, ops, op);
    } else if op.GetOp? {
      assert op.key !in l.recency;
      OtherUseKeepsOrder(l.recency, ops, op);
    }
  }

  lemma {:induction false} RunFromKeepsByLastUse(l: Lru, past: seq<Op>, ops: seq<Op>)
    requires Inv(l) && l.limit >= 1 && ByLastUse(l.recency, past)
    ensures Inv(Run(l, ops)) && ByLastUse(Run(l, ops).recency, past + ops)
    decreases |ops|
  {
    if ops == [] {
      assert past + ops == past;
    } else {
      ApplyKeepsInv(l, ops[0]);
      ApplyKeepsByLastUse(l, past, ops[0]);
      RunFromKeepsByLastUse(Apply(l, ops[0]), past + [ops[0]], ops[1..]);
      assert past + [ops[0]] + ops[1..] == past + ops;
    }
  }

  /**
    After any calls, the list holds the cached keys in order of last use, so the key that a full cache
    evicts is the one whose last use is oldest.
   */
  lemma EvictsLeastRecentlyUsed(limit: nat, ops: seq<Op>, k: nat)
    requires limit >= 1
    ensures var l := Run(New(limit), ops);
            && ByLastUse(l.recency, ops)
            && (k in l.entries && k !in Evict(l).entries ==>
                  |l.entries| == limit
                  && forall other :: other in l.entries && other != k ==> LastUse(ops, k) < LastUse(ops, other))
  {
    RunFromKeepsByLastUse(New(limit), [], ops);
    assert [] + ops == ops;
    RunKeepsLimit(New(limit), ops);
    var l := Run(New(limit), ops);
    RecencySize(l);
    if k in l.entries && k !in Evict(l).entries {
      LastIsOldest(l, ops, k);
    }
  }

  lemma LastIsOldest(l: Lru, ops: seq<Op>, k: nat)
    requires Inv(l) && ByLastUse(l.recency, ops) && k in l.entries && k !in Evict(l).entries
    ensures |l.recency| == l.limit
    ensures forall other :: other in l.entries && other != k ==> LastUse(ops, k) < LastUse(ops, other)
  {
    var n := |l.recency| - 1;
    assert l.recency[n] == k;
    forall other | other in l.entries && other != k ensures LastUse(ops, k) < LastUse(ops, other) {
      assert other in l.recency;
      LaterInOrder(l.recency, ops, other, n);
    }
  }

  lemma LaterInOrder(s: seq<nat>, ops: seq<Op>, k: nat, n: nat)
    requires ByLastUse(s, ops) && n == |s| - 1 && k in s && k != s[n]
    ensures LastUse(ops, s[n]) < LastUse(ops, k)
  {
    var i :| 0 <= i < n && s[i] == k;
  }

  lemma {:induction false} RunKeepsLimit(l: Lru, ops: seq<Op>)
    requires Inv(l) && l.limit >= 1
    ensures Run(l, ops).limit == l.limit
    decreases |ops|
  {
    if ops != [] {
      ApplyKeepsInv(l, ops[0]);
      RunKeepsLimit(Apply(l, ops[0]), ops[1..]);
    }
  }

  // ---------------------------------------------------------------------------------------------
  // What the cache returns
  // ---------------------------------------------------------------------------------------------

  /** A put stores the value and time for its key, and drops at most the last key, and only for a new one in a full cache. */
  lemma PutIsExact(l: Lru, k: nat, value: nat, time: nat, j: nat)
    requires Inv(l) && l.limit >= 1
    ensures var l' := Put(l, k, value, time);
            var evicts := k !in l.entries && |l.recency| == l.limit;
            && k in l'.entries && l'.entries[k].value == value && l'.entries[k].timestamp == time
            && Peek(l', k) == Some(value)
            && (j != k ==> (j in l'.entries <==> j in l.entries && !(evicts && j == l.recency[|l.recency| - 1])))
            && (j != k && j in l'.entries ==> l'.entries[j] == l.entries[j])
  {
  }

  /** A get returns what peek shows, changes no value and no key, and stamps only its own key. */
  lemma GetIsExact(l: Lru, k: nat, time: nat, j: nat)
    ensures var (l', result) := Get(l, k, time);
            && result == Peek(l, k)
            && Peek(l', j) == Peek(l, j)
            && (j in l.entries ==> l'.entries[j].timestamp == if j == k then time else l.entries[j].timestamp)
  {
  }

  /** A remove takes exactly its key, and says whether it was there. */
  lemma RemoveIsExact(l: Lru, k: nat, j: nat)
    ensures var (l', removed) := Remove(l, k);
            && (removed <==> Peek(l, k).Some?)
            && Peek(l', j) == (if j == k then None else Peek(l, j))
  {
  }

  lemma {:induction false} RunSnoc(l: Lru, ops: seq<Op>, n: nat)
    requires n < |ops|
    ensures Run(l, ops[..n + 1]) == Apply(Run(l, ops[..n]), ops[n])
    decreases n
  {
    assert ops[..n + 1][1..] == ops[1..][..n];
    if n == 0 {
      assert ops[..0] == [] && ops[1..][..0] == [];
    } else {
      assert ops[..n][1..] == ops[1..][..n - 1];
      RunSnoc(Apply(l, ops[0]), ops[1..], n - 1);
    }
  }

  ghost function PutTimes(ops: seq<Op>, k: nat, value: nat): nat -> bool {
    (i: nat) => i < |ops| && ops[i].PutOp? && ops[i].key == k && ops[i].value == value
  }

  /** The calls after which an earlier value of the key is gone. */
  ghost function ChangeTimes(ops: seq<Op>, k: nat): nat -> bool {
    (i: nat) => i < |ops| && (ops[i].ClearOp? || ((ops[i].PutOp? || ops[i].RemoveOp?) && ops[i].key == k))
  }

  ghost function ShowTimes(limit: nat, ops: seq<Op>, k: nat, value: nat): nat -> bool {
    (n: nat) => n <= |ops| && Peek(Run(New(limit), ops[..n]), k) == Some(value)
  }

  lemma ShowStep(limit: nat, ops: seq<Op>, k: nat, value: nat, n: nat)
    requires limit >= 1 && n < |ops| && ShowTimes(limit, ops, k, value)(n + 1)
    ensures PutTimes(ops, k, value)(n) || (ShowTimes(limit, ops, k, value)(n) && !ChangeTimes(ops, k)(n))
  {
    var l := Run(New(limit), ops[..n]);
    RunSnoc(New(limit), ops, n);
    RunFromKeepsByLastUse(New(limit), [], ops[..n]);
    RunKeepsLimit(New(limit), ops[..n]);
    match ops[n]
    case PutOp(j, v, time) => PutIsExact(l, j, v, time, k);
    case GetOp(j, time) => GetIsExact(l, j, time, k);
    case RemoveOp(j) => RemoveIsExact(l, j, k);
    case ClearOp =>
  }

  /**
    After any calls, what peek shows for a key, and what get returns, is the value of the last put of
    that key, with no remove of it and no clear since.
   */
  lemma ReturnsLastPut(limit: nat, ops: seq<Op>, k: nat, value: nat, time: nat)
    requires limit >= 1
    ensures var l := Run(New(limit), ops);
            && Get(l, k, time).1 == Peek(l, k)
            && (Peek(l, k) == Some(value) ==> Since(PutTimes(ops, k, value), ChangeTimes(ops, k), |ops|))
  {
    GetIsExact(Run(New(limit), ops), k, time, k);
    var shows := ShowTimes(limit, ops, k, value);
    assert ops[..0] == [] && ops[..|ops|] == ops;
    forall n: nat | n < |ops| && shows(n + 1)
      ensures PutTimes(ops, k, value)(n) || (shows(n) && !ChangeTimes(ops, k)(n))
    {
      ShowStep(limit, ops, k, value, n);
    }
    ImpliesSince(shows, PutTimes(ops, k, value), ChangeTimes(ops, k), |ops|);
  }

  ghost function UseTimesAt(ops: seq<Op>, k: nat, time: nat): nat -> bool {
    (i: nat) => i < |ops| && UsesKey(ops[i], k) && ops[i].time == time
  }

  ghost function UseTimes(ops: seq<Op>, k: nat): nat -> bool {
    (i: nat) => i < |ops| && UsesKey(ops[i], k)
  }

  predicate Stamped(l: Lru, k: nat, time: nat) {
    k in l.entries && l.entries[k].timestamp == time
  }

  ghost function StampTimes(limit: nat, ops: seq<Op>, k: nat, time: nat): nat -> bool {
    (n: nat) => n <= |ops| && Stamped(Run(New(limit), ops[..n]), k, time)
  }

  lemma StampStep(limit: nat, ops: seq<Op>, k: nat, time: nat, n: nat)
    requires limit >= 1 && n < |ops| && StampTimes(limit, ops, k, time)(n + 1)
    ensures UseTimesAt(ops, k, time)(n) || (StampTimes(limit, ops, k, time)(n) && !UseTimes(ops, k)(n))
  {
    var l := Run(New(limit), ops[..n]);
    RunSnoc(New(limit), ops, n);
    RunFromKeepsByLastUse(New(limit), [], ops[..n]);
    RunKeepsLimit(New(limit), ops[..n]);
    match ops[n]
    case PutOp(j, v, t) => PutIsExact(l, j, v, t, k);
    case GetOp(j, t) => GetIsExact(l, j, t, k);
    case RemoveOp(j) => RemoveIsExact(l, j, k);
    case ClearOp =>
  }

  /** After any calls, the timestamp of a cached key is the time of its last get or put. */
  lemma StampIsLastUse(limit: nat, ops: seq<Op>, k: nat, time: nat)
    requires limit >= 1
    ensures Stamped(Run(New(limit), ops), k, time) ==> Since(UseTimesAt(ops, k, time), UseTimes(ops, k), |ops|)
  {
    var stamped := StampTimes(limit, ops, k, time);
    assert ops[..0] == [] && ops[..|ops|] == ops;
    forall n: nat | n < |ops| && stamped(n + 1)
      ensures UseTimesAt(ops, k, time)(n) || (stamped(n) && !UseTimes(ops, k)(n))
    {
      StampStep(limit, ops, k, time, n);
    }
    ImpliesSince(stamped, UseTimesAt(ops, k, time), UseTimes(ops, k), |ops|);
  }

  // ---------------------------------------------------------------------------------------------
  // Inclusion
  // ---------------------------------------------------------------------------------------------

  predicate Subsequence(a: seq<nat>, b: seq<nat>)
    decreases |b|
  {
    a == [] || (b != [] && if a[0] == b[0] then Subsequence(a[1..], b[1..]) else Subsequence(a, b[1..]))
  }

  lemma {:induction false} SubsequenceMember(a: seq<nat>, b: seq<nat>, k: nat)
    requires Subsequence(a, b) && k in a
    ensures k in b
    decreases |b|
  {
    if a[0] == b[0] {
      if k != a[0] {
        SubsequenceMember(a[1..], b[1..], k);
      }
    } else {
      SubsequenceMember(a, b[1..], k);
    }
  }

  /** A shorter head can be matched where a longer one was. */
  lemma {:induction false} SubsequenceTail(a: seq<nat>, b: seq<nat>)
    requires Subsequence(a, b) && a != []
    ensures Subsequence(a[1..], b)
    decreases |b|, 0
  {
    if a[0] == b[0] {
      SubsequencePrepend(a[1..], b[1..], b[0]);
      assert b == [b[0]] + b[1..];
    } else {
      SubsequenceTail(a, b[1..]);
      SubsequencePrepend(a[1..], b[1..], b[0]);
      assert b == [b[0]] + b[1..];
    }
  }

  lemma {:induction false} SubsequencePrepend(a: seq<nat>, b: seq<nat>, x: nat)
    requires Subsequence(a, b)
    ensures Subsequence(a, [x] + b)
    decreases |b|, 1
  {
    assert ([x] + b)[1..] == b;
    if a != [] && a[0] == x {
      SubsequenceTail(a, b);
    }
  }

  lemma {:induction false} SubsequenceWithout(a: seq<nat>, b: seq<nat>, k: nat)
    requires Subsequence(a, b)
    ensures Subsequence(Without(a, k), Without(b, k))
    decreases |b|
  {
    if a != [] {
      if a[0] == b[0] {
        SubsequenceWithout(a[1..], b[1..], k);
        if a[0] != k {
          assert Without(a, k)[1..] == Without(a[1..], k) && Without(b, k)[1..] == Without(b[1..], k);
        }
      } else {
        SubsequenceWithout(a, b[1..], k);
        if b[0] != k {
          SubsequencePrepend(Without(a, k), Without(b[1..], k), b[0]);
        }
      }
    }
  }

  lemma {:induction false} SubsequenceDropLast(a: seq<nat>, b: seq<nat>)
    requires Subsequence(a, b) && a != []
    ensures Subsequence(a[..|a| - 1], b[..|b| - 1])
    ensures Subsequence(a[..|a| - 1], b)
    decreases |b|
  {
    var a', b' := a[..|a| - 1], b[..|b| - 1];
    if a[0] == b[0] {
      if |a| > 1 {
        SubsequenceDropLast(a[1..], b[1..]);
        assert a[1..][..|a| - 2] == a'[1..] && b[1..][..|b| - 2] == b'[1..];
      }
    } else {
      SubsequenceDropLast(a, b[1..]);
      assert b[1..][..|b| - 2] == b'[1..];
      if |a| > 1 {
        assert a'[0] == a[0];
      }
    }
  }

  lemma {:induction false} SubsequenceLength(a: seq<nat>, b: seq<nat>)
    requires Subsequence(a, b)
    ensures |a| <= |b|
    decreases |b|
  {
    if a != [] {
      if a[0] == b[0] { SubsequenceLength(a[1..], b[1..]); } else { SubsequenceLength(a, b[1..]); }
    }
  }

  /** The smaller cache's order is inside the larger's, and its entries agree. */
  ghost predicate Within(s: Lru, l: Lru) {
    && Inv(s) && Inv(l) && 1 <= s.limit <= l.limit
    && Subsequence(s.recency, l.recency)
    && (forall k :: k in s.entries ==> k in l.entries && l.entries[k] == s.entries[k])
  }

  /** The smaller cache also has no more slack than the larger one. */
  ghost predicate Included(s: Lru, l: Lru) {
    Within(s, l) && |l.recency| + s.limit <= |s.recency| + l.limit
  }

  lemma RemoveKeepsWithin(s: Lru, l: Lru, k: nat)
    requires Within(s, l)
    ensures Within(Remove(s, k).0, Remove(l, k).0)
  {
    RemoveKeepsInv(s, k);
    RemoveKeepsInv(l, k);
    WithoutFacts(s.recency, k);
    WithoutFacts(l.recency, k);
    SubsequenceWithout(s.recency, l.recency, k);
  }

  lemma PushKeepsWithin(s: Lru, l: Lru, k: nat, e: Entry)
    requires Within(s, l) && k !in l.entries && e.key == k
    requires |s.recency| < s.limit && |l.recency| < l.limit
    ensures Within(Push(s, k, e), Push(l, k, e))
  {
    PushKeepsInv(s, k, e);
    PushKeepsInv(l, k, e);
    assert Push(s, k, e).recency[1..] == s.recency && Push(l, k, e).recency[1..] == l.recency;
  }

  lemma PushLargerKeepsWithin(s: Lru, l: Lru, k: nat, e: Entry)
    requires Within(s, l) && k !in l.entries && e.key == k && |l.recency| < l.limit
    ensures Within(s, Push(l, k, e))
  {
  }

  lemma EvictSmallerKeepsWithin(s: Lru, l: Lru)
    requires Within(s, l)
    ensures Within(Evict(s), l)
  {
    EvictKeepsInv(s);
    if |s.recency| == s.limit {
      SubsequenceDropLast(s.recency, l.recency);
    }
  }

  lemma EvictBothKeepsWithin(s: Lru, l: Lru)
    requires Included(s, l)
    ensures Included(Evict(s), Evict(l))
  {
    EvictKeepsInv(s);
    EvictKeepsInv(l);
    EvictSmallerKeepsWithin(s, l);
    if |l.recency| == l.limit {
      SubsequenceDropLast(s.recency, l.recency);
      var s', l' := Evict(s), Evict(l);
      forall x | x in s'.entries ensures x in l'.entries && l'.entries[x] == s'.entries[x] {
        assert x in s'.recency;
        SubsequenceMember(s'.recency, l'.recency, x);
      }
    }
  }

  lemma PutKeepsIncluded(s: Lru, l: Lru, k: nat, value: nat, time: nat)
    requires Included(s, l)
    ensures Included(Put(s, k, value, time), Put(l, k, value, time))
  {
    EvictKeepsInv(s);
    EvictKeepsInv(l);
    RemoveKeepsInv(s, k);
    RemoveKeepsInv(l, k);
    var e := Entry(k, value, time);
    if k in s.entries {
      RemoveKeepsWithin(s, l, k);
      PushKeepsWithin(Remove(s, k).0, Remove(l, k).0, k, e);
    } else if k in l.entries {
      EvictSmallerKeepsWithin(s, l);
      RemoveKeepsWithin(Evict(s), l, k);
      PushKeepsWithin(Evict(s), Remove(l, k).0, k, e);
    } else {
      EvictBothKeepsWithin(s, l);
      PushKeepsWithin(Evict(s), Evict(l), k, e);
    }
  }

  lemma GetOrRemoveKeepsIncluded(s: Lru, l: Lru, op: Op)
    requires Included(s, l) && (op.GetOp? || op.RemoveOp?)
    ensures Included(Apply(s, op), Apply(l, op))
  {
    var k := op.key;
    RemoveKeepsInv(s, k);
    RemoveKeepsInv(l, k);
    RemoveKeepsWithin(s, l, k);
    if op.GetOp? && k in l.entries {
      var e := l.entries[k].(timestamp := op.time);
      if k in s.entries {
        PushKeepsWithin(Remove(s, k).0, Remove(l, k).0, k, e);
      } else {
        PushLargerKeepsWithin(s, Remove(l, k).0, k, e);
      }
    }
  }

  lemma {:induction false} RunKeepsIncluded(s: Lru, l: Lru, ops: seq<Op>)
    requires Included(s, l)
    ensures Included(Run(s, ops), Run(l, ops))
    ensures Run(s, ops).limit == s.limit && Run(l, ops).limit == l.limit
    decreases |ops|
  {
    if ops != [] {
      match ops[0] {
        case PutOp(k, value, time) => PutKeepsIncluded(s, l, k, value, time);
        case ClearOp =>
        case _ => GetOrRemoveKeepsIncluded(s, l, ops[0]);
      }
      RunKeepsIncluded(Apply(s, ops[0]), Apply(l, ops[0]), ops[1..]);
    }
  }

  /**
    Feed the same calls to two caches of different capacity: the smaller one's recency order stays a
    subsequence of the larger one's, so every hit in the smaller is a hit with the same value in the larger.
   */
  lemma LargerCacheIncludesSmaller(small: int, large: int, ops: seq<Op>, k: nat)
    requires -0x8000_0000 <= small < 0x8000_0000 && -0x8000_0000 <= large < 0x8000_0000
    requires 1 <= Limit(small) <= Limit(large)
    ensures var s, l := Run(New(Limit(small)), ops), Run(New(Limit(large)), ops);
            && Subsequence(s.recency, l.recency)
            && (Peek(s, k).Some? ==> Peek(l, k) == Peek(s, k))
            && |s.recency| <= Limit(small) && |l.recency| <= Limit(large)
  {
    RunKeepsIncluded(New(Limit(small)), New(Limit(large)), ops);
  }

  // ---------------------------------------------------------------------------------------------
  // The cache, updated in place
  // ---------------------------------------------------------------------------------------------

  /** Popping the last node of a full list is the eviction. */
  lemma PopIsEvict(nodes: seq<Node>, limit: nat, entries: map<nat, Entry>)
    requires |nodes| == limit >= 1
    ensures var n := limit - 1;
            Evict(Lru(limit, Keys(nodes), entries)) == Lru(limit, Keys(nodes[..n]), entries - {nodes[n].key})
  {
    CutKeys(nodes, limit - 1);
    assert nodes[..limit - 1] + nodes[limit..] == nodes[..limit - 1];
    assert Keys(nodes)[..limit - 1] + Keys(nodes)[limit..] == Keys(nodes)[..limit - 1];
  }

  lemma SameKeysWithout(entries: map<nat, Entry>, index: map<nat, nat>, k: nat)
    requires entries.Keys == index.Keys
    ensures (entries - {k}).Keys == (index - {k}).Keys
    ensures forall x :: x in entries - {k} ==> x in entries && (entries - {k})[x] == entries[x]
  {
    assert (entries - {k}).Keys == entries.Keys - {k};
  }

  class LruCache {
    const capacity: int
    var cache: map<nat, Entry>
    var lruList: seq<Node>
    var lruMap: map<nat, nat>
    var nextId: nat               // identity of the next list node

    /** List, iterator map and entry map hold the same keys, within capacity. */
    ghost predicate Valid()
      reads this
    {
      && -0x8000_0000 <= capacity < 0x8000_0000
      && Linked(lruList, lruMap, nextId)
      && cache.Keys == lruMap.Keys
      && |lruList| <= Limit(capacity)
      && (forall k :: k in cache ==> cache[k].key == k)
    }

    lemma ModelInv()
      requires Valid()
      ensures Inv(Model()) && |lruList| == |cache|
    {
      LinkedKeys(lruList, lruMap, nextId);
      RecencySize(Model());
    }

    ghost function Model(): Lru
      requires -0x8000_0000 <= capacity < 0x8000_0000
      reads this
    {
      Lru(Limit(capacity), Keys(lruList), cache)
    }

    lemma WithoutShrinks(key: nat)
      requires Valid() && key in lruMap
      ensures |Erase(lruList, lruMap[key])| == |lruList| - 1
    {
      LinkedKeys(lruList, lruMap, nextId);
      EraseUnlinks(lruList, lruMap, nextId, key);
      WithoutFacts(Keys(lruList), key);
      assert |Keys(Erase(lruList, lruMap[key]))| == |Keys(lruList)| - 1;
    }

    constructor (size: int)
      requires -0x8000_0000 <= size < 0x8000_0000
      ensures Valid() && Model() == New(Limit(size)) && capacity == size
    {
      capacity := size;
      cache, lruList, lruMap, nextId := map[], [], map[], 0;
    }

    /** erase(lru_map[key]), push_front(key), lru_map[key] = begin(), and the key's new entry */
    method MoveToFront(key: nat, e: Entry)
      requires Valid() && key in cache && e.key == key
      modifies this
      ensures Valid() && Model() == Push(Remove(old(Model()), key).0, key, e)
    {
      RefreshLinks(lruList, lruMap, nextId, key);
      WithoutShrinks(key);
      lruList := Erase(lruList, lruMap[key]);
      lruList := [Node(nextId, key)] + lruList;
      lruMap := lruMap[key := nextId];
      nextId := nextId + 1;
      cache := cache[key := e];
      assert cache == (old(cache) - {key})[key := e];
    }

    method EvictLast()
      requires Valid() && capacity != 0 && |lruList| == Limit(capacity)
      modifies this`lruList, this`lruMap, this`cache
      ensures Valid() && Model() == Evict(old(Model())) && |lruList| < Limit(capacity)
      ensures forall k :: k in cache ==> k in old(cache)
    {
      var lruKey := lruList[|lruList| - 1].key;
      assert Linked(lruList[..|lruList| - 1], lruMap - {lruKey}, nextId) by {
        PopUnlinks(lruList, lruMap, nextId);
      }
      PopIsEvict(lruList, Limit(capacity), cache);
      SameKeysWithout(cache, lruMap, lruKey);
      lruList := lruList[..|lruList| - 1];
      lruMap := lruMap - {lruKey};
      cache := cache - {lruKey};
    }

    method InsertFront(key: nat, e: Entry)
      requires Valid() && key !in cache && |lruList| < Limit(capacity) && e.key == key
      modifies this
      ensures Valid() && Model() == Push(old(Model()), key, e)
    {
      PushLinks(lruList, lruMap, nextId, key);
      lruList := [Node(nextId, key)] + lruList;
      lruMap := lruMap[key := nextId];
      nextId := nextId + 1;
      cache := cache[key := e];
    }

    method GetEntry(key: nat, time: nat) returns (r: Option<nat>)
      requires Valid()
      modifies this
      ensures Valid() && (Model(), r) == Get(old(Model()), key, time)
    {
      if key !in cache {
        return None;
      }
      MoveToFront(key, cache[key].(timestamp := time));
      return Some(cache[key].value);
    }

    /** With capacity 0 the list is empty when its last key is evicted, which is undefined. */
    method PutEntry(key: nat, value: nat, time: nat)
      requires Valid() && capacity != 0
      modifies this
      ensures Valid() && Model() == Put(old(Model()), key, value, time)
    {
      var e := Entry(key, value, time);
      if key in cache {
        MoveToFront(key, e);
      } else {
        assert |lruList| == |cache| by { ModelInv(); }
        if |cache| >= Limit(capacity) {
          EvictLast();
        }
        InsertFront(key, e);
      }
    }

    method RemoveEntry(key: nat) returns (removed: bool)
      requires Valid()
      modifies this
      ensures Valid() && (Model(), removed) == Remove(old(Model()), key)
    {
      if key !in cache {
        return false;
      }
      WithoutShrinks(key);
      EraseUnlinks(lruList, lruMap, nextId, key);
      SameKeysWithout(cache, lruMap, key);
      lruList := Erase(lruList, lruMap[key]);
      lruMap := lruMap - {key};
      cache := cache - {key};
      return true;
    }

    method Clear()
      requires Valid()
      modifies this
      ensures Valid() && Model() == New(Limit(capacity))
    {
      cache, lruList, lruMap := map[], [], map[];
    }

    method PeekEntry(key: nat) returns (r: Option<nat>)
      requires Valid()
      ensures r == Peek(Model(), key)
      ensures r.Some? <==> key in Keys(lruList)
    {
      LinkedKeys(lruList, lruMap, nextId);
      if key !in cache {
        return None;
      }
      return Some(cache[key].value);
    }
  }
}
