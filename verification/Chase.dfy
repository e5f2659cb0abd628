/**
  init_chasing_index of microbench/uarch.h: successor links for a random pointer chase. The hardware
  random source is a given sequence of attempts, each delivering a number or nothing; a run that uses
  them all up is still inside a retry loop.
 */
module Chase {
  import opened Common
  import opened Recency

  const RDRAND_MAX_RETRY: nat := 32

  /** One execution of the random-number instruction. */
  datatype Attempt = Ready(value: nat) | NotReady

  /** What one call of get_rand comes to. */
  datatype Outcome = Number(value: nat) | Failure | DivisionByZero

  datatype Status = Done | RandomFailed | Faulted | StillDrawing

  ghost predicate Closed(links: seq<nat>) {
    links != [] && forall i :: 0 <= i < |links| ==> links[i] < |links|
  }

  /** Where k steps along the links lead from index 0. */
  ghost function Walk(links: seq<nat>, k: nat): (x: nat)
    requires Closed(links)
    ensures x < |links|
  {
    if k == 0 then 0 else links[Walk(links, k - 1)]
  }

  ghost predicate Visits(links: seq<nat>, x: nat)
    requires Closed(links)
  {
    exists k :: 0 <= k < |links| && Walk(links, k) == x
  }

  /** From 0 the links visit every index exactly once and then return to 0. */
  ghost predicate SingleCycle(links: seq<nat>) {
    && Closed(links)
    && Walk(links, |links|) == 0
    && (forall x :: 0 <= x < |links| ==> Visits(links, x))
    && (forall j, k :: 0 <= j < k < |links| ==> Walk(links, j) != Walk(links, k))
  }

  predicate LinksOn(links: seq<nat>, path: seq<nat>, k: nat)
    requires k + 1 < |path| && path[k] < |links|
  {
    links[path[k]] == path[k + 1] && path[k + 1] != 0
  }

  /**
    The path built so far: distinct indices from 0 to the current one, each linked to the next; every
    other link, and the current one, is still 0.
   */
  ghost predicate Partial(links: seq<nat>, path: seq<nat>) {
    && 1 <= |path| <= |links| && path[0] == 0
    && (forall k :: 0 <= k < |path| ==> path[k] < |links|)
    && Distinct(path)
    && (forall k :: 0 <= k < |path| - 1 ==> LinksOn(links, path, k))
    && (forall x :: 0 <= x < |links| && x !in path[..|path| - 1] ==> links[x] == 0)
  }

  /** A drawn index that is neither linked nor current is new, so linking to it extends the path. */
  lemma ExtendPath(links: seq<nat>, path: seq<nat>, next: nat)
    requires Partial(links, path) && next < |links|
    requires links[next] == 0 && next != path[|path| - 1]
    ensures |path| < |links|
    ensures Partial(links[path[|path| - 1] := next], path + [next])
  {
    var n := |path|;
    var curr := path[n - 1];
    forall k | 0 <= k < n ensures path[k] != next {
      if k < n - 1 {
        assert LinksOn(links, path, k);
      }
    }
    var links', path' := links[curr := next], path + [next];
    assert Distinct(path');
    DistinctFits(path', |links|);
    assert path'[..n] == path;
    forall k | 0 <= k < n ensures LinksOn(links', path', k) {
      if k < n - 1 {
        assert LinksOn(links, path, k);
      }
    }
    forall x | 0 <= x < |links| && x !in path ensures links'[x] == 0 {
      assert path[n - 1] in path;
      assert x !in path[..n - 1];
    }
  }

  ghost function Below(n: nat): set<nat> {
    if n == 0 then {} else Below(n - 1) + {n - 1}
  }

  lemma {:induction false} BelowFacts(n: nat)
    ensures |Below(n)| == n && forall x :: x in Below(n) <==> 0 <= x < n
  {
    if n > 0 {
      BelowFacts(n - 1);
    }
  }

  /** Distinct numbers below n are at most n many, and when they are n many they are all of them. */
  lemma DistinctFits(path: seq<nat>, n: nat)
    requires Distinct(path)
    requires forall k :: 0 <= k < |path| ==> path[k] < n
    ensures |path| <= n
    ensures |path| == n ==> forall x :: 0 <= x < n ==> x in path
  {
    var used, rest := Elements(path), Below(n) - Elements(path);
    DistinctSize(path);
    BelowFacts(n);
    assert Below(n) == used + rest;
    if |path| == n {
      assert rest == {};
      forall x | 0 <= x < n ensures x in path {
        assert x in Below(n);
        assert x in used;
      }
    }
  }

  lemma {:induction false} WalkFollowsPath(links: seq<nat>, path: seq<nat>, k: nat)
    requires Partial(links, path) && Closed(links) && k < |path|
    ensures Walk(links, k) == path[k]
  {
    if k > 0 {
      WalkFollowsPath(links, path, k - 1);
      assert LinksOn(links, path, k - 1);
    }
  }

  lemma FullPathCloses(links: seq<nat>, path: seq<nat>)
    requires Partial(links, path) && |path| == |links|
    ensures Closed(links) && links[path[|path| - 1]] == 0
    ensures forall x :: 0 <= x < |links| ==> x in path
  {
    var n := |links|;
    DistinctFits(path, n);
    assert path[n - 1] !in path[..n - 1];
    forall x | 0 <= x < n ensures links[x] < n {
      assert x in path;
      var k :| 0 <= k < n && path[k] == x;
      if k < n - 1 {
        assert LinksOn(links, path, k);
      }
    }
  }

  /** A path through all indices closes into one cycle. */
  lemma FullPathIsCycle(links: seq<nat>, path: seq<nat>)
    requires Partial(links, path) && |path| == |links|
    ensures SingleCycle(links)
  {
    var n := |links|;
    FullPathCloses(links, path);
    forall k | 0 <= k < n ensures Walk(links, k) == path[k] {
      WalkFollowsPath(links, path, k);
    }
    assert Walk(links, n) == links[Walk(links, n - 1)];
    forall x | 0 <= x < n ensures Visits(links, x) {
      assert x in path;
      var k :| 0 <= k < n && path[k] == x;
      assert Walk(links, k) == x;
    }
  }

  // ---------------------------------------------------------------------------------------------
  // The builder
  // ---------------------------------------------------------------------------------------------

  datatype Drawn = Drawn(status: Status, next: nat, rest: seq<Outcome>)

  function Remainder(value: nat, n: nat): Outcome {
    if n == 0 then DivisionByZero else Number(value % n)
  }

  /** The outcomes of successive calls of get_rand, the first having missed `misses` times already. */
  function Draws(attempts: seq<Attempt>, misses: nat, n: nat): seq<Outcome>
    decreases |attempts|
  {
    if attempts == [] then []
    else if attempts[0].Ready? then [Remainder(attempts[0].value, n)] + Draws(attempts[1..], 0, n)
    else if misses + 1 >= RDRAND_MAX_RETRY then [Failure] + Draws(attempts[1..], 0, n)
    else Draws(attempts[1..], misses + 1, n)
  }

  /** After 32 attempts in a row that deliver nothing, and not before, the call fails. */
  lemma {:induction false} FailsAfterRetries(attempts: seq<Attempt>, misses: nat, n: nat)
    requires misses < 32 && misses + |attempts| <= 32
    requires forall i :: 0 <= i < |attempts| ==> attempts[i] == NotReady
    ensures Draws(attempts, misses, n) == if misses + |attempts| == 32 then [Failure] else []
    decreases |attempts|
  {
    if attempts != [] && misses < 31 {
      FailsAfterRetries(attempts[1..], misses + 1, n);
    }
  }

  /** Draw until the number is an index that is neither linked yet nor the current one. */
  function Draw(links: seq<nat>, curr: nat, outcomes: seq<Outcome>): (d: Drawn)
    ensures d.status == Done ==> d.next < |links| && links[d.next] == 0 && d.next != curr
  {
    if outcomes == [] then Drawn(StillDrawing, 0, [])
    else match outcomes[0]
      case Failure => Drawn(RandomFailed, 0, outcomes)
      case DivisionByZero => Drawn(Faulted, 0, outcomes)
      case Number(next) =>
        if next < |links| && links[next] == 0 && next != curr then Drawn(Done, next, outcomes[1..])
        else Draw(links, curr, outcomes[1..])
  }

  /** `left` more links, starting at the current index. */
  function Build(links: seq<nat>, curr: nat, left: nat, outcomes: seq<Outcome>): (Status, seq<nat>)
    requires curr < |links|
    decreases left
  {
    if left == 0 then (Done, links)
    else
      var d := Draw(links, curr, outcomes);
      if d.status != Done then (d.status, links) else Build(links[curr := d.next], d.next, left - 1, d.rest)
  }

  function Zeros(n: nat): seq<nat> {
    seq(n, _ => 0)
  }

  lemma {:induction false} BuildFromPath(links: seq<nat>, path: seq<nat>, outcomes: seq<Outcome>)
    requires Partial(links, path)
    ensures var (status, built) := Build(links, path[|path| - 1], |links| - |path|, outcomes);
            status == Done ==> SingleCycle(built)
    decreases |links| - |path|
  {
    var curr := path[|path| - 1];
    if |path| == |links| {
      FullPathIsCycle(links, path);
    } else {
      var d := Draw(links, curr, outcomes);
      if d.status == Done {
        ExtendPath(links, path, d.next);
        BuildFromPath(links[curr := d.next], path + [d.next], d.rest);
      }
    }
  }

  /** Whatever the random source delivers, success means one cycle through all indices. */
  lemma BuildMakesOneCycle(n: nat, outcomes: seq<Outcome>)
    requires n >= 1
    ensures var (status, links) := Build(Zeros(n), 0, n - 1, outcomes);
            status == Done ==> SingleCycle(links)
  {
    BuildFromPath(Zeros(n), [0], outcomes);
  }

  /** Draws that deliver these indices, in this order. */
  function Numbers(nexts: seq<nat>): seq<Outcome> {
    if nexts == [] then [] else [Number(nexts[0])] + Numbers(nexts[1..])
  }

  /** Each index is new when its turn comes. */
  predicate Accepts(links: seq<nat>, curr: nat, nexts: seq<nat>)
    requires curr < |links|
    decreases |nexts|
  {
    nexts == [] ||
    (&& nexts[0] < |links| && links[nexts[0]] == 0 && nexts[0] != curr
     && Accepts(links[curr := nexts[0]], nexts[0], nexts[1..]))
  }

  /** The links after going from the current index through these. */
  function Follow(links: seq<nat>, curr: nat, nexts: seq<nat>): seq<nat>
    requires curr < |links| && Accepts(links, curr, nexts)
    decreases |nexts|
  {
    if nexts == [] then links else Follow(links[curr := nexts[0]], nexts[0], nexts[1..])
  }

  lemma DrawAccepts(links: seq<nat>, curr: nat, next: nat, rest: seq<Outcome>)
    requires next < |links| && links[next] == 0 && next != curr
    ensures Draw(links, curr, [Number(next)] + rest) == Drawn(Done, next, rest)
  {
    assert ([Number(next)] + rest)[1..] == rest;
  }

  lemma {:induction false} BuildAccepts(links: seq<nat>, curr: nat, nexts: seq<nat>)
    requires curr < |links| && Accepts(links, curr, nexts)
    ensures Build(links, curr, |nexts|, Numbers(nexts)) == (Done, Follow(links, curr, nexts))
    decreases |nexts|
  {
    if nexts != [] {
      DrawAccepts(links, curr, nexts[0], Numbers(nexts[1..]));
      BuildAccepts(links[curr := nexts[0]], nexts[0], nexts[1..]);
    }
  }

  /** An order in which all n indices are visited from 0. */
  ghost predicate Tour(path: seq<nat>, n: nat) {
    |path| == n >= 1 && path[0] == 0 && Distinct(path) && forall k :: 0 <= k < n ==> path[k] < n
  }

  /** The rest of a tour is accepted, and following it completes the path. */
  lemma {:induction false} TourIsAccepted(links: seq<nat>, path: seq<nat>, nexts: seq<nat>)
    requires Partial(links, path) && Tour(path + nexts, |links|)
    ensures Accepts(links, path[|path| - 1], nexts)
    ensures var built := Follow(links, path[|path| - 1], nexts);
            |built| == |links| && Partial(built, path + nexts)
    decreases |nexts|
  {
    if nexts == [] {
      assert path + nexts == path;
    } else {
      var next, n := nexts[0], |path|;
      assert (path + nexts)[n] == next;
      forall k | 0 <= k < n ensures path[k] != next {
        assert (path + nexts)[k] == path[k];
      }
      assert next !in path[..n - 1];
      ExtendPath(links, path, next);
      assert path + [next] + nexts[1..] == path + nexts;
      TourIsAccepted(links[path[n - 1] := next], path + [next], nexts[1..]);
    }
  }

  ghost function Steps(links: seq<nat>, k: nat): (path: seq<nat>)
    requires Closed(links)
    ensures |path| == k && forall i :: 0 <= i < k ==> path[i] == Walk(links, i)
  {
    if k == 0 then [] else Steps(links, k - 1) + [Walk(links, k - 1)]
  }

  lemma SameTourSameLinks(links: seq<nat>, built: seq<nat>)
    requires SingleCycle(links) && |built| == |links| && Partial(built, Steps(links, |links|))
    ensures built == links
  {
    var n, path := |links|, Steps(links, |links|);
    FullPathCloses(built, path);
    forall x | 0 <= x < n ensures built[x] == links[x] {
      assert x in path;
      var k :| 0 <= k < n && path[k] == x;
      SameLinkAt(links, built, k);
    }
  }

  lemma SameLinkAt(links: seq<nat>, built: seq<nat>, k: nat)
    requires SingleCycle(links) && |built| == |links| && Partial(built, Steps(links, |links|)) && k < |links|
    ensures built[Walk(links, k)] == links[Walk(links, k)]
  {
    var n, path := |links|, Steps(links, |links|);
    assert Walk(links, k + 1) == links[Walk(links, k)];
    if k < n - 1 {
      assert LinksOn(built, path, k);
    } else {
      FullPathCloses(built, path);
    }
  }

  lemma StepsAreTour(links: seq<nat>)
    requires SingleCycle(links)
    ensures Tour(Steps(links, |links|), |links|)
  {
  }

  function AllReady(values: seq<nat>): seq<Attempt> {
    if values == [] then [] else [Ready(values[0])] + AllReady(values[1..])
  }

  lemma ReadyIsDrawn(value: nat, rest: seq<Attempt>, n: nat)
    requires value < n
    ensures Draws([Ready(value)] + rest, 0, n) == [Number(value)] + Draws(rest, 0, n)
  {
    assert ([Ready(value)] + rest)[1..] == rest;
    assert Remainder(value, n) == Number(value);
  }

  /** Numbers that are indices already are drawn as they are. */
  lemma {:induction false} IndicesAreDrawn(nexts: seq<nat>, n: nat)
    requires forall k :: 0 <= k < |nexts| ==> nexts[k] < n
    ensures Draws(AllReady(nexts), 0, n) == Numbers(nexts)
  {
    if nexts != [] {
      IndicesAreDrawn(nexts[1..], n);
      ReadyIsDrawn(nexts[0], AllReady(nexts[1..]), n);
    }
  }

  lemma CycleIsFollowed(links: seq<nat>)
    requires SingleCycle(links)
    ensures var nexts := Steps(links, |links|)[1..];
            Build(Zeros(|links|), 0, |nexts|, Numbers(nexts)) == (Done, links)
  {
    var n, path := |links|, Steps(links, |links|);
    StepsAreTour(links);
    assert [0] + path[1..] == path;
    TourIsAccepted(Zeros(n), [0], path[1..]);
    BuildAccepts(Zeros(n), 0, path[1..]);
    SameTourSameLinks(links, Follow(Zeros(n), 0, path[1..]));
  }

  lemma CycleIsBuilt(links: seq<nat>)
    requires SingleCycle(links)
    ensures Produces(AllReady(Steps(links, |links|)[1..]), links)
  {
    var nexts := Steps(links, |links|)[1..];
    CycleIsFollowed(links);
    assert forall k :: 0 <= k < |nexts| ==> nexts[k] == Walk(links, k + 1);
    IndicesAreDrawn(nexts, |links|);
  }

  /** With these attempts the builder succeeds with these links. */
  ghost predicate Produces(attempts: seq<Attempt>, links: seq<nat>) {
    links != [] && Build(Zeros(|links|), 0, |links| - 1, Draws(attempts, 0, |links|)) == (Done, links)
  }

  /** The builder makes exactly the single cycles: nothing else, and each of them for some random numbers. */
  lemma ProducibleIffSingleCycle(links: seq<nat>)
    ensures (exists attempts :: Produces(attempts, links)) <==> SingleCycle(links)
  {
    if SingleCycle(links) {
      CycleIsBuilt(links);
    }
    if attempts :| Produces(attempts, links) {
      BuildMakesOneCycle(|links|, Draws(attempts, 0, |links|));
    }
  }

  // ---------------------------------------------------------------------------------------------
  // The methods
  // ---------------------------------------------------------------------------------------------

  /** The next outcome and the attempts after it, or None when the attempts run out first. */
  method GetRand(attempts: seq<Attempt>, n: nat) returns (outcome: Option<Outcome>, rest: seq<Attempt>)
    ensures outcome.None? ==> Draws(attempts, 0, n) == []
    ensures outcome.Some? ==> |rest| < |attempts| && Draws(attempts, 0, n) == [outcome.value] + Draws(rest, 0, n)
  {
    for i := 0 to RDRAND_MAX_RETRY
      invariant i <= |attempts|
      invariant Draws(attempts, 0, n)
             == if i < RDRAND_MAX_RETRY then Draws(attempts[i..], i, n) else [Failure] + Draws(attempts[i..], 0, n)
    {
      if i == |attempts| {
        return None, [];
      }
      assert attempts[i..][1..] == attempts[i + 1..];
      if attempts[i].Ready? {
        return Some(Remainder(attempts[i].value, n)), attempts[i + 1..];
      }
    }
    return Some(Failure), attempts[RDRAND_MAX_RETRY..];
  }

  method DrawNext(cindex: array<nat>, curr: nat, attempts: seq<Attempt>)
    returns (status: Status, next: nat, rest: seq<Attempt>)
    ensures var d := Draw(cindex[..], curr, Draws(attempts, 0, cindex.Length));
            status == d.status && next == d.next && (status == Done ==> Draws(rest, 0, cindex.Length) == d.rest)
  {
    rest := attempts;
    while true
      invariant Draw(cindex[..], curr, Draws(rest, 0, cindex.Length))
             == Draw(cindex[..], curr, Draws(attempts, 0, cindex.Length))
      decreases |rest|
    {
      var outcome, after := GetRand(rest, cindex.Length);
      if outcome.None? {
        return StillDrawing, 0, [];
      }
      assert Draws(rest, 0, cindex.Length)[1..] == Draws(after, 0, cindex.Length);
      rest := after;
      match outcome.value {
        case Failure => return RandomFailed, 0, rest;
        case DivisionByZero => return Faulted, 0, rest;
        case Number(value) =>
          if value < cindex.Length && !(cindex[value] != 0 || value == curr) {
            return Done, value, rest;
          }
      }
    }
  }

  /** An empty table is not guarded against: the loop bound wraps around and the first number is divided by zero. */
  method InitChasingIndex(cindex: array<nat>, attempts: seq<Attempt>) returns (status: Status)
    modifies cindex
    ensures cindex.Length >= 1 ==>
            (status, cindex[..]) == Build(Zeros(cindex.Length), 0, cindex.Length - 1, Draws(attempts, 0, cindex.Length))
    ensures cindex.Length == 0 ==> status == Draw([], 0, Draws(attempts, 0, 0)).status
    ensures status == Done ==> SingleCycle(cindex[..])
  {
    for i := 0 to cindex.Length
      invariant forall j :: 0 <= j < i ==> cindex[j] == 0
    {
      cindex[i] := 0;
    }
    assert cindex[..] == Zeros(cindex.Length);
    var curr: nat, rest := 0, attempts;
    if cindex.Length == 0 {
      var drawn, _, _ := DrawNext(cindex, curr, rest);
      return drawn;
    }
    BuildMakesOneCycle(cindex.Length, Draws(attempts, 0, cindex.Length));
    for i := 0 to cindex.Length - 1
      invariant curr < cindex.Length
      invariant Build(cindex[..], curr, cindex.Length - 1 - i, Draws(rest, 0, cindex.Length))
             == Build(Zeros(cindex.Length), 0, cindex.Length - 1, Draws(attempts, 0, cindex.Length))
    {
      var drawn, next, rest' := DrawNext(cindex, curr, rest);
      if drawn != Done {
        return drawn;
      }
      ghost var before := cindex[..];
      cindex[curr] := next;
      assert cindex[..] == before[curr := next];
      curr, rest := next, rest';
    }
    return Done;
  }
}
