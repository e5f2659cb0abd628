/**
  The two-host bakery lock of microbench/cxl_switch_lock_bench.c, together with the benchmark loop
  that takes it: each host runs `iters` rounds of lock, increment the shared counter, check, unlock.

  A store followed by `cxl_publish` is one step on device memory, and so is a `cxl_pull` followed by
  a load. A step of one host is a function of the state, so a run is a schedule: a sequence that
  says which host moves next. Every interleaving is some schedule. Words are 32 bits wide and wrap.
 */
module Bakery {
  import opened Common

  datatype Id = A | B

  function Other(i: Id): Id {
    if i == A then B else A
  }

  /** What a host does in its next step. */
  datatype Pc =
    | Begin          // loop head: choosing[me] = 1
    | PickTicket     // pull ticket[other]
    | TakeTicket     // ticket[me] = ot + 1
    | EndChoosing    // choosing[me] = 0
    | AwaitChoice    // spin while choosing[other]
    | AwaitTurn      // spin while the other has priority
    | LoadCounter    // critical section: pull the counter
    | StoreCounter   // publish v + 1
    | CheckCounter   // pull again and compare
    | Unlock         // ticket[me] = 0

  /** A host's locals and the two shared words that only it writes. */
  datatype Host = Host(pc: Pc, choosing: bool, ticket: nat, ot: nat, v: nat, violations: nat, rounds: nat)

  datatype Bench = Bench(a: Host, b: Host, counter: nat) {
    function Get(i: Id): Host {
      if i == A then a else b
    }
  }

  function Init(): Bench {
    var h := Host(Begin, false, 0, 0, 0, 0, 0);
    Bench(h, h, 0)
  }

  /** The wait condition of the last spin loop: the other host goes first. */
  predicate MustWait(me: Id, mine: nat, theirs: nat) {
    theirs != 0 && (theirs < mine || (theirs == mine && me == B))
  }

  function HostStep(me: Id, h: Host, o: Host, counter: nat, iters: nat): (Host, nat) {
    match h.pc
    case Begin =>
      (if h.rounds < iters then h.(pc := PickTicket, choosing := true) else h, counter)
    case PickTicket => (h.(pc := TakeTicket, ot := o.ticket), counter)
    case TakeTicket => (h.(pc := EndChoosing, ticket := (h.ot + 1) % UINT32_VALUES), counter)
    case EndChoosing => (h.(pc := AwaitChoice, choosing := false), counter)
    case AwaitChoice => (if o.choosing then h else h.(pc := AwaitTurn), counter)
    case AwaitTurn => (if MustWait(me, h.ticket, o.ticket) then h else h.(pc := LoadCounter), counter)
    case LoadCounter => (h.(pc := StoreCounter, v := counter), counter)
    case StoreCounter => (h.(pc := CheckCounter), (h.v + 1) % UINT64_VALUES)
    case CheckCounter =>
      (h.(pc := Unlock,
          violations := if counter != (h.v + 1) % UINT64_VALUES
                        then (h.violations + 1) % UINT32_VALUES else h.violations), counter)
    case Unlock => (h.(pc := Begin, ticket := 0, rounds := h.rounds + 1), counter)
  }

  function Step(s: Bench, i: Id, iters: nat): Bench {
    var (h, c) := HostStep(i, s.Get(i), s.Get(Other(i)), s.counter, iters);
    if i == A then Bench(h, s.b, c) else Bench(s.a, h, c)
  }

  /** The state after a schedule. */
  function Exec(s: Bench, schedule: seq<Id>, iters: nat): Bench
    decreases |schedule|
  {
    if schedule == [] then s else Exec(Step(s, schedule[0], iters), schedule[1..], iters)
  }

  lemma ExecConcat(s: Bench, p: seq<Id>, q: seq<Id>, iters: nat)
    ensures Exec(s, p + q, iters) == Exec(Exec(s, p, iters), q, iters)
    decreases |p|
  {
    if p == [] {
      assert p + q == q;
    } else {
      assert (p + q)[1..] == p[1..] + q;
      ExecConcat(Step(s, p[0], iters), p[1..], q, iters);
    }
  }

  predicate InCritical(h: Host) {
    h.pc.LoadCounter? || h.pc.StoreCounter? || h.pc.CheckCounter? || h.pc.Unlock?
  }

  predicate Finished(s: Bench, iters: nat) {
    s.a.pc.Begin? && s.b.pc.Begin? && s.a.rounds == iters && s.b.rounds == iters
  }

  // ---------------------------------------------------------------------------------------------
  // The inductive invariant
  // ---------------------------------------------------------------------------------------------

  predicate HasTicket(h: Host) {
    h.pc.EndChoosing? || h.pc.AwaitChoice? || h.pc.AwaitTurn? || InCritical(h)
  }

  /** Tickets taken so far by one host. */
  function Taken(h: Host): nat {
    h.rounds + if HasTicket(h) then 1 else 0
  }

  /** Increments of the counter published so far by one host. */
  function Published(h: Host): nat {
    h.rounds + if h.pc.CheckCounter? || h.pc.Unlock? then 1 else 0
  }

  /** The bakery order on (ticket, host). */
  predicate Before(i: Id, mine: nat, theirs: nat) {
    mine < theirs || (mine == theirs && i == A)
  }

  /** A host on its own: its flags follow its program counter, and its numbers are bounded. */
  predicate HostInv(h: Host, taken: nat, counter: nat, iters: nat) {
    && (h.choosing <==> h.pc.PickTicket? || h.pc.TakeTicket? || h.pc.EndChoosing?)
    && (h.ticket != 0 <==> HasTicket(h))
    && h.ticket <= taken
    && (h.pc.TakeTicket? ==> h.ot <= taken)
    && h.rounds <= iters
    && (!h.pc.Begin? ==> h.rounds < iters)
    && (h.pc.StoreCounter? ==> h.v == counter)
    && (h.pc.CheckCounter? ==> h.v + 1 == counter)
    && h.violations == 0
  }

  /** What a host past the `choosing` check knows about the other one. */
  predicate PairInv(i: Id, h: Host, o: Host) {
    && (h.pc.AwaitTurn? || InCritical(h) ==>
          && (o.pc.TakeTicket? ==> o.ot == h.ticket)
          && (o.pc.EndChoosing? ==> Before(i, h.ticket, o.ticket)))
    && (InCritical(h) && HasTicket(o) ==> Before(i, h.ticket, o.ticket))
  }

  /** The invariant as host `i` sees it: `h` is host `i`, `o` the other one. */
  predicate InvFor(i: Id, h: Host, o: Host, counter: nat, iters: nat) {
    var taken := Taken(h) + Taken(o);
    && HostInv(h, taken, counter, iters)
    && HostInv(o, taken, counter, iters)
    && PairInv(i, h, o)
    && PairInv(Other(i), o, h)
    && counter == Published(h) + Published(o)
  }

  predicate Inv(s: Bench, iters: nat) {
    InvFor(A, s.a, s.b, s.counter, iters)
  }

  lemma ChoosingKeepsInv(i: Id, h: Host, o: Host, counter: nat, iters: nat)
    requires 2 * iters < UINT32_VALUES
    requires InvFor(i, h, o, counter, iters)
    requires h.pc.Begin? || h.pc.PickTicket?
    ensures var (h', counter') := HostStep(i, h, o, counter, iters);
            InvFor(i, h', o, counter', iters)
  {
  }

  lemma TicketKeepsInv(i: Id, h: Host, o: Host, counter: nat, iters: nat)
    requires 2 * iters < UINT32_VALUES
    requires InvFor(i, h, o, counter, iters)
    requires h.pc.TakeTicket? || h.pc.EndChoosing?
    ensures var (h', counter') := HostStep(i, h, o, counter, iters);
            InvFor(i, h', o, counter', iters)
  {
  }

  lemma WaitKeepsInv(i: Id, h: Host, o: Host, counter: nat, iters: nat)
    requires 2 * iters < UINT32_VALUES
    requires InvFor(i, h, o, counter, iters)
    requires h.pc.AwaitChoice? || h.pc.AwaitTurn?
    ensures var (h', counter') := HostStep(i, h, o, counter, iters);
            InvFor(i, h', o, counter', iters)
  {
  }

  lemma CriticalKeepsInv(i: Id, h: Host, o: Host, counter: nat, iters: nat)
    requires 2 * iters < UINT32_VALUES
    requires InvFor(i, h, o, counter, iters)
    requires InCritical(h)
    ensures var (h', counter') := HostStep(i, h, o, counter, iters);
            InvFor(i, h', o, counter', iters)
  {
    assert !InCritical(o);
  }

  lemma InvIsSymmetric(i: Id, h: Host, o: Host, counter: nat, iters: nat)
    requires InvFor(i, h, o, counter, iters)
    ensures InvFor(Other(i), o, h, counter, iters)
  {
  }

  lemma HostStepKeepsInv(i: Id, h: Host, o: Host, counter: nat, iters: nat)
    requires 2 * iters < UINT32_VALUES
    requires InvFor(i, h, o, counter, iters)
    ensures var (h', counter') := HostStep(i, h, o, counter, iters);
            InvFor(i, h', o, counter', iters)
  {
    if InCritical(h) {
      CriticalKeepsInv(i, h, o, counter, iters);
    } else if h.pc.AwaitChoice? || h.pc.AwaitTurn? {
      WaitKeepsInv(i, h, o, counter, iters);
    } else if h.pc.Begin? || h.pc.PickTicket? {
      ChoosingKeepsInv(i, h, o, counter, iters);
    } else {
      TicketKeepsInv(i, h, o, counter, iters);
    }
  }

  lemma StepKeepsInv(s: Bench, i: Id, iters: nat)
    requires 2 * iters < UINT32_VALUES
    requires Inv(s, iters)
    ensures Inv(Step(s, i, iters), iters)
  {
    if i == A {
      HostStepKeepsInv(A, s.a, s.b, s.counter, iters);
    } else {
      InvIsSymmetric(A, s.a, s.b, s.counter, iters);
      HostStepKeepsInv(B, s.b, s.a, s.counter, iters);
      var t := Step(s, B, iters);
      InvIsSymmetric(B, t.b, t.a, t.counter, iters);
    }
  }

  lemma {:induction false} ExecKeepsInv(s: Bench, schedule: seq<Id>, iters: nat)
    requires 2 * iters < UINT32_VALUES
    requires Inv(s, iters)
    ensures Inv(Exec(s, schedule, iters), iters)
    decreases |schedule|
  {
    if schedule != [] {
      StepKeepsInv(s, schedule[0], iters);
      ExecKeepsInv(Step(s, schedule[0], iters), schedule[1..], iters);
    }
  }

  // ---------------------------------------------------------------------------------------------
  // Safety on every run
  // ---------------------------------------------------------------------------------------------

  lemma InvIsSafe(s: Bench, iters: nat)
    requires Inv(s, iters)
    ensures !(InCritical(s.a) && InCritical(s.b))
    ensures s.a.violations == 0 && s.b.violations == 0
    ensures Finished(s, iters) ==> s.counter == 2 * iters
  {
  }

  lemma InitInv(iters: nat)
    ensures Inv(Init(), iters)
  {
  }

  /** Mutual exclusion, the violation counter and the shared counter, in every state of every run. */
  lemma BakeryIsSafe(schedule: seq<Id>, iters: nat)
    requires 2 * iters < UINT32_VALUES
    ensures var s := Exec(Init(), schedule, iters);
            && !(InCritical(s.a) && InCritical(s.b))
            && s.a.violations == 0 && s.b.violations == 0
            && (Finished(s, iters) ==> s.counter == 2 * iters)
  {
    InitInv(iters);
    ExecKeepsInv(Init(), schedule, iters);
    InvIsSafe(Exec(Init(), schedule, iters), iters);
  }

  // ---------------------------------------------------------------------------------------------
  // The bound on iters is exact: with more rounds a ticket wraps to 0 and exclusion is lost
  // ---------------------------------------------------------------------------------------------

  ghost predicate Reaches(s: Bench, t: Bench, iters: nat) {
    exists schedule: seq<Id> :: Exec(s, schedule, iters) == t
  }

  lemma ReachesStep(s: Bench, t: Bench, i: Id, iters: nat)
    requires Reaches(s, t, iters)
    ensures Reaches(s, Step(t, i, iters), iters)
  {
    var schedule :| Exec(s, schedule, iters) == t;
    ExecConcat(s, schedule, [i], iters);
    assert Exec(t, [i], iters) == Exec(Step(t, i, iters), [], iters);
  }

  /** A host that starts while the other is not choosing takes the next ticket and comes to wait for its turn. */
  lemma RunDoorway(s: Bench, t: Bench, i: Id, iters: nat) returns (u: Bench)
    requires Reaches(s, t, iters)
    requires t.Get(i).pc.Begin? && t.Get(i).rounds < iters && !t.Get(Other(i)).choosing
    ensures Reaches(s, u, iters)
    ensures u.Get(Other(i)) == t.Get(Other(i)) && u.counter == t.counter
    ensures u.Get(i).pc.AwaitTurn? && !u.Get(i).choosing && u.Get(i).rounds == t.Get(i).rounds
    ensures u.Get(i).ticket == (t.Get(Other(i)).ticket + 1) % UINT32_VALUES
    ensures u.Get(i).violations == t.Get(i).violations
  {
    u := t;
    for n := 0 to 5
      invariant Reaches(s, u, iters)
      invariant u.Get(Other(i)) == t.Get(Other(i)) && u.counter == t.counter
      invariant u.Get(i).rounds == t.Get(i).rounds && u.Get(i).violations == t.Get(i).violations
      invariant u.Get(i).pc == [Begin, PickTicket, TakeTicket, EndChoosing, AwaitChoice, AwaitTurn][n]
      invariant n >= 2 ==> u.Get(i).ot == t.Get(Other(i)).ticket
      invariant n >= 3 ==> u.Get(i).ticket == (t.Get(Other(i)).ticket + 1) % UINT32_VALUES
      invariant n >= 4 ==> !u.Get(i).choosing
    {
      ReachesStep(s, u, i, iters);
      u := Step(u, i, iters);
    }
  }

  /** A host in its critical section runs to the end of the round. */
  lemma RunCritical(s: Bench, t: Bench, i: Id, iters: nat) returns (u: Bench)
    requires Reaches(s, t, iters)
    requires t.Get(i).pc.LoadCounter?
    ensures Reaches(s, u, iters)
    ensures u.Get(Other(i)) == t.Get(Other(i))
    ensures u.Get(i).pc.Begin? && u.Get(i).choosing == t.Get(i).choosing
    ensures u.Get(i).ticket == 0 && u.Get(i).rounds == t.Get(i).rounds + 1
    ensures u.Get(i).violations == t.Get(i).violations
  {
    u := t;
    for n := 0 to 4
      invariant Reaches(s, u, iters)
      invariant u.Get(Other(i)) == t.Get(Other(i))
      invariant u.Get(i).choosing == t.Get(i).choosing && u.Get(i).violations == t.Get(i).violations
      invariant n == 1 ==> u.Get(i).v == u.counter
      invariant n == 2 ==> u.counter == (u.Get(i).v + 1) % UINT64_VALUES
      invariant u.Get(i).pc == [LoadCounter, StoreCounter, CheckCounter, Unlock, Begin][n]
      invariant u.Get(i).rounds == t.Get(i).rounds + if n == 4 then 1 else 0
      invariant n == 4 ==> u.Get(i).ticket == 0
    {
      ReachesStep(s, u, i, iters);
      u := Step(u, i, iters);
    }
  }

  /** Host A has just entered with ticket 2k+1, host B is about to start its round k. */
  predicate Rung(s: Bench, k: nat) {
    && s.a.pc.LoadCounter? && !s.a.choosing && s.a.ticket == 2 * k + 1
    && s.a.rounds == k && s.a.violations == 0
    && s.b.pc.Begin? && !s.b.choosing && s.b.ticket == 0 && s.b.rounds == k
  }

  /** The two hosts leapfrog: neither is ever idle, so tickets keep growing. */
  lemma {:induction false} Leapfrog(k: nat, iters: nat) returns (s: Bench)
    requires k < iters && 2 * k + 1 < UINT32_VALUES
    ensures Reaches(Init(), s, iters) && Rung(s, k)
  {
    assert Exec(Init(), [], iters) == Init();
    if k == 0 {
      s := RunDoorway(Init(), Init(), A, iters);
    } else {
      s := Leapfrog(k - 1, iters);
      s := RunDoorway(Init(), s, B, iters);
      s := RunCritical(Init(), s, A, iters);
      ReachesStep(Init(), s, B, iters);
      s := Step(s, B, iters);
      s := RunDoorway(Init(), s, A, iters);
      s := RunCritical(Init(), s, B, iters);
    }
    ReachesStep(Init(), s, A, iters);
    s := Step(s, A, iters);
  }

  /** Two hosts inside together can go on until host A's check of the counter fires. */
  lemma CollideInside(s: Bench, iters: nat) returns (t: Bench)
    requires Reaches(Init(), s, iters)
    requires s.a.pc.LoadCounter? && s.b.pc.LoadCounter? && s.a.violations == 0
    ensures Reaches(Init(), t, iters) && t.a.violations == 1
  {
    t := s;
    ghost var order := [A, A, B, B, A];
    for n := 0 to 5
      invariant Reaches(Init(), t, iters)
      invariant t.a.pc == [LoadCounter, StoreCounter, CheckCounter, CheckCounter, CheckCounter, Unlock][n]
      invariant t.b.pc == [LoadCounter, LoadCounter, LoadCounter, StoreCounter, CheckCounter, CheckCounter][n]
      invariant 2 <= n ==> t.counter == (t.a.v + if n < 4 then 1 else 2) % UINT64_VALUES
      invariant n == 3 ==> t.b.v == t.counter
      invariant t.a.violations == if n == 5 then 1 else 0
    {
      ReachesStep(Init(), t, order[n], iters);
      t := Step(t, order[n], iters);
    }
  }

  /**
    With 2 * iters >= 2^32 some interleaving puts both hosts in the critical section, and can then
    go on until host A's check of the counter fires.
   */
  lemma TicketWrapBreaksExclusion(iters: nat) returns (s: Bench, t: Bench)
    requires 2 * iters >= UINT32_VALUES
    ensures Reaches(Init(), s, iters) && InCritical(s.a) && InCritical(s.b)
    ensures Reaches(Init(), t, iters) && t.a.violations == 1
  {
    s := Leapfrog(UINT32_VALUES / 2 - 1, iters);
    s := RunDoorway(Init(), s, B, iters);
    ReachesStep(Init(), s, B, iters);
    s := Step(s, B, iters);
    t := CollideInside(s, iters);
  }

  ghost predicate AlwaysExclusive(iters: nat) {
    forall schedule: seq<Id> ::
      var s := Exec(Init(), schedule, iters); !(InCritical(s.a) && InCritical(s.b))
  }

  ghost predicate NeverViolated(iters: nat) {
    forall schedule: seq<Id> ::
      var s := Exec(Init(), schedule, iters); s.a.violations == 0 && s.b.violations == 0
  }

  /**
    The benchmark excludes on every interleaving exactly when 2 * iters fits a 32-bit ticket, and
    its own check reports no violation under exactly the same condition.
   */
  lemma ExclusionIffTicketsFit(iters: nat)
    ensures AlwaysExclusive(iters) <==> 2 * iters < UINT32_VALUES
    ensures NeverViolated(iters) <==> 2 * iters < UINT32_VALUES
  {
    if 2 * iters < UINT32_VALUES {
      forall schedule: seq<Id>
        ensures var s := Exec(Init(), schedule, iters);
                && !(InCritical(s.a) && InCritical(s.b))
                && s.a.violations == 0 && s.b.violations == 0
      {
        BakeryIsSafe(schedule, iters);
      }
    } else {
      var s, t := TicketWrapBreaksExclusion(iters);
      var toS :| Exec(Init(), toS, iters) == s;
      var toT :| Exec(Init(), toT, iters) == t;
    }
  }

  // ---------------------------------------------------------------------------------------------
  // First come, first served
  // ---------------------------------------------------------------------------------------------

  /** Host `h` is waiting and `o` started its doorway after `h` had finished its own. */
  predicate Ahead(h: Host, o: Host) {
    && (h.pc.AwaitChoice? || h.pc.AwaitTurn?)
    && h.ticket != 0
    && match o.pc
       case Begin => true
       case PickTicket => true
       case TakeTicket => o.ot == h.ticket
       case EndChoosing => h.ticket < o.ticket
       case AwaitChoice => h.ticket < o.ticket
       case AwaitTurn => h.ticket < o.ticket
       case _ => false
  }

  lemma StepKeepsAhead(s: Bench, i: Id, mover: Id, iters: nat)
    requires 2 * iters < UINT32_VALUES
    requires Inv(s, iters) && Ahead(s.Get(i), s.Get(Other(i)))
    ensures var t := Step(s, mover, iters);
            InCritical(t.Get(i)) || Ahead(t.Get(i), t.Get(Other(i)))
  {
  }

  /** Host `i` is in the critical section at some point while the schedule unfolds. */
  ghost predicate EntersDuring(s: Bench, i: Id, schedule: seq<Id>, iters: nat) {
    exists n :: 0 <= n <= |schedule| && InCritical(Exec(s, schedule[..n], iters).Get(i))
  }

  lemma EntersLater(s: Bench, i: Id, schedule: seq<Id>, iters: nat)
    requires schedule != [] && !EntersDuring(s, i, schedule, iters)
    ensures var t := Step(s, schedule[0], iters);
            !InCritical(t.Get(i)) && !EntersDuring(t, i, schedule[1..], iters)
  {
    var t := Step(s, schedule[0], iters);
    forall n | 0 <= n <= |schedule[1..]|
      ensures !InCritical(Exec(t, schedule[1..][..n], iters).Get(i))
    {
      assert schedule[..n + 1][1..] == schedule[1..][..n];
      assert Exec(s, schedule[..n + 1], iters) == Exec(t, schedule[1..][..n], iters);
    }
    assert Exec(t, schedule[1..][..0], iters) == t;
  }

  lemma {:induction false} StaysAhead(s: Bench, i: Id, schedule: seq<Id>, iters: nat)
    requires 2 * iters < UINT32_VALUES
    requires Inv(s, iters) && Ahead(s.Get(i), s.Get(Other(i)))
    requires !EntersDuring(s, i, schedule, iters)
    ensures var t := Exec(s, schedule, iters); Ahead(t.Get(i), t.Get(Other(i)))
    decreases |schedule|
  {
    if schedule != [] {
      StepKeepsInv(s, schedule[0], iters);
      EntersLater(s, i, schedule, iters);
      StepKeepsAhead(s, i, schedule[0], iters);
      StaysAhead(Step(s, schedule[0], iters), i, schedule[1..], iters);
    }
  }

  /**
    If host `i` has finished its doorway while the other is still outside its own, then whatever the
    schedule does next, the other is in the critical section only after `i` has been there.
   */
  lemma FirstComeFirstServed(before: seq<Id>, after: seq<Id>, i: Id, iters: nat)
    requires 2 * iters < UINT32_VALUES
    ensures var s := Exec(Init(), before, iters);
            && (s.Get(i).pc.AwaitChoice? || s.Get(i).pc.AwaitTurn?) && s.Get(Other(i)).pc.Begin?
            && InCritical(Exec(Init(), before + after, iters).Get(Other(i)))
            ==> EntersDuring(Exec(Init(), before, iters), i, after, iters)
  {
    var s := Exec(Init(), before, iters);
    InitInv(iters);
    ExecKeepsInv(Init(), before, iters);
    ExecConcat(Init(), before, after, iters);
    if Ahead(s.Get(i), s.Get(Other(i))) && !EntersDuring(s, i, after, iters) {
      StaysAhead(s, i, after, iters);
    }
  }

  // ---------------------------------------------------------------------------------------------
  // Bounded waiting
  // ---------------------------------------------------------------------------------------------

  predicate Waiting(h: Host) {
    h.pc.AwaitChoice? || h.pc.AwaitTurn?
  }

  /** How often a host goes from outside the critical section to inside it while the schedule unfolds. */
  function Entries(s: Bench, i: Id, schedule: seq<Id>, iters: nat): nat
    decreases |schedule|
  {
    if schedule == [] then 0
    else
      var t := Step(s, schedule[0], iters);
      (if !InCritical(s.Get(i)) && InCritical(t.Get(i)) then 1 else 0) + Entries(t, i, schedule[1..], iters)
  }

  /** A waiting host either goes in, keeps waiting with the other no further ahead, or sees it go in. */
  lemma StepOfWaiting(s: Bench, i: Id, mover: Id, iters: nat)
    requires 2 * iters < UINT32_VALUES
    requires Inv(s, iters) && Waiting(s.Get(i)) && !InCritical(Step(s, mover, iters).Get(i))
    ensures var t := Step(s, mover, iters);
            && Waiting(t.Get(i))
            && (InCritical(s.Get(Other(i))) ==> InCritical(t.Get(Other(i))) || Ahead(t.Get(i), t.Get(Other(i))))
  {
  }

  /** Once the other host is inside, or behind, it does not come in again before the waiting one does. */
  lemma {:induction false} NoSecondEntry(s: Bench, i: Id, schedule: seq<Id>, iters: nat)
    requires 2 * iters < UINT32_VALUES
    requires Inv(s, iters) && Waiting(s.Get(i))
    requires InCritical(s.Get(Other(i))) || Ahead(s.Get(i), s.Get(Other(i)))
    requires !EntersDuring(s, i, schedule, iters)
    ensures Entries(s, Other(i), schedule, iters) == 0
    decreases |schedule|
  {
    if schedule != [] {
      StepKeepsInv(s, schedule[0], iters);
      EntersLater(s, i, schedule, iters);
      StepOfWaiting(s, i, schedule[0], iters);
      if Ahead(s.Get(i), s.Get(Other(i))) {
        StepKeepsAhead(s, i, schedule[0], iters);
      }
      NoSecondEntry(Step(s, schedule[0], iters), i, schedule[1..], iters);
    }
  }

  lemma {:induction false} AtMostOneEntry(s: Bench, i: Id, schedule: seq<Id>, iters: nat)
    requires 2 * iters < UINT32_VALUES
    requires Inv(s, iters) && Waiting(s.Get(i)) && !EntersDuring(s, i, schedule, iters)
    ensures Entries(s, Other(i), schedule, iters) <= if InCritical(s.Get(Other(i))) then 0 else 1
    decreases |schedule|
  {
    if InCritical(s.Get(Other(i))) {
      NoSecondEntry(s, i, schedule, iters);
    } else if schedule != [] {
      StepKeepsInv(s, schedule[0], iters);
      EntersLater(s, i, schedule, iters);
      StepOfWaiting(s, i, schedule[0], iters);
      AtMostOneEntry(Step(s, schedule[0], iters), i, schedule[1..], iters);
    }
  }

  /**
    From every reachable state in which host `i` is past its doorway, and for every continuation in
    which `i` has not been inside yet, the other host visits the critical section at most once,
    counting a visit that was already under way.
   */
  lemma BoundedWaiting(before: seq<Id>, after: seq<Id>, i: Id, iters: nat)
    requires 2 * iters < UINT32_VALUES
    requires Waiting(Exec(Init(), before, iters).Get(i))
    requires !EntersDuring(Exec(Init(), before, iters), i, after, iters)
    ensures var s := Exec(Init(), before, iters);
            (if InCritical(s.Get(Other(i))) then 1 else 0) + Entries(s, Other(i), after, iters) <= 1
  {
    InitInv(iters);
    ExecKeepsInv(Init(), before, iters);
    AtMostOneEntry(Exec(Init(), before, iters), i, after, iters);
  }

  // ---------------------------------------------------------------------------------------------
  // Progress
  // ---------------------------------------------------------------------------------------------

  /** In no reachable state are both hosts stuck, unless both have done all their rounds. */
  lemma NeverBothStuck(s: Bench, iters: nat)
    requires Inv(s, iters) && !Finished(s, iters)
    ensures Step(s, A, iters) != s || Step(s, B, iters) != s
  {
  }

  /** The same for every state of every run. */
  lemma NoReachableDeadlock(schedule: seq<Id>, iters: nat)
    requires 2 * iters < UINT32_VALUES
    ensures var s := Exec(Init(), schedule, iters);
            Finished(s, iters) || Step(s, A, iters) != s || Step(s, B, iters) != s
  {
    ExecKeepsInv(Init(), schedule, iters);
    if !Finished(Exec(Init(), schedule, iters), iters) {
      NeverBothStuck(Exec(Init(), schedule, iters), iters);
    }
  }

  function PcIndex(pc: Pc): nat {
    match pc
    case Begin => 0
    case PickTicket => 1
    case TakeTicket => 2
    case EndChoosing => 3
    case AwaitChoice => 4
    case AwaitTurn => 5
    case LoadCounter => 6
    case StoreCounter => 7
    case CheckCounter => 8
    case Unlock => 9
  }

  /** Steps of progress made by both hosts. */
  function Work(s: Bench): nat {
    10 * s.a.rounds + PcIndex(s.a.pc) + 10 * s.b.rounds + PcIndex(s.b.pc)
  }

  lemma StepIsSpinOrWork(s: Bench, i: Id, iters: nat)
    ensures Step(s, i, iters) == s || Work(Step(s, i, iters)) == Work(s) + 1
  {
  }

  lemma {:induction false} WorkNeverShrinks(s: Bench, schedule: seq<Id>, iters: nat)
    ensures Work(s) <= Work(Exec(s, schedule, iters))
    decreases |schedule|
  {
    if schedule != [] {
      StepIsSpinOrWork(s, schedule[0], iters);
      WorkNeverShrinks(Step(s, schedule[0], iters), schedule[1..], iters);
    }
  }

  predicate Fair(turn: seq<Id>) {
    A in turn && B in turn
  }

  lemma {:induction false} FairTurnProgresses(s: Bench, turn: seq<Id>, i: Id, iters: nat)
    requires i in turn && Step(s, i, iters) != s
    ensures Work(s) < Work(Exec(s, turn, iters))
    decreases |turn|
  {
    var t := Step(s, turn[0], iters);
    StepIsSpinOrWork(s, turn[0], iters);
    if t == s {
      FairTurnProgresses(s, turn[1..], i, iters);
    } else {
      WorkNeverShrinks(t, turn[1..], iters);
    }
  }

  function Flatten(turns: seq<seq<Id>>): seq<Id> {
    if turns == [] then [] else turns[0] + Flatten(turns[1..])
  }

  lemma {:induction false} FairTurnsWork(s: Bench, turns: seq<seq<Id>>, iters: nat)
    requires 2 * iters < UINT32_VALUES
    requires Inv(s, iters)
    requires forall n :: 0 <= n < |turns| ==> Fair(turns[n])
    ensures var t := Exec(s, Flatten(turns), iters);
            Finished(t, iters) || Work(s) + |turns| <= Work(t)
    decreases |turns|
  {
    if turns != [] {
      var t := Exec(s, turns[0], iters);
      ExecConcat(s, turns[0], Flatten(turns[1..]), iters);
      ExecKeepsInv(s, turns[0], iters);
      FairTurnsWork(t, turns[1..], iters);
      WorkNeverShrinks(t, Flatten(turns[1..]), iters);
      ExecKeepsInv(t, Flatten(turns[1..]), iters);
      if Finished(s, iters) {
        WorkIsBounded(Exec(t, Flatten(turns[1..]), iters), iters);
        WorkNeverShrinks(s, turns[0], iters);
      } else {
        NeverBothStuck(s, iters);
        FairTurnProgresses(s, turns[0], if Step(s, A, iters) != s then A else B, iters);
      }
    }
  }

  lemma WorkIsBounded(s: Bench, iters: nat)
    requires Inv(s, iters)
    ensures Work(s) <= 20 * iters
    ensures Work(s) == 20 * iters ==> Finished(s, iters)
  {
  }

  /**
    Any schedule made of at least 20 * iters turns, each giving both hosts a step in any order and any
    number of times, completes the benchmark, and the counter shows the expected value.
   */
  lemma FairRunsComplete(turns: seq<seq<Id>>, iters: nat)
    requires 2 * iters < UINT32_VALUES
    requires |turns| >= 20 * iters
    requires forall n :: 0 <= n < |turns| ==> Fair(turns[n])
    ensures var s := Exec(Init(), Flatten(turns), iters);
            Finished(s, iters) && s.counter == 2 * iters && s.a.violations == 0 && s.b.violations == 0
  {
    FairTurnsWork(Init(), turns, iters);
    BakeryIsSafe(Flatten(turns), iters);
    ExecKeepsInv(Init(), Flatten(turns), iters);
    WorkIsBounded(Exec(Init(), Flatten(turns), iters), iters);
  }

  // ---------------------------------------------------------------------------------------------
  // The shared region and the two hosts, updated in place
  // ---------------------------------------------------------------------------------------------

  class SharedRegion {
    const iters: nat
    // device memory
    var choosing: seq<bool>
    var ticket: seq<nat>
    var counter: nat
    // the locals of host 0 and host 1
    var pc: seq<Pc>
    var ot: seq<nat>
    var v: seq<nat>
    var violations: seq<nat>
    var rounds: seq<nat>

    ghost predicate Valid()
      reads this
    {
      |choosing| == |ticket| == |pc| == |ot| == |v| == |violations| == |rounds| == 2
    }

    ghost function HostAt(me: nat): Host
      requires Valid() && me < 2
      reads this
    {
      Host(pc[me], choosing[me], ticket[me], ot[me], v[me], violations[me], rounds[me])
    }

    ghost function Model(): Bench
      requires Valid()
      reads this
    {
      Bench(HostAt(0), HostAt(1), counter)
    }

    constructor (iters: nat)
      ensures Valid() && Model() == Init() && this.iters == iters
    {
      this.iters := iters;
      choosing, ticket, counter := [false, false], [0, 0], 0;
      pc, ot, v, violations, rounds := [Begin, Begin], [0, 0], [0, 0], [0, 0], [0, 0];
    }

    method Advance(me: nat)
      requires Valid() && me < 2
      modifies this
      ensures Valid() && Model() == Step(old(Model()), if me == 0 then A else B, iters)
    {
      if pc[me] in {LoadCounter, StoreCounter, CheckCounter, Unlock} {
        AdvanceInside(me);
      } else {
        AdvanceOutside(me);
      }
    }

    /** The lock: doorway and the two spin loops. */
    method AdvanceOutside(me: nat)
      requires Valid() && me < 2 && !InCritical(HostAt(me))
      modifies this`choosing, this`ticket, this`ot, this`pc
      ensures Valid() && Model() == Step(old(Model()), if me == 0 then A else B, iters)
    {
      var other := 1 - me;
      match pc[me]
      case Begin =>
        if rounds[me] < iters {
          choosing, pc := choosing[me := true], pc[me := PickTicket];
        }
      case PickTicket =>
        ot, pc := ot[me := ticket[other]], pc[me := TakeTicket];
      case TakeTicket =>
        ticket, pc := ticket[me := (ot[me] + 1) % UINT32_VALUES], pc[me := EndChoosing];
      case EndChoosing =>
        choosing, pc := choosing[me := false], pc[me := AwaitChoice];
      case AwaitChoice =>
        if !choosing[other] {
          pc := pc[me := AwaitTurn];
        }
      case AwaitTurn =>
        var tj, ti := ticket[other], ticket[me];
        if tj == 0 || !(tj < ti || (tj == ti && other < me)) {
          pc := pc[me := LoadCounter];
        }
    }

    /** The critical section and the unlock. */
    method AdvanceInside(me: nat)
      requires Valid() && me < 2 && InCritical(HostAt(me))
      modifies this`ticket, this`counter, this`pc, this`v, this`violations, this`rounds
      ensures Valid() && Model() == Step(old(Model()), if me == 0 then A else B, iters)
    {
      match pc[me]
      case LoadCounter =>
        v, pc := v[me := counter], pc[me := StoreCounter];
      case StoreCounter =>
        counter, pc := (v[me] + 1) % UINT64_VALUES, pc[me := CheckCounter];
      case CheckCounter =>
        if counter != (v[me] + 1) % UINT64_VALUES {
          violations := violations[me := (violations[me] + 1) % UINT32_VALUES];
        }
        pc := pc[me := Unlock];
      case Unlock =>
        ticket, rounds, pc := ticket[me := 0], rounds[me := rounds[me] + 1], pc[me := Begin];
    }

    /** A whole run under a given schedule, from the freshly initialised region. */
    method Run(schedule: seq<Id>)
      requires Valid() && Model() == Init()
      modifies this
      ensures Valid() && Model() == Exec(Init(), schedule, iters)
      ensures 2 * iters < UINT32_VALUES ==> violations == [0, 0]
      ensures 2 * iters < UINT32_VALUES && Finished(Model(), iters) ==> counter == 2 * iters
    {
      assert schedule[..0] == [];
      for n := 0 to |schedule|
        invariant Valid() && Model() == Exec(Init(), schedule[..n], iters)
      {
        ExecConcat(Init(), schedule[..n], [schedule[n]], iters);
        assert schedule[..n + 1] == schedule[..n] + [schedule[n]];
        assert Exec(Model(), [schedule[n]], iters)
            == Exec(Step(Model(), schedule[n], iters), [], iters);
        Advance(if schedule[n] == A then 0 else 1);
      }
      assert schedule[..|schedule|] == schedule;
      if 2 * iters < UINT32_VALUES {
        BakeryIsSafe(schedule, iters);
        assert HostAt(0) == Model().a && HostAt(1) == Model().b;
      }
    }
  }
}
