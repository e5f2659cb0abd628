/**
  The MOESI directory of src/coherency_engine.cpp: one entry per 64-byte line, changed by reads,
  writes, atomics and three handlers for messages from other nodes. Requests are served one at a
  time. Latency figures are not modelled; the message and operation counters are.
 */
module Coherency {
  import opened Common
  import opened History

  const NO_NODE: nat := 0xFFFF_FFFF          // UINT32_MAX: no owner
  const CACHELINE_SIZE: nat := 64

  datatype LineState = Invalid | Shared | Exclusive | Modified | Owned

  datatype Entry = Entry(state: LineState, owner: nat, ownerHead: nat, sharers: set<nat>,
                         version: nat, lastAccess: nat, dirty: bool)

  const EMPTY_ENTRY := Entry(Invalid, NO_NODE, NO_NODE, {}, 0, 0, false)

  datatype Request = Request(addr: nat, node: nat, head: nat, time: nat)

  datatype Response = Response(newState: LineState, dataSource: nat)

  datatype Counters = Counters(messages: nat, invalidations: nat, downgrades: nat, writebacks: nat,
                               remoteOps: nat, ops: nat)
  {
    function Add(c: Counters): Counters {
      Counters(messages + c.messages, invalidations + c.invalidations, downgrades + c.downgrades,
               writebacks + c.writebacks, remoteOps + c.remoteOps, ops + c.ops)
    }
  }

  const NO_COUNTS := Counters(0, 0, 0, 0, 0, 0)

  /** What one operation does to one entry: the new entry, the response and the counter increments. */
  datatype Effect = Effect(entry: Entry, response: Response, counts: Counters)

  function Line(addr: nat): nat {
    addr - addr % CACHELINE_SIZE
  }

  predicate HoldsAlone(e: Entry, node: nat) {
    e.owner == node && (e.state.Exclusive? || e.state.Modified? || e.state.Owned?)
  }

  /** The hit test of a read: the directory lets the node use the copy it has. */
  predicate MayRead(e: Entry, node: nat) {
    HoldsAlone(e, node) || node in e.sharers
  }

  /** The counters every request moves. */
  function RequestCounts(req: Request, local: nat): Counters {
    NO_COUNTS.(remoteOps := if req.node != local then 1 else 0, ops := 1)
  }

  // ---------------------------------------------------------------------------------------------
  // One operation on one entry
  // ---------------------------------------------------------------------------------------------

  function ReadEffect(e0: Entry, req: Request, local: nat): Effect {
    var e := e0.(lastAccess := req.time);
    var c := RequestCounts(req, local);
    var joined := e.(sharers := e.sharers + {req.node});
    if HoldsAlone(e, req.node) then
      Effect(e, Response(e.state, local), c)
    else if req.node in e.sharers then
      Effect(e, Response(Shared, local), c)
    else
      match e.state
      case Invalid =>
        Effect(joined.(state := Shared, owner := req.node, ownerHead := req.head), Response(Shared, local), c)
      case Shared =>
        Effect(joined, Response(Shared, local), c)
      case Exclusive =>
        if e.owner == NO_NODE then
          Effect(joined.(state := Shared), Response(Shared, NO_NODE), c)
        else
          Effect(joined.(sharers := joined.sharers + {e.owner}, state := Shared,
                         owner := NO_NODE, ownerHead := NO_NODE),
                 Response(Shared, NO_NODE), c.(messages := 1, downgrades := 1))
      case Modified =>
        Effect(joined.(state := Owned), Response(Shared, e.owner),
               c.(messages := if e.owner == NO_NODE then 0 else 1))
      case Owned =>
        Effect(joined, Response(Shared, e.owner), c.(messages := 1))
  }

  /** A downgraded EXCLUSIVE owner becomes a sharer, a MODIFIED one keeps the line OWNED. */
  function DowngradedEntry(e: Entry): Entry {
    match e.state
    case Modified => e.(state := Owned, dirty := true)
    case Exclusive => e.(sharers := e.sharers + {e.owner}, state := Shared, owner := NO_NODE, ownerHead := NO_NODE)
    case _ => e
  }

  /** A writer that does not own the line takes it over from whoever holds it. */
  function WriteMissEffect(e: Entry, req: Request, local: nat): Effect {
    var c := RequestCounts(req, local);
    var others := |e.sharers - {req.node}|;
    var taken := e.(owner := req.node, ownerHead := req.head, state := Modified, sharers := {}, dirty := true);
    var foreign := if e.owner != req.node then 1 else 0;
    var source := if e.owner != req.node then e.owner else local;
    match e.state
    case Invalid => Effect(taken, Response(Modified, local), c)
    case Shared => Effect(taken, Response(Modified, local), c.(messages := others, invalidations := others))
    case Exclusive => Effect(taken, Response(Modified, local), c.(messages := foreign, invalidations := foreign))
    case Modified => Effect(taken, Response(Modified, source), c.(messages := foreign, writebacks := foreign))
    case Owned =>
      Effect(taken, Response(Modified, source), c.(messages := others, invalidations := others, writebacks := foreign))
  }

  /** Also the effect of an atomic, which only adds latency. */
  function WriteEffect(e0: Entry, req: Request, local: nat): Effect {
    var e := e0.(lastAccess := req.time, version := (e0.version + 1) % UINT32_VALUES);
    var c := RequestCounts(req, local);
    var others := |e.sharers - {req.node}|;
    if e.owner == req.node && (e.state.Exclusive? || e.state.Modified?) then
      Effect(e.(state := Modified, dirty := true), Response(Modified, local), c)
    else if e.owner == req.node && e.state.Owned? then
      Effect(e.(state := Modified, dirty := true, sharers := {}), Response(Modified, local),
             c.(messages := others, invalidations := others))
    else
      WriteMissEffect(e, req, local)
  }

  function RemoteInvalidateEffect(e: Entry, local: nat): Effect {
    var dropped := e.(sharers := e.sharers - {local});
    var c := NO_COUNTS.(invalidations := 1);
    var none := Response(Invalid, NO_NODE);
    if e.owner == local then
      Effect(dropped.(dirty := e.dirty || e.state.Modified?, owner := NO_NODE, ownerHead := NO_NODE, state := Invalid),
             none, c.(writebacks := if e.state.Modified? then 1 else 0))
    else
      Effect(dropped, none, c)
  }

  function RemoteDowngradeEffect(e: Entry, local: nat): Effect {
    var e' := if e.owner != local then e
              else if e.state.Modified? then e.(state := Owned)
              else if e.state.Exclusive? then e.(state := Shared, sharers := e.sharers + {local})
              else e;
    Effect(e', Response(e'.state, NO_NODE), NO_COUNTS.(downgrades := 1))
  }

  function RemoteWritebackEffect(e: Entry, from: nat): Effect {
    var e' := if e.owner != from then e
              else e.(dirty := false, owner := NO_NODE, ownerHead := NO_NODE, state := Invalid,
                      sharers := e.sharers - {from});
    Effect(e', Response(e'.state, NO_NODE), NO_COUNTS.(writebacks := 1))
  }

  // ---------------------------------------------------------------------------------------------
  // The directory
  // ---------------------------------------------------------------------------------------------

  datatype Op =
    | Read(req: Request)
    | Write(req: Request)
    | Atomic(req: Request)
    | RemoteInvalidate(addr: nat, from: nat)
    | RemoteDowngrade(addr: nat, from: nat)
    | RemoteWriteback(addr: nat, from: nat)
  {
    predicate IsRequest() {
      Read? || Write? || Atomic?
    }

    function Target(): nat {
      Line(if IsRequest() then req.addr else addr)
    }

    /** Node ids are any 32-bit value except the one that means "no owner". */
    predicate Legal() {
      IsRequest() ==> req.node != NO_NODE
    }
  }

  datatype Directory = Directory(local: nat, entries: map<nat, Entry>, counters: Counters) {
    function EntryAt(line: nat): Entry {
      if line in entries then entries[line] else EMPTY_ENTRY
    }
  }

  function OpEffect(e: Entry, op: Op, local: nat): Effect {
    match op
    case Read(req) => ReadEffect(e, req, local)
    case Write(req) => WriteEffect(e, req, local)
    case Atomic(req) => WriteEffect(e, req, local)
    case RemoteInvalidate(_, _) => RemoteInvalidateEffect(e, local)
    case RemoteDowngrade(_, _) => RemoteDowngradeEffect(e, local)
    case RemoteWriteback(_, from) => RemoteWritebackEffect(e, from)
  }

  /** Requests create a missing entry; handlers ignore a line the directory does not know. */
  function Apply(d: Directory, op: Op): Directory {
    if !op.IsRequest() && op.Target() !in d.entries then
      d
    else
      var f := OpEffect(d.EntryAt(op.Target()), op, d.local);
      d.(entries := d.entries[op.Target() := f.entry], counters := d.counters.Add(f.counts))
  }

  function Run(d: Directory, ops: seq<Op>): Directory
    decreases |ops|
  {
    if ops == [] then d else Run(Apply(d, ops[0]), ops[1..])
  }

  function Fresh(local: nat): Directory {
    Directory(local, map[], NO_COUNTS)
  }

  ghost predicate AllLegal(ops: seq<Op>) {
    forall i :: 0 <= i < |ops| ==> ops[i].Legal()
  }

  // ---------------------------------------------------------------------------------------------
  // Single writer, on every run of all six operations
  // ---------------------------------------------------------------------------------------------

  predicate EntryInv(e: Entry) {
    && !e.state.Exclusive?
    && (e.state.Invalid? <==> e.owner == NO_NODE)
    && (e.state.Modified? ==> e.sharers == {} && e.dirty)
    && (e.state.Owned? ==> e.owner !in e.sharers && e.dirty)
    && (e.state.Shared? ==> e.owner in e.sharers)
    && e.version < UINT32_VALUES
  }

  ghost predicate DirectoryInv(d: Directory) {
    forall line :: line in d.entries ==> EntryInv(d.entries[line])
  }

  lemma ReadKeepsEntryInv(e: Entry, req: Request, local: nat)
    requires EntryInv(e) && req.node != NO_NODE
    ensures EntryInv(ReadEffect(e, req, local).entry)
  {
  }

  /** A write leaves the writer the only node with the line. */
  lemma WriteTakesLine(e: Entry, req: Request, local: nat)
    requires EntryInv(e) && req.node != NO_NODE
    ensures var e' := WriteEffect(e, req, local).entry;
            && EntryInv(e') && e'.state == Modified && e'.owner == req.node && e'.sharers == {}
            && e'.version == (e.version + 1) % UINT32_VALUES
  {
  }

  lemma EffectKeepsEntryInv(e: Entry, op: Op, local: nat)
    requires EntryInv(e) && op.Legal()
    ensures EntryInv(OpEffect(e, op, local).entry)
  {
    match op
    case Read(req) => ReadKeepsEntryInv(e, req, local);
    case Write(req) => WriteTakesLine(e, req, local);
    case Atomic(req) => WriteTakesLine(e, req, local);
    case RemoteInvalidate(_, _) =>
    case RemoteDowngrade(_, _) =>
    case RemoteWriteback(_, _) =>
  }

  lemma ApplyKeepsDirectoryInv(d: Directory, op: Op)
    requires DirectoryInv(d) && op.Legal()
    ensures DirectoryInv(Apply(d, op))
  {
    EffectKeepsEntryInv(d.EntryAt(op.Target()), op, d.local);
  }

  lemma {:induction false} RunKeepsDirectoryInv(d: Directory, ops: seq<Op>)
    requires DirectoryInv(d) && AllLegal(ops)
    ensures DirectoryInv(Run(d, ops))
    decreases |ops|
  {
    if ops != [] {
      ApplyKeepsDirectoryInv(d, ops[0]);
      RunKeepsDirectoryInv(Apply(d, ops[0]), ops[1..]);
    }
  }

  /** When one node may write without asking, no other node may even read. */
  lemma SingleWriter(local: nat, ops: seq<Op>, line: nat, writer: nat, other: nat)
    requires AllLegal(ops) && writer != other
    requires var e := Run(Fresh(local), ops).EntryAt(line);
             e.owner == writer && (e.state.Modified? || e.state.Exclusive?)
    ensures !MayRead(Run(Fresh(local), ops).EntryAt(line), other)
  {
    RunKeepsDirectoryInv(Fresh(local), ops);
  }

  /** The shape of every entry after every run. */
  lemma EveryRunKeepsEntries(local: nat, ops: seq<Op>, line: nat)
    requires AllLegal(ops)
    ensures EntryInv(Run(Fresh(local), ops).EntryAt(line))
  {
    RunKeepsDirectoryInv(Fresh(local), ops);
  }

  /** The state in a response is the requester's standing in the directory after the request. */
  lemma ResponseMatchesDirectory(e: Entry, op: Op, local: nat)
    requires EntryInv(e) && op.IsRequest() && op.Legal()
    ensures var f := OpEffect(e, op, local);
            var node := op.req.node;
            && MayRead(f.entry, node)
            && (f.response.newState == Modified <==> f.entry.owner == node && f.entry.state == Modified)
            && (f.response.newState == Owned <==> f.entry.owner == node && f.entry.state == Owned)
            && (f.response.newState == Shared <==> node in f.entry.sharers)
            && f.response.newState != Invalid && f.response.newState != Exclusive
  {
    EffectKeepsEntryInv(e, op, local);
  }

  // ---------------------------------------------------------------------------------------------
  // Value coherence: which write each copy of a line holds
  // ---------------------------------------------------------------------------------------------

  /**
    The data of one line: the number of writes so far, the write held by memory and the write held by
    the copy of each node. The directory never looks at it.
   */
  datatype Data = Data(serial: nat, memory: nat, copies: map<nat, nat>)

  const EMPTY_DATA := Data(0, 0, map[])

  function Supply(g: Data, to: nat, from: nat): Data {
    if from in g.copies then g.(copies := g.copies[to := g.copies[from]]) else g.(copies := g.copies - {to})
  }

  function WriteBack(g: Data, from: nat): Data {
    if from in g.copies then g.(memory := g.copies[from]) else g
  }

  /** The nodes told to drop their copy when `node` writes. */
  function Told(e: Entry, node: nat): set<nat> {
    (match e.state
     case Invalid => {}
     case Shared => e.sharers
     case Exclusive => {e.owner}
     case Modified => {e.owner}
     case Owned => e.sharers + {e.owner}) - {node}
  }

  /**
    Where the data goes, following the messages the engine sends: a hit uses the copy at hand, a miss
    takes the line from the owner or from memory, a write makes a new value at the writer after the
    nodes it notifies have dropped theirs, and each write-back counted for the owner refreshes memory.
   */
  function MoveData(g: Data, e: Entry, op: Op, local: nat): Data {
    match op
    case Read(req) =>
      if MayRead(e, req.node) then g
      else if e.state.Invalid? || e.state.Shared? then g.(copies := g.copies[req.node := g.memory])
      else Supply(g, req.node, e.owner)
    case RemoteInvalidate(_, _) =>
      var g' := if e.owner == local && e.state.Modified? then WriteBack(g, local) else g;
      g'.(copies := g'.copies - {local})
    case RemoteDowngrade(_, _) => g
    case RemoteWriteback(_, from) =>
      if e.owner == from then var g' := WriteBack(g, from); g'.(copies := g'.copies - {from}) else g
    case _ =>
      var g' := if WriteEffect(e, op.req, local).counts.writebacks > 0 then WriteBack(g, e.owner) else g;
      g'.(serial := g.serial + 1, copies := (g'.copies - Told(e, op.req.node))[op.req.node := g.serial + 1])
  }

  datatype World = World(dir: Directory, data: map<nat, Data>) {
    function DataAt(line: nat): Data {
      if line in data then data[line] else EMPTY_DATA
    }
  }

  function ApplyAll(w: World, op: Op): World {
    if !op.IsRequest() && op.Target() !in w.dir.entries then
      w
    else
      var line := op.Target();
      World(Apply(w.dir, op), w.data[line := MoveData(w.DataAt(line), w.dir.EntryAt(line), op, w.dir.local)])
  }

  function RunAll(w: World, ops: seq<Op>): World
    decreases |ops|
  {
    if ops == [] then w else RunAll(ApplyAll(w, ops[0]), ops[1..])
  }

  function FreshWorld(local: nat): World {
    World(Fresh(local), map[])
  }

  ghost predicate LatestEverywhere(e: Entry, g: Data) {
    forall node :: MayRead(e, node) ==> node in g.copies && g.copies[node] == g.serial
  }

  /**
    Every node that may read holds the last write. Memory holds it exactly when no node owns the line,
    unless the line is lost: then no node owns it and memory still holds an older write.
   */
  ghost predicate Current(e: Entry, g: Data, lost: bool) {
    && EntryInv(e)
    && LatestEverywhere(e, g)
    && g.memory <= g.serial
    && (lost ==> e.state.Invalid?)
    && (!lost && (e.state.Invalid? || e.state.Shared?) <==> g.memory == g.serial)
    && NO_NODE !in g.copies
    && e.version == g.serial % UINT32_VALUES
  }

  /** The readers and memory together: a current line that is not lost. */
  ghost predicate Coherent(e: Entry, g: Data) {
    Current(e, g, false)
  }

  /** The one step that loses data: this node is told to drop a line it holds OWNED. */
  predicate DropsOwned(e: Entry, op: Op, local: nat) {
    op.RemoteInvalidate? && e.owner == local && e.state.Owned?
  }

  predicate Stores(op: Op) {
    op.Write? || op.Atomic?
  }

  predicate ReadMiss(e: Entry, op: Op) {
    op.Read? && !MayRead(e, op.req.node)
  }

  /** A line stays lost from the drop until somebody writes it. */
  predicate LostAfter(e: Entry, op: Op, local: nat, lost: bool) {
    DropsOwned(e, op, local) || (lost && !Stores(op))
  }

  lemma ReadLatestIff(e: Entry, g: Data, op: Op, local: nat, lost: bool)
    requires Current(e, g, lost) && op.Legal() && op.Read?
    ensures var e', g' := ReadEffect(e, op.req, local).entry, MoveData(g, e, op, local);
            && (LatestEverywhere(e', g') <==> !(lost && ReadMiss(e, op)))
            && (LatestEverywhere(e', g') ==> Current(e', g', lost))
  {
    var e', g' := ReadEffect(e, op.req, local).entry, MoveData(g, e, op, local);
    if lost && ReadMiss(e, op) {
      assert MayRead(e', op.req.node) && g'.copies[op.req.node] == g.memory;
    }
  }

  lemma WriteIsCurrent(e: Entry, g: Data, op: Op, local: nat, lost: bool)
    requires Current(e, g, lost) && op.Legal() && Stores(op)
    ensures Current(WriteEffect(e, op.req, local).entry, MoveData(g, e, op, local), false)
  {
    WriteTakesLine(e, op.req, local);
    WriteMovesData(e, g, op, local, lost);
    NextVersion(g.serial);
  }

  lemma NextVersion(serial: nat)
    ensures (serial % UINT32_VALUES + 1) % UINT32_VALUES == (serial + 1) % UINT32_VALUES
  {
  }

  lemma WriteMovesData(e: Entry, g: Data, op: Op, local: nat, lost: bool)
    requires Current(e, g, lost) && op.Legal() && Stores(op)
    ensures var g' := MoveData(g, e, op, local);
            && g'.serial == g.serial + 1 && g'.memory < g'.serial
            && op.req.node in g'.copies && g'.copies[op.req.node] == g'.serial
            && NO_NODE !in g'.copies
  {
  }

  lemma HandlerIsCurrent(e: Entry, g: Data, op: Op, local: nat, lost: bool)
    requires Current(e, g, lost) && !op.IsRequest() && local != NO_NODE
    ensures Current(OpEffect(e, op, local).entry, MoveData(g, e, op, local), LostAfter(e, op, local, lost))
  {
  }

  /** One step leaves a reader with an older write exactly when it is a read miss on a lost line. */
  lemma StepLatestIff(e: Entry, g: Data, op: Op, local: nat, lost: bool)
    requires Current(e, g, lost) && op.Legal() && local != NO_NODE
    ensures var e', g' := OpEffect(e, op, local).entry, MoveData(g, e, op, local);
            && (LatestEverywhere(e', g') <==> !(lost && ReadMiss(e, op)))
            && (LatestEverywhere(e', g') ==> Current(e', g', LostAfter(e, op, local, lost)))
  {
    match op
    case Read(_) => ReadLatestIff(e, g, op, local, lost);
    case Write(_) => WriteIsCurrent(e, g, op, local, lost);
    case Atomic(_) => WriteIsCurrent(e, g, op, local, lost);
    case _ => HandlerIsCurrent(e, g, op, local, lost);
  }

  /** One step keeps coherence exactly when it does not drop an OWNED line. */
  lemma StepCoherentIff(e: Entry, g: Data, op: Op, local: nat)
    requires Coherent(e, g) && op.Legal() && local != NO_NODE
    ensures Coherent(OpEffect(e, op, local).entry, MoveData(g, e, op, local)) <==> !DropsOwned(e, op, local)
  {
    StepLatestIff(e, g, op, local, false);
  }

  // ---------------------------------------------------------------------------------------------
  // When every reader holds the last write
  // ---------------------------------------------------------------------------------------------

  lemma {:induction false} RunAllSnoc(w: World, ops: seq<Op>, n: nat)
    requires n < |ops|
    ensures RunAll(w, ops[..n + 1]) == ApplyAll(RunAll(w, ops[..n]), ops[n])
    decreases n
  {
    assert ops[..n + 1][1..] == ops[1..][..n];
    if n == 0 {
      assert ops[..0] == [] && ops[1..][..0] == [];
    } else {
      assert ops[..n][1..] == ops[1..][..n - 1];
      RunAllSnoc(ApplyAll(w, ops[0]), ops[1..], n - 1);
    }
  }

  /** The directory of a run does not depend on the data it moves. */
  lemma {:induction false} RunAllDirectory(w: World, ops: seq<Op>)
    ensures RunAll(w, ops).dir == Run(w.dir, ops) && Run(w.dir, ops).local == w.dir.local
    decreases |ops|
  {
    if ops != [] {
      RunAllDirectory(ApplyAll(w, ops[0]), ops[1..]);
    }
  }

  /** Directory and data before operation `n` of a run from an empty directory. */
  function WorldAt(local: nat, ops: seq<Op>, n: nat): World
    requires n <= |ops|
  {
    RunAll(FreshWorld(local), ops[..n])
  }

  /** The entry that operation `j` finds; the directory alone decides it. */
  function Found(local: nat, ops: seq<Op>, j: nat): Entry
    requires j < |ops|
  {
    Run(Fresh(local), ops[..j]).EntryAt(ops[j].Target())
  }

  lemma WorldAtStep(local: nat, ops: seq<Op>, n: nat)
    requires n < |ops|
    ensures WorldAt(local, ops, n + 1) == ApplyAll(WorldAt(local, ops, n), ops[n])
    ensures WorldAt(local, ops, n).dir.EntryAt(ops[n].Target()) == Found(local, ops, n)
    ensures WorldAt(local, ops, n).dir.local == local
  {
    RunAllSnoc(FreshWorld(local), ops, n);
    RunAllDirectory(FreshWorld(local), ops[..n]);
  }

  /** The operations that drop the line while this node holds it OWNED. */
  ghost function Drops(local: nat, ops: seq<Op>, line: nat): nat -> bool {
    (i: nat) => i < |ops| && ops[i].Target() == line && DropsOwned(Found(local, ops, i), ops[i], local)
  }

  ghost function Writings(ops: seq<Op>, line: nat): nat -> bool {
    (i: nat) => i < |ops| && ops[i].Target() == line && Stores(ops[i])
  }

  /** Before operation `n`: the line was dropped while OWNED here, and nobody has written it since. */
  ghost predicate Lost(local: nat, ops: seq<Op>, line: nat, n: nat) {
    Since(Drops(local, ops, line), Writings(ops, line), n)
  }

  /** Operation `j` is a read miss on a line that is lost at that point. */
  ghost predicate StaleMiss(local: nat, ops: seq<Op>, j: nat)
    requires j < |ops|
  {
    ReadMiss(Found(local, ops, j), ops[j]) && Lost(local, ops, ops[j].Target(), j)
  }

  lemma LostStep(local: nat, ops: seq<Op>, line: nat, n: nat)
    requires n < |ops|
    ensures Lost(local, ops, line, n + 1) <==>
            if ops[n].Target() == line
            then LostAfter(Found(local, ops, n), ops[n], local, Lost(local, ops, line, n))
            else Lost(local, ops, line, n)
  {
    SinceStep(Drops(local, ops, line), Writings(ops, line), n);
  }

  ghost predicate LatestOnAllLines(w: World) {
    forall line :: LatestEverywhere(w.dir.EntryAt(line), w.DataAt(line))
  }

  ghost predicate LineCurrent(local: nat, ops: seq<Op>, line: nat, n: nat)
    requires n <= |ops|
  {
    var w := WorldAt(local, ops, n);
    Current(w.dir.EntryAt(line), w.DataAt(line), Lost(local, ops, line, n))
  }

  lemma RunStep(local: nat, ops: seq<Op>, line: nat, n: nat)
    requires AllLegal(ops) && local != NO_NODE && n < |ops|
    requires LineCurrent(local, ops, line, n)
    ensures var w := WorldAt(local, ops, n + 1);
            && (LatestEverywhere(w.dir.EntryAt(line), w.DataAt(line)) <==>
                !(ops[n].Target() == line && StaleMiss(local, ops, n)))
            && (LatestEverywhere(w.dir.EntryAt(line), w.DataAt(line)) ==> LineCurrent(local, ops, line, n + 1))
  {
    var w := WorldAt(local, ops, n);
    WorldAtStep(local, ops, n);
    LostStep(local, ops, line, n);
    if ops[n].Target() == line {
      StepLatestIff(w.dir.EntryAt(line), w.DataAt(line), ops[n], local, Lost(local, ops, line, n));
    }
  }

  /** Without a stale miss, every line of every run is current. */
  lemma {:induction false} RunIsCurrent(local: nat, ops: seq<Op>, line: nat, n: nat)
    requires AllLegal(ops) && local != NO_NODE && n <= |ops|
    requires forall j :: 0 <= j < n ==> !StaleMiss(local, ops, j)
    ensures LineCurrent(local, ops, line, n)
  {
    if n == 0 {
      assert ops[..0] == [] && Current(EMPTY_ENTRY, EMPTY_DATA, false);
    } else {
      RunIsCurrent(local, ops, line, n - 1);
      RunStep(local, ops, line, n - 1);
    }
  }

  /** The first stale miss of a run leaves its requester with an older write. */
  lemma {:induction false} FirstStaleMiss(local: nat, ops: seq<Op>, j: nat) returns (n: nat)
    requires AllLegal(ops) && local != NO_NODE
    requires j < |ops| && StaleMiss(local, ops, j)
    ensures n <= |ops| && !LatestOnAllLines(WorldAt(local, ops, n))
  {
    if i :| 0 <= i < j && StaleMiss(local, ops, i) {
      n := FirstStaleMiss(local, ops, i);
    } else {
      n := j + 1;
      RunIsCurrent(local, ops, ops[j].Target(), j);
      RunStep(local, ops, ops[j].Target(), j);
    }
  }

  /**
    In every state of a run every node that may read holds the last write, exactly when no read miss
    on a line follows a drop of that line held OWNED here before the next write to it.
   */
  lemma EveryRunLatestIff(local: nat, ops: seq<Op>)
    requires AllLegal(ops) && local != NO_NODE
    ensures (forall n :: 0 <= n <= |ops| ==> LatestOnAllLines(WorldAt(local, ops, n))) <==>
            (forall j :: 0 <= j < |ops| ==> !StaleMiss(local, ops, j))
  {
    if j :| 0 <= j < |ops| && StaleMiss(local, ops, j) {
      var n := FirstStaleMiss(local, ops, j);
    } else {
      forall n | 0 <= n <= |ops| ensures LatestOnAllLines(WorldAt(local, ops, n)) {
        var w := WorldAt(local, ops, n);
        forall line ensures LatestEverywhere(w.dir.EntryAt(line), w.DataAt(line)) {
          RunIsCurrent(local, ops, line, n);
        }
      }
    }
  }

  // ---------------------------------------------------------------------------------------------
  // When the directory knows of every copy
  // ---------------------------------------------------------------------------------------------

  /** Every node that may read has a copy, and no copy is newer than the last write. */
  ghost predicate Supplied(e: Entry, g: Data) {
    && EntryInv(e)
    && NO_NODE !in g.copies
    && (forall node :: MayRead(e, node) ==> node in g.copies)
    && g.memory <= g.serial
    && (forall node :: node in g.copies ==> g.copies[node] <= g.serial)
  }

  /** A node has a copy only if the directory lets it read. */
  ghost predicate Tracked(e: Entry, g: Data) {
    forall node :: node in g.copies ==> MayRead(e, node)
  }

  /** A write to a line that is INVALID with sharers left behind, whom nobody tells. */
  predicate UntoldWrite(e: Entry, op: Op) {
    Stores(op) && e.state.Invalid? && e.sharers - {op.req.node} != {}
  }

  lemma WriteCopies(e: Entry, g: Data, op: Op, local: nat)
    requires Stores(op)
    ensures var g' := MoveData(g, e, op, local);
            && g'.serial == g.serial + 1
            && g'.copies == (g.copies - Told(e, op.req.node))[op.req.node := g.serial + 1]
            && (g'.memory == g.memory || (e.owner in g.copies && g'.memory == g.copies[e.owner]))
  {
  }

  lemma WriteSupplies(e: Entry, g: Data, op: Op, local: nat)
    requires Supplied(e, g) && op.Legal() && Stores(op)
    ensures Supplied(WriteEffect(e, op.req, local).entry, MoveData(g, e, op, local))
  {
    WriteTakesLine(e, op.req, local);
    WriteCopies(e, g, op, local);
  }

  lemma StepSupplies(e: Entry, g: Data, op: Op, local: nat)
    requires Supplied(e, g) && op.Legal() && local != NO_NODE
    ensures Supplied(OpEffect(e, op, local).entry, MoveData(g, e, op, local))
  {
    if Stores(op) {
      WriteSupplies(e, g, op, local);
    }
  }

  lemma WriteTrackedIff(e: Entry, g: Data, op: Op, local: nat)
    requires Supplied(e, g) && Tracked(e, g) && op.Legal() && Stores(op)
    ensures Tracked(WriteEffect(e, op.req, local).entry, MoveData(g, e, op, local)) <==> !UntoldWrite(e, op)
  {
    WriteTakesLine(e, op.req, local);
    WriteCopies(e, g, op, local);
    if UntoldWrite(e, op) {
      var node :| node in e.sharers - {op.req.node};
      assert node in MoveData(g, e, op, local).copies;
    }
  }

  /** One step leaves a copy behind the directory's back exactly when it is an untold write. */
  lemma StepTrackedIff(e: Entry, g: Data, op: Op, local: nat)
    requires Supplied(e, g) && Tracked(e, g) && op.Legal() && local != NO_NODE
    ensures Tracked(OpEffect(e, op, local).entry, MoveData(g, e, op, local)) <==> !UntoldWrite(e, op)
  {
    if Stores(op) {
      WriteTrackedIff(e, g, op, local);
    }
  }

  lemma {:induction false} RunSupplies(local: nat, ops: seq<Op>, line: nat, n: nat)
    requires AllLegal(ops) && local != NO_NODE && n <= |ops|
    ensures Supplied(WorldAt(local, ops, n).dir.EntryAt(line), WorldAt(local, ops, n).DataAt(line))
  {
    if n == 0 {
      assert ops[..0] == [];
    } else {
      RunSupplies(local, ops, line, n - 1);
      WorldAtStep(local, ops, n - 1);
      var w := WorldAt(local, ops, n - 1);
      if ops[n - 1].Target() == line {
        StepSupplies(w.dir.EntryAt(line), w.DataAt(line), ops[n - 1], local);
      }
    }
  }

  ghost predicate TrackedOnAllLines(w: World) {
    forall line :: Tracked(w.dir.EntryAt(line), w.DataAt(line))
  }

  lemma RunTrackedStep(local: nat, ops: seq<Op>, line: nat, n: nat)
    requires AllLegal(ops) && local != NO_NODE && n < |ops|
    requires Tracked(WorldAt(local, ops, n).dir.EntryAt(line), WorldAt(local, ops, n).DataAt(line))
    ensures Tracked(WorldAt(local, ops, n + 1).dir.EntryAt(line), WorldAt(local, ops, n + 1).DataAt(line)) <==>
            !(ops[n].Target() == line && UntoldWrite(Found(local, ops, n), ops[n]))
  {
    var w := WorldAt(local, ops, n);
    WorldAtStep(local, ops, n);
    RunSupplies(local, ops, line, n);
    if ops[n].Target() == line {
      StepTrackedIff(w.dir.EntryAt(line), w.DataAt(line), ops[n], local);
    }
  }

  lemma {:induction false} RunIsTracked(local: nat, ops: seq<Op>, line: nat, n: nat)
    requires AllLegal(ops) && local != NO_NODE && n <= |ops|
    requires forall j :: 0 <= j < n ==> !UntoldWrite(Found(local, ops, j), ops[j])
    ensures Tracked(WorldAt(local, ops, n).dir.EntryAt(line), WorldAt(local, ops, n).DataAt(line))
  {
    if n == 0 {
      assert ops[..0] == [];
    } else {
      RunIsTracked(local, ops, line, n - 1);
      RunTrackedStep(local, ops, line, n - 1);
    }
  }

  /**
    An untold write leaves every other leftover sharer with a copy that is older than the last write
    and that the directory no longer lets it read.
   */
  lemma UntoldCopyIsStale(local: nat, ops: seq<Op>, j: nat, node: nat)
    requires AllLegal(ops) && local != NO_NODE
    requires j < |ops| && UntoldWrite(Found(local, ops, j), ops[j])
    requires node in Found(local, ops, j).sharers && node != ops[j].req.node
    ensures var w, line := WorldAt(local, ops, j + 1), ops[j].Target();
            && !MayRead(w.dir.EntryAt(line), node)
            && node in w.DataAt(line).copies && w.DataAt(line).copies[node] < w.DataAt(line).serial
  {
    var w, line := WorldAt(local, ops, j), ops[j].Target();
    WorldAtStep(local, ops, j);
    RunSupplies(local, ops, line, j);
    WriteTakesLine(w.dir.EntryAt(line), ops[j].req, local);
    WriteCopies(w.dir.EntryAt(line), w.DataAt(line), ops[j], local);
  }

  /**
    In every state of a run the nodes with a copy of a line are exactly those that may read it, exactly
    when nobody writes a line that is INVALID while another node is still listed as a sharer.
   */
  lemma EveryRunTrackedIff(local: nat, ops: seq<Op>)
    requires AllLegal(ops) && local != NO_NODE
    ensures (forall n :: 0 <= n <= |ops| ==> TrackedOnAllLines(WorldAt(local, ops, n))) <==>
            (forall j :: 0 <= j < |ops| ==> !UntoldWrite(Found(local, ops, j), ops[j]))
  {
    if j :| 0 <= j < |ops| && UntoldWrite(Found(local, ops, j), ops[j]) {
      var node :| node in Found(local, ops, j).sharers - {ops[j].req.node};
      UntoldCopyIsStale(local, ops, j, node);
      assert !TrackedOnAllLines(WorldAt(local, ops, j + 1));
    } else {
      forall n | 0 <= n <= |ops| ensures TrackedOnAllLines(WorldAt(local, ops, n)) {
        var w := WorldAt(local, ops, n);
        forall line ensures Tracked(w.dir.EntryAt(line), w.DataAt(line)) {
          RunIsTracked(local, ops, line, n);
        }
      }
    }
  }

  /** Three operations lead to such a write: this node writes, another reads, this node writes back. */
  lemma WritebackLeavesSharer(local: nat, write: Op, read: Op, back: Op, again: Op)
    requires write.Write? && write.req.node == local && read.Read? && read.req.node != local
    requires back.RemoteWriteback? && back.from == local
    requires write.Legal() && read.Legal() && Stores(again) && again.req.node != read.req.node
    ensures var e := OpEffect(OpEffect(OpEffect(EMPTY_ENTRY, write, local).entry, read, local).entry, back, local).entry;
            e.state == Invalid && e.sharers == {read.req.node} && UntoldWrite(e, again)
  {
    OwnedAfterWriteAndRead(local, write, read);
    assert read.req.node in {read.req.node} - {again.req.node};
  }

  // ---------------------------------------------------------------------------------------------
  // When memory keeps up too
  // ---------------------------------------------------------------------------------------------

  ghost predicate WorldCoherent(w: World) {
    && w.dir.entries.Keys == w.data.Keys
    && forall line :: line in w.data ==> Coherent(w.dir.entries[line], w.data[line])
  }

  lemma ApplyCoherentIff(w: World, op: Op)
    requires WorldCoherent(w) && op.Legal() && w.dir.local != NO_NODE
    ensures WorldCoherent(ApplyAll(w, op)) <==> !DropsOwned(w.dir.EntryAt(op.Target()), op, w.dir.local)
  {
    var line := op.Target();
    assert Coherent(EMPTY_ENTRY, EMPTY_DATA);
    StepCoherentIff(w.dir.EntryAt(line), w.DataAt(line), op, w.dir.local);
    var w' := ApplyAll(w, op);
    if line in w'.data {
      assert Coherent(w'.dir.entries[line], w'.data[line]) ==> WorldCoherent(w');
    }
  }

  ghost predicate NeverDropsOwned(w: World, ops: seq<Op>)
    decreases |ops|
  {
    ops == [] || (!DropsOwned(w.dir.EntryAt(ops[0].Target()), ops[0], w.dir.local)
                  && NeverDropsOwned(ApplyAll(w, ops[0]), ops[1..]))
  }

  ghost predicate CoherentThroughout(w: World, ops: seq<Op>) {
    forall n :: 0 <= n <= |ops| ==> WorldCoherent(RunAll(w, ops[..n]))
  }

  lemma {:induction false} RunCoherentIff(w: World, ops: seq<Op>)
    requires WorldCoherent(w) && AllLegal(ops) && w.dir.local != NO_NODE
    ensures CoherentThroughout(w, ops) <==> NeverDropsOwned(w, ops)
    decreases |ops|
  {
    if ops == [] {
      assert ops[..0] == [];
    } else {
      var w' := ApplyAll(w, ops[0]);
      ApplyCoherentIff(w, ops[0]);
      forall n | 0 < n <= |ops|
        ensures RunAll(w, ops[..n]) == RunAll(w', ops[1..][..n - 1])
      {
        assert ops[..n][1..] == ops[1..][..n - 1];
      }
      assert RunAll(w, ops[..1]) == RunAll(w', []);
      if WorldCoherent(w') {
        RunCoherentIff(w', ops[1..]);
        if CoherentThroughout(w', ops[1..]) {
          forall n | 0 <= n <= |ops| ensures WorldCoherent(RunAll(w, ops[..n])) {
            assert n > 0 ==> WorldCoherent(RunAll(w', ops[1..][..n - 1]));
          }
        } else {
          var n :| 0 <= n <= |ops[1..]| && !WorldCoherent(RunAll(w', ops[1..][..n]));
          assert !WorldCoherent(RunAll(w, ops[..n + 1]));
        }
      } else {
        assert !WorldCoherent(RunAll(w, ops[..1]));
      }
    }
  }

  /**
    The readers hold the last write in all states of a run, and memory holds it too whenever no node
    owns the line, exactly when no remote invalidate reaches a line this node holds OWNED.
   */
  lemma EveryRunCoherentIff(local: nat, ops: seq<Op>)
    requires AllLegal(ops) && local != NO_NODE
    ensures CoherentThroughout(FreshWorld(local), ops) <==> NeverDropsOwned(FreshWorld(local), ops)
  {
    RunCoherentIff(FreshWorld(local), ops);
  }

  /**
    A read always ends with the requester holding the last write; on a miss in a line some node holds
    MODIFIED or OWNED, the response names that node, it is not the requester, and it holds that write.
   */
  lemma ReadDeliversLatest(w: World, req: Request)
    requires WorldCoherent(w) && req.node != NO_NODE && w.dir.local != NO_NODE
    ensures var line := Line(req.addr);
            var e, g, g' := w.dir.EntryAt(line), w.DataAt(line), ApplyAll(w, Read(req)).DataAt(line);
            && g'.serial == g.serial
            && req.node in g'.copies && g'.copies[req.node] == g.serial
            && (!MayRead(e, req.node) && (e.state.Modified? || e.state.Owned?) ==>
                  && ReadEffect(e, req, w.dir.local).response.dataSource == e.owner
                  && e.owner != req.node
                  && e.owner in g.copies && g.copies[e.owner] == g.serial)
  {
  }

  /**
    A write that finds another node holding the line MODIFIED or OWNED names that node as the source of
    the data, and that node holds the last write; any other request that needs no owner's copy names this
    node.
   */
  lemma RequestNamesSource(w: World, op: Op)
    requires WorldCoherent(w) && op.IsRequest() && op.Legal() && w.dir.local != NO_NODE
    ensures var e, g := w.dir.EntryAt(op.Target()), w.DataAt(op.Target());
            var source := OpEffect(e, op, w.dir.local).response.dataSource;
            var needsOwner := (e.state.Modified? || e.state.Owned?) && e.owner != op.req.node
                              && !(op.Read? && op.req.node in e.sharers);
            && (needsOwner ==> source == e.owner && e.owner in g.copies && g.copies[e.owner] == g.serial)
            && (!needsOwner ==> source == w.dir.local)
  {
    var e, g := w.dir.EntryAt(op.Target()), w.DataAt(op.Target());
    assert EntryInv(e) && LatestEverywhere(e, g);
    if e.state.Modified? || e.state.Owned? {
      assert MayRead(e, e.owner);
    }
  }

  /** After a write the writer alone may read, and it holds the new value. */
  lemma WriteIsExclusive(w: World, op: Op, node: nat)
    requires WorldCoherent(w) && op.Legal() && (op.Write? || op.Atomic?) && w.dir.local != NO_NODE
    ensures var w' := ApplyAll(w, op);
            var line := op.Target();
            && (MayRead(w'.dir.EntryAt(line), node) <==> node == op.req.node)
            && w'.DataAt(line).serial == w.DataAt(line).serial + 1
            && op.req.node in w'.DataAt(line).copies
            && w'.DataAt(line).copies[op.req.node] == w'.DataAt(line).serial
  {
  }

  /**
    The loss is real: whenever a coherent world drops an OWNED line, any node that was not sharing it
    and reads it next is let in with an older write than the last one.
   */
  lemma DropHandsOutStaleData(w: World, drop: Op, req: Request)
    requires WorldCoherent(w) && w.dir.local != NO_NODE
    requires DropsOwned(w.dir.EntryAt(drop.Target()), drop, w.dir.local)
    requires Line(req.addr) == drop.Target()
    requires req.node != NO_NODE && !MayRead(w.dir.EntryAt(drop.Target()), req.node)
    ensures var w' := ApplyAll(ApplyAll(w, drop), Read(req));
            var e, g := w'.dir.EntryAt(drop.Target()), w'.DataAt(drop.Target());
            MayRead(e, req.node) && req.node in g.copies && g.copies[req.node] < g.serial
  {
  }

  /** Such a world is two requests away: this node writes, another one reads. */
  lemma OwnedAfterWriteAndRead(local: nat, write: Op, read: Op)
    requires write.Write? && write.req.node == local && read.Read? && read.req.node != local
    requires write.Legal() && read.Legal()
    ensures var e := OpEffect(OpEffect(EMPTY_ENTRY, write, local).entry, read, local).entry;
            e.state == Owned && e.owner == local && e.sharers == {read.req.node}
  {
  }

  // ---------------------------------------------------------------------------------------------
  // Exact counters and bookkeeping
  // ---------------------------------------------------------------------------------------------

  /** Addresses share a line exactly when they are in the same 64-byte block. */
  lemma SameLineIff(a: nat, b: nat)
    ensures Line(a) == Line(b) <==> a / 64 == b / 64
  {
    assert Line(a) == 64 * (a / 64) && Line(b) == 64 * (b / 64);
  }

  /**
    A write tells every other node that must drop its copy, except that an OWNED line's owner is not
    counted; sharers count as invalidated, and an owner in another node with a dirty line as written back.
   */
  lemma WriteCountsExactly(e: Entry, req: Request, local: nat)
    requires EntryInv(e) && req.node != NO_NODE
    ensures var c := WriteEffect(e, req, local).counts;
            && c.messages == (if e.state.Owned? then |e.sharers - {req.node}| else |Told(e, req.node)|)
            && c.invalidations == (if e.state.Shared? || e.state.Owned? then |e.sharers - {req.node}| else 0)
            && c.writebacks == (if (e.state.Modified? || e.state.Owned?) && e.owner != req.node then 1 else 0)
            && c.downgrades == 0 && c.ops == 1 && c.remoteOps == (if req.node != local then 1 else 0)
  {
    if e.state.Modified? {
      assert Told(e, req.node) == if e.owner == req.node then {} else {e.owner};
    }
  }

  /** A read sends one message exactly when it has to fetch the line from an owner in another node. */
  lemma ReadCountsExactly(e: Entry, req: Request, local: nat)
    requires EntryInv(e) && req.node != NO_NODE
    ensures var c := ReadEffect(e, req, local).counts;
            && c.messages == (if !MayRead(e, req.node) && (e.state.Modified? || e.state.Owned?) then 1 else 0)
            && c.invalidations == 0 && c.writebacks == 0 && c.downgrades == 0
            && c.ops == 1 && c.remoteOps == (if req.node != local then 1 else 0)
  {
  }

  /** A handler counts the message it handles, and a write-back when it gives up a MODIFIED line. */
  lemma HandlerCountsExactly(e: Entry, op: Op, local: nat)
    requires EntryInv(e) && !op.IsRequest()
    ensures var c := OpEffect(e, op, local).counts;
            && c.messages == 0 && c.ops == 0 && c.remoteOps == 0
            && c.invalidations == (if op.RemoteInvalidate? then 1 else 0)
            && c.downgrades == (if op.RemoteDowngrade? then 1 else 0)
            && c.writebacks == (if op.RemoteWriteback? || (op.RemoteInvalidate? && HoldsAlone(e, local) && e.state.Modified?)
                                then 1 else 0)
  {
  }

  /**
    What the handlers do to the right to read: an invalidate takes it from this node alone, a write-back by
    the owner from that owner alone, a downgrade from nobody; but after a downgrade this node may no longer
    write without asking.
   */
  lemma HandlersMoveRights(e: Entry, op: Op, local: nat, node: nat)
    requires EntryInv(e) && !op.IsRequest() && local != NO_NODE && node != NO_NODE
    ensures var e' := OpEffect(e, op, local).entry;
            && (op.RemoteInvalidate? ==> (MayRead(e', node) <==> MayRead(e, node) && node != local))
            && (op.RemoteWriteback? ==> (MayRead(e', node) <==> MayRead(e, node) && !(node == op.from && e.owner == node)))
            && (op.RemoteDowngrade? ==> (MayRead(e', node) <==> MayRead(e, node)))
            && (op.RemoteDowngrade? ==> !(e'.owner == local && e'.state.Modified?))
            && (op.RemoteDowngrade? && e.owner != local ==> e' == e)
  {
  }

  /** A read lets its requester read, and takes the right from nobody. */
  lemma ReadAddsReader(e: Entry, req: Request, local: nat, node: nat)
    requires EntryInv(e) && req.node != NO_NODE && node != NO_NODE
    ensures MayRead(ReadEffect(e, req, local).entry, node) <==> MayRead(e, node) || node == req.node
  {
  }

  function Requests(ops: seq<Op>): nat {
    if ops == [] then 0 else (if ops[0].IsRequest() then 1 else 0) + Requests(ops[1..])
  }

  function RemoteRequests(ops: seq<Op>, local: nat): nat {
    if ops == [] then 0
    else (if ops[0].IsRequest() && ops[0].req.node != local then 1 else 0) + RemoteRequests(ops[1..], local)
  }

  /** Every request is counted once, and once more when it comes from another node. */
  lemma {:induction false} RunCountsRequests(d: Directory, ops: seq<Op>)
    ensures var d' := Run(d, ops);
            && d'.counters.ops == d.counters.ops + Requests(ops)
            && d'.counters.remoteOps == d.counters.remoteOps + RemoteRequests(ops, d.local)
    decreases |ops|
  {
    if ops != [] {
      ApplyCountsRequest(d, ops[0]);
      RunCountsRequests(Apply(d, ops[0]), ops[1..]);
    }
  }

  lemma ApplyCountsRequest(d: Directory, op: Op)
    ensures var d' := Apply(d, op);
            && d'.local == d.local
            && d'.counters.ops == d.counters.ops + (if op.IsRequest() then 1 else 0)
            && d'.counters.remoteOps == d.counters.remoteOps + (if op.IsRequest() && op.req.node != d.local then 1 else 0)
  {
  }

  /** The requests by which a node comes to own the line: a read of an INVALID line, a write by a node that did not own it. */
  predicate TakesLine(e: Entry, op: Op) {
    || (op.Read? && e.state.Invalid? && op.req.node !in e.sharers)
    || (Stores(op) && !HoldsAlone(e, op.req.node))
  }

  /** The messages after which nobody owns the line. */
  predicate GivesUpLine(e: Entry, op: Op, local: nat) {
    || (op.RemoteInvalidate? && e.owner == local)
    || (op.RemoteWriteback? && e.owner == op.from)
  }

  /** Owner and owner's head move together; the line is dirty from a write until its owner writes it back. */
  lemma BookkeepingIsExact(e: Entry, op: Op, local: nat)
    requires EntryInv(e) && op.Legal()
    ensures var e' := OpEffect(e, op, local).entry;
            && (TakesLine(e, op) ==> e'.owner == op.req.node && e'.ownerHead == op.req.head)
            && (GivesUpLine(e, op, local) ==> e'.owner == NO_NODE && e'.ownerHead == NO_NODE)
            && (!TakesLine(e, op) && !GivesUpLine(e, op, local) ==> e'.owner == e.owner && e'.ownerHead == e.ownerHead)
            && (e'.dirty <==> Stores(op) || (e.dirty && !(op.RemoteWriteback? && e.owner == op.from)))
            && e'.lastAccess == (if op.IsRequest() then op.req.time else e.lastAccess)
  {
  }

  /** The write-backs by which the owner of the line cleans it. */
  ghost function Cleanings(local: nat, ops: seq<Op>, line: nat): nat -> bool {
    (i: nat) => i < |ops| && ops[i].Target() == line && ops[i].RemoteWriteback?
                && Found(local, ops, i).owner == ops[i].from
  }

  ghost function DirtyTimes(local: nat, ops: seq<Op>, line: nat): nat -> bool {
    (n: nat) => n <= |ops| && WorldAt(local, ops, n).dir.EntryAt(line).dirty
  }

  lemma DirtyStep(local: nat, ops: seq<Op>, line: nat, n: nat)
    requires AllLegal(ops) && n < |ops|
    ensures DirtyTimes(local, ops, line)(n + 1) <==>
            || Writings(ops, line)(n)
            || (DirtyTimes(local, ops, line)(n) && !Cleanings(local, ops, line)(n))
  {
    WorldAtStep(local, ops, n);
    RunAllDirectory(FreshWorld(local), ops[..n]);
    EveryRunKeepsEntries(local, ops[..n], line);
    if ops[n].Target() == line {
      BookkeepingIsExact(Found(local, ops, n), ops[n], local);
    }
  }

  /** After every run a line is dirty exactly when it was written and its owner has not written it back since. */
  lemma DirtySinceWritten(local: nat, ops: seq<Op>, line: nat, n: nat)
    requires AllLegal(ops) && n <= |ops|
    ensures WorldAt(local, ops, n).dir.EntryAt(line).dirty <==>
            Since(Writings(ops, line), Cleanings(local, ops, line), n)
  {
    var dirty := DirtyTimes(local, ops, line);
    assert ops[..0] == [];
    forall k: nat | k < n
      ensures dirty(k + 1) <==> Writings(ops, line)(k) || (dirty(k) && !Cleanings(local, ops, line)(k))
    {
      DirtyStep(local, ops, line, k);
    }
    FollowsSince(dirty, Writings(ops, line), Cleanings(local, ops, line), n);
  }

  // ---------------------------------------------------------------------------------------------
  // Amortised traffic
  // ---------------------------------------------------------------------------------------------

  /** All (line, sharer) pairs: the credit that pays for later invalidations. */
  ghost function SharerPairs(d: Directory): set<(nat, nat)> {
    set line, node | line in d.entries && node in d.entries[line].sharers :: (line, node)
  }

  function Reads(ops: seq<Op>): nat {
    if ops == [] then 0 else (if ops[0].Read? then 1 else 0) + Reads(ops[1..])
  }

  function Writes(ops: seq<Op>): nat {
    if ops == [] then 0 else (if ops[0].Write? || ops[0].Atomic? then 1 else 0) + Writes(ops[1..])
  }

  function RemoteInvalidates(ops: seq<Op>): nat {
    if ops == [] then 0 else (if ops[0].RemoteInvalidate? then 1 else 0) + RemoteInvalidates(ops[1..])
  }

  ghost function LinePairs(line: nat, nodes: set<nat>): set<(nat, nat)> {
    set node | node in nodes :: (line, node)
  }

  lemma {:induction false} LinePairsSize(line: nat, nodes: set<nat>)
    ensures |LinePairs(line, nodes)| == |nodes|
  {
    if nodes != {} {
      var n :| n in nodes;
      LinePairsSize(line, nodes - {n});
      assert LinePairs(line, nodes) == LinePairs(line, nodes - {n}) + {(line, n)};
    }
  }

  /** Replacing one entry changes the number of pairs by the change in that entry's sharers. */
  lemma PairsAfterUpdate(d: Directory, line: nat, e: Entry)
    ensures var d' := d.(entries := d.entries[line := e]);
            |SharerPairs(d')| + |d.EntryAt(line).sharers| == |SharerPairs(d)| + |e.sharers|
  {
    var d' := d.(entries := d.entries[line := e]);
    SplitPairs(d, line);
    SplitPairs(d', line);
    assert OtherPairs(d, line) == OtherPairs(d', line);
  }

  ghost function OtherPairs(d: Directory, line: nat): set<(nat, nat)> {
    set p | p in SharerPairs(d) && p.0 != line
  }

  lemma SplitPairs(d: Directory, line: nat)
    ensures |SharerPairs(d)| == |OtherPairs(d, line)| + |d.EntryAt(line).sharers|
  {
    var mine := LinePairs(line, d.EntryAt(line).sharers);
    LinePairsSize(line, d.EntryAt(line).sharers);
    assert SharerPairs(d) == OtherPairs(d, line) + mine;
  }

  lemma ReadCost(e: Entry, req: Request, local: nat)
    requires EntryInv(e)
    ensures var f := ReadEffect(e, req, local);
            && f.counts.invalidations == 0 && f.counts.messages <= 1
            && |f.entry.sharers| <= |e.sharers| + 1
  {
  }

  lemma WriteCost(e: Entry, req: Request, local: nat)
    requires EntryInv(e) && req.node != NO_NODE
    ensures var f := WriteEffect(e, req, local);
            f.counts.invalidations <= |e.sharers| && f.counts.messages <= |e.sharers| + 1 && f.entry.sharers == {}
  {
    WriteTakesLine(e, req, local);
    assert e.sharers == (e.sharers - {req.node}) + (e.sharers * {req.node});
  }

  lemma EffectCost(e: Entry, op: Op, local: nat)
    requires EntryInv(e) && op.Legal()
    ensures var f := OpEffect(e, op, local);
            && f.counts.invalidations + |f.entry.sharers| <=
                 |e.sharers| + (if op.Read? || op.RemoteInvalidate? then 1 else 0)
            && f.counts.messages + |f.entry.sharers| <=
                 |e.sharers| + (if op.Read? then 2 else if op.Write? || op.Atomic? then 1 else 0)
  {
    match op
    case Read(req) => ReadCost(e, req, local);
    case Write(req) => WriteCost(e, req, local);
    case Atomic(req) => WriteCost(e, req, local);
    case _ =>
  }

  /** The counters a run adds, and the change in sharers, against the operations in it. */
  lemma {:induction false} RunTraffic(d: Directory, ops: seq<Op>)
    requires DirectoryInv(d) && AllLegal(ops)
    ensures var d' := Run(d, ops);
            && d'.counters.invalidations + |SharerPairs(d')| <=
                 d.counters.invalidations + |SharerPairs(d)| + Reads(ops) + RemoteInvalidates(ops)
            && d'.counters.messages + |SharerPairs(d')| <=
                 d.counters.messages + |SharerPairs(d)| + 2 * Reads(ops) + Writes(ops)
    decreases |ops|
  {
    if ops != [] {
      var op := ops[0];
      var line := op.Target();
      ApplyKeepsDirectoryInv(d, op);
      EffectCost(d.EntryAt(line), op, d.local);
      PairsAfterUpdate(d, line, OpEffect(d.EntryAt(line), op, d.local).entry);
      RunTraffic(Apply(d, op), ops[1..]);
      assert SharerPairs(Apply(d, op))
          == if !op.IsRequest() && line !in d.entries then SharerPairs(d)
             else SharerPairs(d.(entries := d.entries[line := OpEffect(d.EntryAt(line), op, d.local).entry]));
    }
  }

  /** From an empty directory: every invalidation is paid for by an earlier read or a remote message. */
  lemma TrafficIsAmortised(local: nat, ops: seq<Op>)
    requires AllLegal(ops)
    ensures var d := Run(Fresh(local), ops);
            && d.counters.invalidations + |SharerPairs(d)| <= Reads(ops) + RemoteInvalidates(ops)
            && d.counters.messages + |SharerPairs(d)| <= 2 * Reads(ops) + Writes(ops)
  {
    assert SharerPairs(Fresh(local)) == {};
    RunTraffic(Fresh(local), ops);
  }

  // ---------------------------------------------------------------------------------------------
  // The engine, updated in place
  // ---------------------------------------------------------------------------------------------

  class CoherencyEngine {
    const localNode: nat
    var directory: map<nat, Entry>
    var totalMessages: nat
    var totalInvalidations: nat
    var totalDowngrades: nat
    var totalWritebacks: nat
    var totalRemoteOps: nat
    var totalOps: nat

    ghost function Model(): Directory
      reads this
    {
      Directory(localNode, directory,
                Counters(totalMessages, totalInvalidations, totalDowngrades, totalWritebacks,
                         totalRemoteOps, totalOps))
    }

    constructor (localNode: nat)
      ensures Model() == Fresh(localNode)
    {
      this.localNode := localNode;
      directory := map[];
      totalMessages, totalInvalidations, totalDowngrades := 0, 0, 0;
      totalWritebacks, totalRemoteOps, totalOps := 0, 0, 0;
    }

    method GetOrCreateEntry(addr: nat) returns (e: Entry)
      modifies this`directory
      ensures e == old(Model()).EntryAt(Line(addr))
      ensures directory == old(directory)[Line(addr) := e]
    {
      var line := Line(addr);
      if line !in directory {
        directory := directory[line := EMPTY_ENTRY];
      }
      e := directory[line];
    }

    /** One message and one invalidation per sharer other than `except`, visited one by one. */
    method InvalidateSharers(e: Entry, except: nat) returns (e': Entry)
      modifies this`totalMessages, this`totalInvalidations
      ensures e' == e.(sharers := {})
      ensures totalMessages == old(totalMessages) + |e.sharers - {except}|
      ensures totalInvalidations == old(totalInvalidations) + |e.sharers - {except}|
    {
      var toInvalidate := e.sharers - {except};
      while toInvalidate != {}
        invariant totalMessages + |toInvalidate| == old(totalMessages) + |e.sharers - {except}|
        invariant totalInvalidations + |toInvalidate| == old(totalInvalidations) + |e.sharers - {except}|
        decreases toInvalidate
      {
        var sharer :| sharer in toInvalidate;
        toInvalidate := toInvalidate - {sharer};
        totalInvalidations := totalInvalidations + 1;
        totalMessages := totalMessages + 1;
      }
      e' := e.(sharers := {});
    }

    /** Move an owner other than `node` out of EXCLUSIVE or MODIFIED; one message and one downgrade. */
    method DowngradeOwner(e: Entry, node: nat) returns (e': Entry)
      modifies this`totalMessages, this`totalDowngrades
      ensures e.owner == NO_NODE || e.owner == node ==> e' == e
      ensures e.owner != NO_NODE && e.owner != node ==> e' == DowngradedEntry(e)
      ensures totalMessages == old(totalMessages) + if e.owner == NO_NODE || e.owner == node then 0 else 1
      ensures totalDowngrades == old(totalDowngrades) + if e.owner == NO_NODE || e.owner == node then 0 else 1
    {
      e' := e;
      if e.owner == NO_NODE || e.owner == node {
        return;
      }
      if e.state.Modified? {
        e' := e'.(state := Owned);
        e' := e'.(dirty := true);
      } else if e.state.Exclusive? {
        e' := e'.(sharers := e'.sharers + {e.owner});
        e' := e'.(state := Shared, owner := NO_NODE, ownerHead := NO_NODE);
      }
      totalDowngrades := totalDowngrades + 1;
      totalMessages := totalMessages + 1;
    }

    method FinishRequest(req: Request, e: Entry)
      modifies this`directory, this`totalRemoteOps, this`totalOps
      ensures directory == old(directory)[Line(req.addr) := e]
      ensures totalRemoteOps == old(totalRemoteOps) + if req.node != localNode then 1 else 0
      ensures totalOps == old(totalOps) + 1
    {
      directory := directory[Line(req.addr) := e];
      if req.node != localNode {
        totalRemoteOps := totalRemoteOps + 1;
      }
      totalOps := totalOps + 1;
    }

    method ProcessRead(req: Request) returns (r: Response)
      modifies this
      ensures Model() == Apply(old(Model()), Read(req))
      ensures r == ReadEffect(old(Model()).EntryAt(Line(req.addr)), req, localNode).response
    {
      var e := GetOrCreateEntry(req.addr);
      var newState, source := Shared, localNode;
      e := e.(lastAccess := req.time);
      if e.owner == req.node && (e.state.Exclusive? || e.state.Modified? || e.state.Owned?) {
        newState := e.state;
      } else if req.node in e.sharers {
        newState := Shared;
      } else {
        match e.state
        case Invalid =>
          e := e.(sharers := e.sharers + {req.node}, state := Shared, owner := req.node, ownerHead := req.head);
        case Shared =>
          e := e.(sharers := e.sharers + {req.node});
        case Exclusive =>
          e := DowngradeOwner(e, req.node);
          source := e.owner;
          e := e.(sharers := e.sharers + {req.node}, state := Shared);
          assert e == ReadEffect(old(Model()).EntryAt(Line(req.addr)), req, localNode).entry;
        case Modified =>
          if e.owner != NO_NODE {
            totalMessages := totalMessages + 1;
          }
          source := e.owner;
          e := e.(state := Owned, sharers := e.sharers + {req.node});
        case Owned =>
          source := e.owner;
          totalMessages := totalMessages + 1;
          e := e.(sharers := e.sharers + {req.node});
      }
      ghost var f := ReadEffect(old(Model()).EntryAt(Line(req.addr)), req, localNode);
      assert e == f.entry;
      FinishRequest(req, e);
      assert directory == old(directory)[Line(req.addr) := e];
      r := Response(newState, source);
    }

    method TakeOver(e0: Entry, req: Request) returns (e: Entry, source: nat)
      modifies this`totalMessages, this`totalInvalidations, this`totalWritebacks
      ensures var f := WriteMissEffect(e0, req, localNode);
              && e == f.entry && source == f.response.dataSource
              && totalMessages == old(totalMessages) + f.counts.messages
              && totalInvalidations == old(totalInvalidations) + f.counts.invalidations
              && totalWritebacks == old(totalWritebacks) + f.counts.writebacks
    {
      e, source := e0, localNode;
      match e.state {
        case Invalid =>
        case Shared =>
          e := InvalidateSharers(e, req.node);
        case Exclusive =>
          if e.owner != req.node {
            totalInvalidations := totalInvalidations + 1;
            totalMessages := totalMessages + 1;
          }
        case Modified =>
          if e.owner != req.node {
            source := e.owner;
            totalWritebacks := totalWritebacks + 1;
            totalMessages := totalMessages + 1;
          }
        case Owned =>
          e := InvalidateSharers(e, req.node);
          if e.owner != req.node {
            source := e.owner;
            totalWritebacks := totalWritebacks + 1;
          }
      }
      e := e.(owner := req.node, ownerHead := req.head, state := Modified, sharers := {}, dirty := true);
    }

    /** The write state machine on one entry. */
    method AcquireModified(e0: Entry, req: Request) returns (e: Entry, source: nat)
      modifies this`totalMessages, this`totalInvalidations, this`totalWritebacks
      ensures var f := WriteEffect(e0, req, localNode);
              && e == f.entry && source == f.response.dataSource
              && totalMessages == old(totalMessages) + f.counts.messages
              && totalInvalidations == old(totalInvalidations) + f.counts.invalidations
              && totalWritebacks == old(totalWritebacks) + f.counts.writebacks
    {
      source := localNode;
      e := e0.(lastAccess := req.time, version := (e0.version + 1) % UINT32_VALUES);
      if e.owner == req.node && (e.state.Exclusive? || e.state.Modified?) {
        e := e.(state := Modified, dirty := true);
      } else if e.owner == req.node && e.state.Owned? {
        e := InvalidateSharers(e, req.node);
        e := e.(state := Modified, dirty := true);
      } else {
        e, source := TakeOver(e, req);
      }
    }

    method ProcessWrite(req: Request) returns (r: Response)
      modifies this
      ensures Model() == Apply(old(Model()), Write(req))
      ensures r == WriteEffect(old(Model()).EntryAt(Line(req.addr)), req, localNode).response
    {
      var e := GetOrCreateEntry(req.addr);
      ghost var f := WriteEffect(e, req, localNode);
      var source;
      e, source := AcquireModified(e, req);
      FinishRequest(req, e);
      assert directory == old(directory)[Line(req.addr) := f.entry];
      assert f.counts.remoteOps == (if req.node != localNode then 1 else 0) && f.counts.ops == 1;
      assert f.counts.downgrades == 0 && f.response.newState == Modified;
      r := Response(Modified, source);
    }

    method ProcessAtomic(req: Request) returns (r: Response)
      modifies this
      ensures Model() == Apply(old(Model()), Atomic(req))
      ensures r == WriteEffect(old(Model()).EntryAt(Line(req.addr)), req, localNode).response
    {
      r := ProcessWrite(req);
    }

    method HandleRemoteInvalidate(addr: nat, from: nat)
      modifies this
      ensures Model() == Apply(old(Model()), RemoteInvalidate(addr, from))
    {
      var line := Line(addr);
      if line !in directory {
        return;
      }
      var e := directory[line];
      e := e.(sharers := e.sharers - {localNode});
      if e.owner == localNode {
        if e.state.Modified? {
          e := e.(dirty := true);
          totalWritebacks := totalWritebacks + 1;
        }
        e := e.(owner := NO_NODE, ownerHead := NO_NODE, state := Invalid);
      }
      directory := directory[line := e];
      totalInvalidations := totalInvalidations + 1;
    }

    method HandleRemoteDowngrade(addr: nat, from: nat)
      modifies this
      ensures Model() == Apply(old(Model()), RemoteDowngrade(addr, from))
    {
      var line := Line(addr);
      if line !in directory {
        return;
      }
      var e := directory[line];
      if e.owner == localNode {
        if e.state.Modified? {
          e := e.(state := Owned);
        } else if e.state.Exclusive? {
          e := e.(state := Shared, sharers := e.sharers + {localNode});
        }
      }
      directory := directory[line := e];
      totalDowngrades := totalDowngrades + 1;
    }

    method HandleRemoteWriteback(addr: nat, from: nat)
      modifies this
      ensures Model() == Apply(old(Model()), RemoteWriteback(addr, from))
    {
      var line := Line(addr);
      if line !in directory {
        return;
      }
      var e := directory[line];
      if e.owner == from {
        e := e.(dirty := false, owner := NO_NODE, ownerHead := NO_NODE, state := Invalid,
                sharers := e.sharers - {from});
      }
      directory := directory[line := e];
      totalWritebacks := totalWritebacks + 1;
    }
  }
}
