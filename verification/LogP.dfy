/**
  Send pacing in LogPModel of include/cxlendpoint.h. Times are whole nanoseconds; the gap `g` and the
  sender overhead `oS` are real numbers, and storing the end of a send back into an integer drops its
  fraction, as the source's conversion does. Floating-point rounding is not modelled.
 */
module LogP {

  datatype Config = Config(g: real, oS: real) {
    predicate Sane() {
      g >= 0.0 && oS >= 0.0
    }
  }

  /** How long a send at `now` waits for the gap after the last one; 0 stands for "never sent". */
  function GapWait(c: Config, last: nat, now: nat): (w: real)
    ensures c.Sane() ==> w >= 0.0
  {
    if last > 0 && (now as real) < (last as real) + c.g then (last as real) + c.g - (now as real) else 0.0
  }

  function Start(c: Config, last: nat, now: nat): real {
    (now as real) + GapWait(c, last, now)
  }

  /** The end of the send can be stored without a sign; converting a negative number is undefined. */
  predicate Storable(c: Config, last: nat, now: nat) {
    Start(c, last, now) + c.oS >= 0.0
  }

  function NextLast(c: Config, last: nat, now: nat): nat
    requires Storable(c, last, now)
  {
    (Start(c, last, now) + c.oS).Floor
  }

  function Delay(c: Config, last: nat, now: nat): real {
    GapWait(c, last, now) + c.oS
  }

  /**
    The first send to a destination, and any send once the gap has passed, begins at once; every other one
    begins exactly the gap after the last. The delay reaches to the end of the overhead, whose whole
    nanoseconds are what is stored.
   */
  lemma SendIsExact(c: Config, last: nat, now: nat)
    requires Storable(c, last, now)
    ensures last == 0 || now as real >= last as real + c.g ==> Start(c, last, now) == now as real
    ensures last > 0 && (now as real) < last as real + c.g ==> Start(c, last, now) == last as real + c.g
    ensures now as real + Delay(c, last, now) == Start(c, last, now) + c.oS
    ensures NextLast(c, last, now) as real <= now as real + Delay(c, last, now) < NextLast(c, last, now) as real + 1.0
  {
  }

  datatype Send = Send(now: nat, dst: nat)

  function LastOf(queues: map<nat, nat>, dst: nat): nat {
    if dst in queues then queues[dst] else 0
  }

  /** The last send time of every destination after a history of sends. */
  function After(c: Config, sends: seq<Send>): map<nat, nat>
    requires c.Sane()
    decreases |sends|
  {
    if sends == [] then map[]
    else
      var n := |sends| - 1;
      var q := After(c, sends[..n]);
      q[sends[n].dst := NextLast(c, LastOf(q, sends[n].dst), sends[n].now)]
  }

  /** When the i-th send of a history begins, after its wait. */
  function StartAt(c: Config, sends: seq<Send>, i: nat): real
    requires c.Sane() && i < |sends|
  {
    Start(c, LastOf(After(c, sends[..i]), sends[i].dst), sends[i].now)
  }

  // ---------------------------------------------------------------------------------------------
  // Pacing
  // ---------------------------------------------------------------------------------------------

  /** Any two sends to one destination begin at least the gap apart, in every history and at any timestamps. */
  ghost predicate AlwaysPaced(c: Config)
    requires c.Sane()
  {
    forall sends: seq<Send>, i: nat, j: nat ::
      i < j < |sends| && sends[i].dst == sends[j].dst ==> StartAt(c, sends, i) + c.g <= StartAt(c, sends, j)
  }

  /** The stored time has not lost the beginning of the send, nor its "sent" mark when a gap must be kept. */
  lemma StoredTimeCoversStart(c: Config, last: nat, now: nat)
    requires c.Sane() && (c.g == 0.0 || c.oS >= 1.0)
    ensures Start(c, last, now) <= NextLast(c, last, now) as real
    ensures c.g > 0.0 ==> NextLast(c, last, now) > 0
    ensures last <= NextLast(c, last, now)
  {
    var s := Start(c, last, now);
    var end := s + c.oS;
    assert (last as real) <= s || last == 0;
    if c.g == 0.0 {
      var m := if now < last then last else now;
      assert s == m as real;
      FloorAtLeast(m, end);
    } else {
      assert end < end.Floor as real + 1.0;
      FloorAtLeast(1, end);
      FloorAtLeast(last, end);
    }
  }

  lemma FloorAtLeast(m: int, x: real)
    requires m as real <= x
    ensures m <= x.Floor
  {
  }

  lemma {:induction false} StoredTimeGrows(c: Config, sends: seq<Send>, i: nat)
    requires c.Sane() && (c.g == 0.0 || c.oS >= 1.0) && i < |sends|
    ensures var last := LastOf(After(c, sends), sends[i].dst);
            StartAt(c, sends, i) <= last as real && (c.g > 0.0 ==> last > 0)
    decreases |sends|
  {
    var n := |sends| - 1;
    var q := After(c, sends[..n]);
    StoredTimeCoversStart(c, LastOf(q, sends[n].dst), sends[n].now);
    if i < n {
      assert sends[..n][..i] == sends[..i];
      StoredTimeGrows(c, sends[..n], i);
    }
  }

  lemma SendsArePaced(c: Config, sends: seq<Send>, i: nat, j: nat)
    requires c.Sane() && (c.g == 0.0 || c.oS >= 1.0)
    requires i < j < |sends| && sends[i].dst == sends[j].dst
    ensures StartAt(c, sends, i) + c.g <= StartAt(c, sends, j)
  {
    assert sends[..j][..i] == sends[..i];
    StoredTimeGrows(c, sends[..j], i);
  }

  lemma ShortOverheadBreaksPacing(c: Config, dst: nat)
    requires c.Sane() && c.g > 0.0 && c.oS < 1.0
    ensures var sends := [Send(0, dst), Send(0, dst)]; StartAt(c, sends, 0) + c.g > StartAt(c, sends, 1)
  {
  }

  /**
    The gap is kept in every history exactly when there is no gap to keep or sending takes at least a
    whole nanosecond: a shorter overhead at time 0 is stored as 0, which reads as "never sent".
   */
  lemma PacedIff(c: Config)
    requires c.Sane()
    ensures AlwaysPaced(c) <==> c.g == 0.0 || c.oS >= 1.0
  {
    if c.g == 0.0 || c.oS >= 1.0 {
      forall sends: seq<Send>, i: nat, j: nat | i < j < |sends| && sends[i].dst == sends[j].dst
        ensures StartAt(c, sends, i) + c.g <= StartAt(c, sends, j)
      {
        SendsArePaced(c, sends, i, j);
      }
    } else {
      ShortOverheadBreaksPacing(c, 0);
      var sends := [Send(0, 0), Send(0, 0)];
      assert sends[0].dst == sends[1].dst;
    }
  }

  // ---------------------------------------------------------------------------------------------
  // Destinations do not interfere
  // ---------------------------------------------------------------------------------------------

  function SendsTo(sends: seq<Send>, dst: nat): seq<Send>
    decreases |sends|
  {
    if sends == [] then []
    else var n := |sends| - 1; SendsTo(sends[..n], dst) + if sends[n].dst == dst then [sends[n]] else []
  }

  /** What a destination's queue holds depends only on the sends to that destination. */
  lemma {:induction false} DestinationsIndependent(c: Config, sends: seq<Send>, dst: nat)
    requires c.Sane()
    ensures LastOf(After(c, sends), dst) == LastOf(After(c, SendsTo(sends, dst)), dst)
    decreases |sends|
  {
    if sends != [] {
      var n := |sends| - 1;
      DestinationsIndependent(c, sends[..n], dst);
      var own, before := SendsTo(sends, dst), SendsTo(sends[..n], dst);
      if sends[n].dst == dst {
        assert own[..|own| - 1] == before;
      } else {
        assert own == before;
      }
    }
  }

  // ---------------------------------------------------------------------------------------------
  // A burst
  // ---------------------------------------------------------------------------------------------

  function Burst(t: nat, dst: nat, k: nat): seq<Send> {
    if k == 0 then [] else Burst(t, dst, k - 1) + [Send(t, dst)]
  }

  lemma {:induction false} BurstQueue(t: nat, dst: nat, k: nat, p: nat, g: nat)
    requires p >= 1
    ensures LastOf(After(Config(g as real, p as real), Burst(t, dst, k)), dst)
         == if k == 0 then 0 else t + k * p + (k - 1) * g
  {
    if k > 0 {
      var c := Config(g as real, p as real);
      BurstQueue(t, dst, k - 1, p, g);
      var b := Burst(t, dst, k);
      assert b[..|b| - 1] == Burst(t, dst, k - 1);
      var last := LastOf(After(c, Burst(t, dst, k - 1)), dst);
      BurstStep(c, t, last, k, p, g);
    }
  }

  lemma BurstStep(c: Config, t: nat, last: nat, k: nat, p: nat, g: nat)
    requires c == Config(g as real, p as real) && p >= 1 && k >= 1
    requires last == if k == 1 then 0 else t + (k - 1) * p + (k - 2) * g
    ensures Delay(c, last, t) == (k * p + (k - 1) * g) as real
    ensures NextLast(c, last, t) == t + k * p + (k - 1) * g
  {
    if k > 1 {
      var wait: int := (k - 1) * p + (k - 1) * g;
      assert (k - 1) * g == (k - 2) * g + g;
      assert k * p == (k - 1) * p + p;
      assert (k - 1) * p >= 1 && (k - 2) * g >= 0;
      assert last as real + g as real == (t + wait) as real;
      assert GapWait(c, last, t) == wait as real;
    }
  }

  /** With whole parameters, the k-th of a simultaneous first burst to one destination waits exactly k*oS + (k-1)*g. */
  lemma BurstDelay(t: nat, dst: nat, k: nat, p: nat, g: nat)
    requires p >= 1 && k >= 1
    ensures var c := Config(g as real, p as real);
            Delay(c, LastOf(After(c, Burst(t, dst, k - 1)), dst), t) == (k * p + (k - 1) * g) as real
  {
    var c := Config(g as real, p as real);
    BurstQueue(t, dst, k - 1, p, g);
    BurstStep(c, t, LastOf(After(c, Burst(t, dst, k - 1)), dst), k, p, g);
  }

  // ---------------------------------------------------------------------------------------------
  // The model, updated in place
  // ---------------------------------------------------------------------------------------------

  class LogPModel {
    const config: Config
    var lastSendTime: map<nat, nat>      // node_queues[dst].last_send_time

    constructor (config: Config)
      ensures this.config == config && lastSendTime == map[]
    {
      this.config := config;
      lastSendTime := map[];
    }

    method SendDelay(now: nat, dst: nat) returns (delay: real)
      requires Storable(config, LastOf(lastSendTime, dst), now)
      modifies this
      ensures delay == Delay(config, LastOf(old(lastSendTime), dst), now)
      ensures lastSendTime == old(lastSendTime)[dst := NextLast(config, LastOf(old(lastSendTime), dst), now)]
    {
      var last := if dst in lastSendTime then lastSendTime[dst] else 0;
      var gapWait := 0.0;
      if last > 0 && (now as real) < (last as real) + config.g {
        gapWait := (last as real) + config.g - (now as real);
      }
      lastSendTime := lastSendTime[dst := (now as real + gapWait + config.oS).Floor];
      delay := gapWait + config.oS;
    }
  }
}
