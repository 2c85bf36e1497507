/**
  The detection loop of the seismometer, over exact reals. Accelerometer samples and clock readings
  are inputs; a tick is one turn of the loop.
 */
module Quake {
  import opened Basics

  /** The constants of the program. */
  datatype Config = Config(thresh: real, interval: real, num: nat, noop: nat, dataMax: nat) {
    predicate Sound() {
      1 <= num <= dataMax && 1 <= noop && interval > 0.0
    }
  }

  /** The values of the script; everything below holds for all sound ones. */
  const DEPLOYED := Config(0.01, 0.01, 4, 30, 6000)

  /** Windows of four samples, 0.3 seconds without a shake, 60 seconds of data, at 100 samples a second. */
  lemma DeployedIsSound()
    ensures DEPLOYED.Sound() && DEPLOYED.num == 4 && DEPLOYED.thresh == 0.01
    ensures DEPLOYED.noop as real * DEPLOYED.interval == 0.3 && DEPLOYED.dataMax as real * DEPLOYED.interval == 60.0
  {
  }

  /** What one tick is given: a sample, and the clock if it is read on detection and on reporting. */
  datatype Reading = Reading(x: real, y: real, z: real, found: real, told: real) {
    function Axis(i: nat): real {
      if i == 0 then x else if i == 1 then y else z
    }
  }

  /** What one tick does: nothing to tell, a report on the last samples, or the exception that ends the loop. */
  datatype Outcome = Quiet | Report(elapsed: real, window: seq<seq<real>>) | Stopped

  // ---------- The loop ----------

  /** A suffix of at most k elements: s[-k:] for k > 0. */
  function Last<T>(s: seq<T>, k: nat): seq<T> {
    if |s| <= k then s else s[|s| - k..]
  }

  /** s[-k:] of Python for any k. */
  function Tail<T>(s: seq<T>, k: int): seq<T> {
    if k > 0 then Last(s, k) else if -k <= |s| then s[-k..] else []
  }

  function Sum(s: seq<real>): real {
    if s == [] then 0.0 else Sum(s[..|s| - 1]) + s[|s| - 1]
  }

  function Abs(x: real): real {
    if x >= 0.0 then x else -x
  }

  /** The mean of the last num samples of a buffer. */
  function Mean(c: Config, buffer: seq<real>): real
    requires c.Sound()
  {
    Sum(Last(buffer, c.num)) / c.num as real
  }

  /** The shake test for one axis: a jump of the mean, once there was a positive one. */
  predicate Jump(c: Config, was: real, now: real) {
    was > 0.0 && Abs(now - was) > c.thresh
  }

  datatype State = State(data: seq<seq<real>>, lastD: seq<real>, started: int, startedAt: Option<real>) {
    predicate Valid() {
      |data| == 3 && |lastD| == 3
    }
  }

  const INITIAL := State([[], [], []], [-1.0, -1.0, -1.0], -1, None)

  /** The buffers after a sample. */
  function Pushed(c: Config, s: State, r: Reading): (data: seq<seq<real>>)
    requires s.Valid()
    ensures |data| == 3
  {
    seq(3, i requires 0 <= i < 3 => Last(s.data[i] + [r.Axis(i)], c.dataMax))
  }

  predicate Shaken(c: Config, s: State, data: seq<seq<real>>)
    requires c.Sound() && s.Valid() && |data| == 3
  {
    exists i | 0 <= i < 3 :: |data[i]| >= c.num && Jump(c, s.lastD[i], Mean(c, data[i]))
  }

  function Means(c: Config, s: State, data: seq<seq<real>>): (lastD: seq<real>)
    requires c.Sound() && s.Valid() && |data| == 3
    ensures |lastD| == 3
  {
    seq(3, i requires 0 <= i < 3 => if |data[i]| < c.num then s.lastD[i] else Mean(c, data[i]))
  }

  /** The samples the statistics are made of. */
  function Window(c: Config, data: seq<seq<real>>, elapsed: real): seq<seq<real>>
    requires c.Sound() && |data| == 3
  {
    seq(3, i requires 0 <= i < 3 => Tail(data[i], Trunc(elapsed / c.interval)))
  }

  /** One tick as a function: the new state and the outcome. */
  function Step(c: Config, s: State, r: Reading): (p: (State, Outcome))
    requires c.Sound() && s.Valid()
    ensures p.0.Valid()
  {
    var data := Pushed(c, s, r);
    var shaken := Shaken(c, s, data);
    var lastD := Means(c, s, data);
    var at := if shaken && s.startedAt == None then Some(r.found) else s.startedAt;
    var started := (if shaken then c.noop else s.started) - 1;
    if started != 0 then (State(data, lastD, started, at), Quiet)
    else if at == None then (State(data, lastD, started, at), Stopped)
    else
      var elapsed := r.told - at.value;
      var window := Window(c, data, elapsed);
      if [] in window then (State(data, lastD, started, at), Stopped)
      else (State(data, lastD, started, None), Report(elapsed, window))
  }

  /** All three axes have taken in their sample. */
  lemma Absorbed(c: Config, s: State, r: Reading, longer: seq<seq<real>>, data: seq<seq<real>>, lastD: seq<real>, shaked: bool)
    requires c.Sound() && s.Valid() && |longer| == |data| == |lastD| == 3
    requires longer == [s.data[0] + [r.x], s.data[1] + [r.y], s.data[2] + [r.z]]
    requires forall k | 0 <= k < 3 :: data[k] == Last(longer[k], c.dataMax)
    requires forall k | 0 <= k < 3 :: lastD[k] == if |data[k]| >= c.num then Mean(c, data[k]) else s.lastD[k]
    requires shaked <==> exists k | 0 <= k < 3 :: |data[k]| >= c.num && Jump(c, s.lastD[k], Mean(c, data[k]))
    ensures data == Pushed(c, s, r) && lastD == Means(c, s, data) && (shaked <==> Shaken(c, s, data))
  {
    hide Mean, Last, Jump;
    assert forall k | 0 <= k < 3 :: longer[k] == s.data[k] + [r.Axis(k)];
  }

  class Detector {
    const c: Config
    var data: seq<seq<real>>
    var lastD: seq<real>
    var started: int
    var startedAt: Option<real>

    ghost function Value(): State
      reads this
    {
      State(data, lastD, started, startedAt)
    }

    constructor (c: Config)
      ensures this.c == c && Value() == INITIAL
    {
      this.c := c;
      data := [[], [], []];
      lastD := [-1.0, -1.0, -1.0];
      started := -1;
      startedAt := None;
    }

    /** The loop body of the first half of a turn: the buffer of axis i is cut, its mean moves on. */
    method AbsorbAxis(i: nat) returns (shaked: bool)
      requires c.Sound() && Value().Valid() && i < 3
      modifies this`data, this`lastD
      ensures data == old(data)[i := Last(old(data)[i], c.dataMax)]
      ensures lastD == if |data[i]| < c.num then old(lastD) else old(lastD)[i := Mean(c, data[i])]
      ensures shaked <==> |data[i]| >= c.num && Jump(c, old(lastD)[i], Mean(c, data[i]))
    {
      hide Mean, Last, Jump;
      data := data[i := Last(data[i], c.dataMax)];
      if |data[i]| < c.num {
        return false;
      }
      var d := Mean(c, data[i]);
      shaked := Jump(c, lastD[i], d);
      lastD := lastD[i := d];
    }

    /** The first half of a turn: the sample goes into the buffers, the means move on. */
    method Absorb(r: Reading) returns (shaked: bool)
      requires c.Sound() && Value().Valid()
      modifies this`data, this`lastD
      ensures data == Pushed(c, old(Value()), r)
      ensures lastD == Means(c, old(Value()), data)
      ensures shaked <==> Shaken(c, old(Value()), data)
    {
      hide Mean, Last, Jump, Pushed, Means, Shaken;
      ghost var s := Value();
      data := [data[0] + [r.x], data[1] + [r.y], data[2] + [r.z]];
      ghost var longer := data;
      shaked := false;
      for i := 0 to 3
        invariant |data| == 3 && |lastD| == 3
        invariant forall k | 0 <= k < 3 :: data[k] == if k < i then Last(longer[k], c.dataMax) else longer[k]
        invariant forall k | 0 <= k < 3 ::
                    lastD[k] == if k < i && |data[k]| >= c.num then Mean(c, data[k]) else s.lastD[k]
        invariant shaked <==> exists k | 0 <= k < i ::
                    |data[k]| >= c.num && Jump(c, s.lastD[k], Mean(c, data[k]))
      {
        var moved := AbsorbAxis(i);
        if moved {
          shaked := true;
        }
      }
      Absorbed(c, s, r, longer, data, lastD, shaked);
    }

    /** One turn of the loop of main. */
    method Tick(r: Reading) returns (outcome: Outcome)
      requires c.Sound() && Value().Valid()
      modifies this
      ensures (Value(), outcome) == Step(c, old(Value()), r)
    {
      hide Shaken, Means, Pushed, Window;
      var shaked := Absorb(r);
      if shaked {
        started := c.noop;
        if startedAt == None {
          startedAt := Some(r.found);
        }
      }
      started := started - 1;
      if started != 0 {
        return Quiet;
      }
      if startedAt == None {
        return Stopped;
      }
      var elapsed := r.told - startedAt.value;
      var window := Window(c, data, elapsed);
      if [] in window {
        return Stopped;
      }
      startedAt := None;
      outcome := Report(elapsed, window);
    }
  }
}

/** What the detection loop does over a whole run, told from the readings alone. Ticks count from 1. */
module QuakeRuns {
  import opened Basics
  import opened Quake

  /** The state after n ticks, if the loop has not stopped. */
  function Run(c: Config, rs: seq<Reading>, n: nat): (s: Option<State>)
    requires c.Sound() && n <= |rs|
    ensures s.Some? ==> s.value.Valid()
  {
    if n == 0 then Some(INITIAL)
    else
      var s := Run(c, rs, n - 1);
      if s == None || Step(c, s.value, rs[n - 1]).1 == Stopped then None
      else Some(Step(c, s.value, rs[n - 1]).0)
  }

  /** What tick t does, if the loop gets there. */
  function OutcomeAt(c: Config, rs: seq<Reading>, t: nat): Outcome
    requires c.Sound() && 1 <= t <= |rs| && Run(c, rs, t - 1).Some?
  {
    Step(c, Run(c, rs, t - 1).value, rs[t - 1]).1
  }

  /** The first n samples of an axis. */
  function Samples(rs: seq<Reading>, i: nat, n: nat): (s: seq<real>)
    requires n <= |rs|
    ensures |s| == n
  {
    seq(n, k requires 0 <= k < n => rs[k].Axis(i))
  }

  /** The mean of the num samples of an axis that end with tick t. */
  function MeanAt(c: Config, rs: seq<Reading>, i: nat, t: nat): real
    requires c.Sound() && c.num <= t <= |rs|
  {
    Sum(Samples(rs, i, t)[t - c.num..]) / c.num as real
  }

  predicate JumpAt(c: Config, rs: seq<Reading>, i: nat, t: nat)
    requires c.Sound() && c.num < t <= |rs|
  {
    Jump(c, MeanAt(c, rs, i, t - 1), MeanAt(c, rs, i, t))
  }

  /** There is a shake at tick t: on some axis the mean jumps. */
  predicate ShakeAt(c: Config, rs: seq<Reading>, t: nat)
    requires c.Sound() && t <= |rs|
  {
    c.num < t && exists i | 0 <= i < 3 :: JumpAt(c, rs, i, t)
  }

  // ---------- Shakes in plain numbers ----------

  function Total(s: seq<real>): real {
    if s == [] then 0.0 else s[0] + Total(s[1..])
  }

  function Average(s: seq<real>): real
    requires s != []
  {
    Total(s) / |s| as real
  }

  /** On one axis, the average of num samples was positive and then leaves the band of thresh around it. */
  predicate Shook(c: Config, s: seq<real>, t: nat)
    requires c.Sound() && t <= |s|
  {
    c.num < t &&
    var was, now := Average(s[t - 1 - c.num..t - 1]), Average(s[t - c.num..t]);
    was > 0.0 && (now > was + c.thresh || now < was - c.thresh)
  }

  lemma {:induction false} TotalAppend(s: seq<real>, x: real)
    ensures Total(s + [x]) == Total(s) + x
  {
    if s == [] {
      assert s + [x] == [x] && [x][1..] == [];
    } else {
      assert (s + [x])[1..] == s[1..] + [x];
      TotalAppend(s[1..], x);
    }
  }

  lemma {:induction false} SumIsTotal(s: seq<real>)
    ensures Sum(s) == Total(s)
  {
    if s != [] {
      SumIsTotal(s[..|s| - 1]);
      TotalAppend(s[..|s| - 1], s[|s| - 1]);
      assert s == s[..|s| - 1] + [s[|s| - 1]];
    }
  }

  lemma MeanIsAverage(c: Config, rs: seq<Reading>, i: nat, t: nat, s: seq<real>)
    requires c.Sound() && c.num <= t <= |rs| == |s| && forall k | 0 <= k < |s| :: s[k] == rs[k].Axis(i)
    ensures MeanAt(c, rs, i, t) == Average(s[t - c.num..t])
  {
    hide Sum, Total;
    assert Samples(rs, i, t)[t - c.num..] == s[t - c.num..t];
    SumIsTotal(s[t - c.num..t]);
  }

  lemma AxisShakes(c: Config, rs: seq<Reading>, i: nat, t: nat, s: seq<real>)
    requires c.Sound() && c.num < t <= |rs| == |s| && forall k | 0 <= k < |s| :: s[k] == rs[k].Axis(i)
    ensures JumpAt(c, rs, i, t) <==> Shook(c, s, t)
  {
    hide MeanAt, Average;
    MeanIsAverage(c, rs, i, t - 1, s);
    MeanIsAverage(c, rs, i, t, s);
  }

  /** A shake is a jump of the average along x, y or z, up or down. */
  lemma ShakeOnSomeAxis(c: Config, rs: seq<Reading>, xs: seq<real>, ys: seq<real>, zs: seq<real>, t: nat)
    requires c.Sound() && t <= |rs| == |xs| == |ys| == |zs|
    requires forall k | 0 <= k < |rs| :: rs[k].x == xs[k] && rs[k].y == ys[k] && rs[k].z == zs[k]
    ensures ShakeAt(c, rs, t) <==> Shook(c, xs, t) || Shook(c, ys, t) || Shook(c, zs, t)
  {
    hide JumpAt, Average;
    if c.num < t {
      hide Shook;
      AxisShakes(c, rs, 0, t, xs);
      AxisShakes(c, rs, 1, t, ys);
      AxisShakes(c, rs, 2, t, zs);
    }
  }

  /** Between positive means the test has no direction. */
  lemma JumpIsSymmetric(c: Config, a: real, b: real)
    requires a > 0.0 && b > 0.0
    ensures Jump(c, a, b) <==> Jump(c, b, a)
  {
  }

  /** One tick moves num times the mean by the new sample less the one that leaves the window. */
  lemma WindowMoves(c: Config, rs: seq<Reading>, i: nat, t: nat)
    requires c.Sound() && c.num < t <= |rs|
    ensures (MeanAt(c, rs, i, t) - MeanAt(c, rs, i, t - 1)) * c.num as real == rs[t - 1].Axis(i) - rs[t - 1 - c.num].Axis(i)
  {
    hide Sum, Total;
    var was, now := Samples(rs, i, t - 1)[t - 1 - c.num..], Samples(rs, i, t)[t - c.num..];
    var common := now[..c.num - 1];
    assert was == [rs[t - 1 - c.num].Axis(i)] + common;
    assert now == common + [rs[t - 1].Axis(i)];
    SumIsTotal(was);
    SumIsTotal(now);
    TotalAppend(common, rs[t - 1].Axis(i));
    TotalFirst(was);
    Quotients(Total(now), Total(was), c.num as real);
  }

  lemma TotalFirst(s: seq<real>)
    requires s != []
    ensures Total(s) == s[0] + Total(s[1..])
  {
  }

  lemma Quotients(a: real, b: real, n: real)
    requires n > 0.0
    ensures (a / n - b / n) * n == a - b
  {
  }

  /** The mean of equal samples is that sample. */
  lemma {:induction false} TotalOfEqual(s: seq<real>, x: real)
    requires forall k | 0 <= k < |s| :: s[k] == x
    ensures Total(s) == x * |s| as real
    ensures s != [] ==> Average(s) == x
  {
    if s != [] {
      TotalOfEqual(s[1..], x);
    }
  }

  /** The last shake of the first n ticks; 0 if there is none. */
  function LastShake(c: Config, rs: seq<Reading>, n: nat): (t: nat)
    requires c.Sound() && n <= |rs|
    ensures t <= n
    ensures t > 0 ==> ShakeAt(c, rs, t)
    ensures forall k | t < k <= n :: !ShakeAt(c, rs, k)
  {
    if n == 0 || ShakeAt(c, rs, n) then n else LastShake(c, rs, n - 1)
  }

  /** The first shake of the cluster that a shake belongs to: shakes less than noop ticks apart are one cluster. */
  function Onset(c: Config, rs: seq<Reading>, t: nat): (f: nat)
    requires c.Sound() && 1 <= t <= |rs|
    ensures 1 <= f <= t
    decreases t
  {
    var p := LastShake(c, rs, t - 1);
    if p > 0 && t - p < c.noop then Onset(c, rs, p) else t
  }

  /** A report is due at tick t: there was a shake noop - 1 ticks before, and none since. */
  predicate Due(c: Config, rs: seq<Reading>, t: nat)
    requires c.Sound() && 1 <= t <= |rs|
  {
    c.noop <= t && ShakeAt(c, rs, t - c.noop + 1) && forall k | t - c.noop + 2 <= k <= t :: !ShakeAt(c, rs, k)
  }

  lemma DueIsLastShake(c: Config, rs: seq<Reading>, t: nat)
    requires c.Sound() && 1 <= t <= |rs|
    ensures Due(c, rs, t) <==> LastShake(c, rs, t) > 0 && LastShake(c, rs, t) + c.noop == t + 1
  {
    hide ShakeAt;
    var s := LastShake(c, rs, t);
    if Due(c, rs, t) {
      ShakeIsPositive(c, rs, t - c.noop + 1);
      assert s >= t - c.noop + 1;
    }
  }

  lemma ShakeIsPositive(c: Config, rs: seq<Reading>, t: nat)
    requires c.Sound() && t <= |rs| && ShakeAt(c, rs, t)
    ensures t > c.num
  {
  }

  // ---------- What the state of the loop is ----------

  function LastMean(c: Config, rs: seq<Reading>, i: nat, n: nat): real
    requires c.Sound() && n <= |rs|
  {
    if n < c.num then -1.0 else MeanAt(c, rs, i, n)
  }

  /** The countdown after n ticks: noop - 1 right after a shake, and one less every tick. */
  function Countdown(c: Config, rs: seq<Reading>, n: nat): int
    requires c.Sound() && n <= |rs|
  {
    var last := LastShake(c, rs, n);
    if last == 0 then -1 - n else c.noop - 1 - (n - last)
  }

  /** The clock at the first shake of the cluster going on after n ticks. */
  function Since(c: Config, rs: seq<Reading>, n: nat): Option<real>
    requires c.Sound() && n <= |rs|
  {
    if Countdown(c, rs, n) < 1 then None else Some(Found(c, rs, LastShake(c, rs, n)))
  }

  /** The clock when the cluster of the shake at tick t was detected. */
  function Found(c: Config, rs: seq<Reading>, t: nat): real
    requires c.Sound() && 1 <= t <= |rs|
  {
    rs[Onset(c, rs, t) - 1].found
  }

  /** The time between the first shake of a cluster and its report at tick t. */
  function ElapsedAt(c: Config, rs: seq<Reading>, t: nat): real
    requires c.Sound() && c.noop <= t <= |rs|
  {
    rs[t - 1].told - Found(c, rs, t - c.noop + 1)
  }

  /** What the buffers hold after n ticks. */
  function Buffers(c: Config, rs: seq<Reading>, n: nat): (data: seq<seq<real>>)
    requires n <= |rs|
    ensures |data| == 3
  {
    seq(3, i requires 0 <= i < 3 => Last(Samples(rs, i, n), c.dataMax))
  }

  /** What tick t must do. */
  function Expected(c: Config, rs: seq<Reading>, t: nat): Outcome
    requires c.Sound() && 1 <= t <= |rs|
  {
    if !Due(c, rs, t) then Quiet
    else if -Trunc(ElapsedAt(c, rs, t) / c.interval) >= Min(t, c.dataMax) then Stopped
    else Report(ElapsedAt(c, rs, t), Window(c, Buffers(c, rs, t), ElapsedAt(c, rs, t)))
  }

  function Min(a: nat, b: nat): nat {
    if a < b then a else b
  }

  predicate Tracks(c: Config, rs: seq<Reading>, n: nat, s: State)
    requires c.Sound() && n <= |rs|
  {
    && s.Valid()
    && s.data == Buffers(c, rs, n)
    && (forall i | 0 <= i < 3 :: s.lastD[i] == LastMean(c, rs, i, n))
    && s.started == Countdown(c, rs, n)
    && s.startedAt == Since(c, rs, n)
  }

  lemma LastPush(s: seq<real>, v: real, k: nat)
    requires k > 0
    ensures Last(Last(s, k) + [v], k) == Last(s + [v], k)
  {
  }

  lemma LastLast(s: seq<real>, j: nat, k: nat)
    requires j <= k
    ensures Last(Last(s, k), j) == Last(s, j)
    ensures |Last(s, k)| == Min(|s|, k)
  {
  }

  lemma PushedBuffers(c: Config, rs: seq<Reading>, n: nat, s: State)
    requires c.Sound() && 1 <= n <= |rs| && s.Valid() && s.data == Buffers(c, rs, n - 1)
    ensures Pushed(c, s, rs[n - 1]) == Buffers(c, rs, n)
  {
    hide Last;
    forall i | 0 <= i < 3 ensures Pushed(c, s, rs[n - 1])[i] == Buffers(c, rs, n)[i] {
      var before, v := Samples(rs, i, n - 1), rs[n - 1].Axis(i);
      assert Samples(rs, i, n) == before + [v];
      LastPush(before, v, c.dataMax);
    }
  }

  lemma BufferMean(c: Config, rs: seq<Reading>, i: nat, n: nat)
    requires c.Sound() && n <= |rs| && i < 3
    ensures |Buffers(c, rs, n)[i]| >= c.num <==> n >= c.num
    ensures n >= c.num ==> Mean(c, Buffers(c, rs, n)[i]) == MeanAt(c, rs, i, n)
  {
    hide Sum;
    LastLast(Samples(rs, i, n), c.num, c.dataMax);
    if n >= c.num {
      assert Last(Samples(rs, i, n), c.num) == Samples(rs, i, n)[n - c.num..];
    }
  }

  /** The shake test on the buffers is the declarative one. */
  lemma ShakenIsShakeAt(c: Config, rs: seq<Reading>, n: nat, s: State)
    requires c.Sound() && 1 <= n <= |rs| && Tracks(c, rs, n - 1, s)
    ensures Shaken(c, s, Buffers(c, rs, n)) <==> ShakeAt(c, rs, n)
    ensures forall i | 0 <= i < 3 :: Means(c, s, Buffers(c, rs, n))[i] == LastMean(c, rs, i, n)
  {
    hide Buffers, MeanAt, Mean, Countdown, Since;
    forall i | 0 <= i < 3
      ensures |Buffers(c, rs, n)[i]| >= c.num && Jump(c, s.lastD[i], Mean(c, Buffers(c, rs, n)[i])) <==>
              n > c.num && JumpAt(c, rs, i, n)
      ensures Means(c, s, Buffers(c, rs, n))[i] == LastMean(c, rs, i, n)
    {
      BufferMean(c, rs, i, n);
    }
  }

  lemma WindowEmpty(c: Config, rs: seq<Reading>, n: nat, elapsed: real)
    requires c.Sound() && 1 <= n <= |rs|
    ensures [] in Window(c, Buffers(c, rs, n), elapsed) <==> -Trunc(elapsed / c.interval) >= Min(n, c.dataMax)
  {
    hide Trunc;
    var w := Window(c, Buffers(c, rs, n), elapsed);
    forall i | 0 <= i < 3 ensures w[i] == [] <==> -Trunc(elapsed / c.interval) >= Min(n, c.dataMax) {
      LastLast(Samples(rs, i, n), 0, c.dataMax);
    }
    if -Trunc(elapsed / c.interval) >= Min(n, c.dataMax) {
      assert w[0] == [];
    }
  }

  /** One tick keeps the state in step with the readings and does what it must. */
  lemma StepTracks(c: Config, rs: seq<Reading>, n: nat, s: State)
    requires c.Sound() && 1 <= n <= |rs| && Tracks(c, rs, n - 1, s)
    ensures Step(c, s, rs[n - 1]).1 == Expected(c, rs, n)
    ensures Expected(c, rs, n) != Stopped ==> Tracks(c, rs, n, Step(c, s, rs[n - 1]).0)
  {
    hide Buffers, LastMean, Shaken, Means, Pushed, Window, ShakeAt, Due, Trunc;
    PushedBuffers(c, rs, n, s);
    ShakenIsShakeAt(c, rs, n, s);
    DueIsLastShake(c, rs, n);
    if Due(c, rs, n) {
      WindowEmpty(c, rs, n, ElapsedAt(c, rs, n));
    }
  }

  /** The whole run: as long as the loop lives, its state is told by the readings. */
  lemma {:induction false} RunTracks(c: Config, rs: seq<Reading>, n: nat)
    requires c.Sound() && n <= |rs| && Run(c, rs, n).Some?
    ensures Tracks(c, rs, n, Run(c, rs, n).value)
  {
    hide Step;
    if n > 0 {
      RunTracks(c, rs, n - 1);
      StepTracks(c, rs, n, Run(c, rs, n - 1).value);
    }
  }

  // ---------- What the loop does ----------

  /** The loop of main over the readings it gets; it ends early only with an exception. */
  method Watch(c: Config, rs: seq<Reading>) returns (outcomes: seq<Outcome>)
    requires c.Sound()
    ensures |outcomes| <= |rs|
    ensures forall k | 0 <= k < |outcomes| :: outcomes[k] == Expected(c, rs, k + 1)
    ensures forall k | 0 <= k < |outcomes| :: outcomes[k] == Stopped <==> k == |outcomes| - 1 < |rs| && Run(c, rs, k + 1) == None
    ensures |outcomes| < |rs| ==> outcomes != [] && outcomes[|outcomes| - 1] == Stopped
  {
    hide Step, Expected, Tracks;
    var detector := new Detector(c);
    outcomes := [];
    for i := 0 to |rs|
      invariant detector.c == c && detector.Value().Valid() && fresh(detector)
      invariant Run(c, rs, i) == Some(detector.Value())
      invariant |outcomes| == i
      invariant forall k | 0 <= k < i :: outcomes[k] == Expected(c, rs, k + 1) && outcomes[k] != Stopped
    {
      RunTracks(c, rs, i);
      StepTracks(c, rs, i + 1, detector.Value());
      var outcome := detector.Tick(rs[i]);
      outcomes := outcomes + [outcome];
      if outcome == Stopped {
        return;
      }
    }
  }

  /**
    A report is made, or fails, at tick t exactly when there was a shake noop - 1 ticks before and none
    since. It tells the time from the first shake of the cluster, and is about the last samples of
    every axis: those of that time, or all the buffered ones if that is less than one interval.
   */
  lemma ReportsExactly(c: Config, rs: seq<Reading>, t: nat)
    requires c.Sound() && 1 <= t <= |rs| && Run(c, rs, t - 1).Some?
    ensures OutcomeAt(c, rs, t) == Quiet <==> !Due(c, rs, t)
    ensures OutcomeAt(c, rs, t).Report? ==>
              && OutcomeAt(c, rs, t).elapsed == ElapsedAt(c, rs, t)
              && |OutcomeAt(c, rs, t).window| == 3
    ensures OutcomeAt(c, rs, t).Report? && Trunc(ElapsedAt(c, rs, t) / c.interval) >= 0 ==>
              var k := Trunc(ElapsedAt(c, rs, t) / c.interval);
              forall i | 0 <= i < 3 ::
                OutcomeAt(c, rs, t).window[i] == Last(Samples(rs, i, t), if k == 0 then c.dataMax else Min(k, c.dataMax))
  {
    hide Step, Trunc, Due, Last;
    RunTracks(c, rs, t - 1);
    StepTracks(c, rs, t, Run(c, rs, t - 1).value);
    if Due(c, rs, t) {
      var k := Trunc(ElapsedAt(c, rs, t) / c.interval);
      forall i | 0 <= i < 3 && k >= 0
        ensures Tail(Buffers(c, rs, t)[i], k) == Last(Samples(rs, i, t), if k == 0 then c.dataMax else Min(k, c.dataMax))
      {
        TailOfLast(Samples(rs, i, t), k, c.dataMax);
      }
    }
  }

  lemma TailOfLast(s: seq<real>, k: nat, m: nat)
    ensures Tail(Last(s, m), k) == Last(s, if k == 0 then m else Min(k, m))
  {
  }

  /** The clock is kept exactly while the countdown is positive: from a shake to noop - 2 ticks after the last. */
  lemma ArmedExactly(c: Config, rs: seq<Reading>, n: nat)
    requires c.Sound() && n <= |rs| && Run(c, rs, n).Some?
    ensures var s := Run(c, rs, n).value;
            && s.data == Buffers(c, rs, n)
            && (s.startedAt.Some? <==> 1 <= s.started < c.noop)
            && (s.startedAt.Some? <==> exists k | 1 <= k <= n && n - k < c.noop - 1 :: ShakeAt(c, rs, k))
  {
    hide ShakeAt;
    RunTracks(c, rs, n);
    var last := LastShake(c, rs, n);
    if last > 0 && n - last < c.noop - 1 {
      assert ShakeAt(c, rs, last);
    }
  }

  /** A cluster starts after a pause of noop - 1 ticks, and has no such pause inside. */
  lemma {:induction false} OnsetStartsCluster(c: Config, rs: seq<Reading>, t: nat)
    requires c.Sound() && 1 <= t <= |rs| && ShakeAt(c, rs, t)
    ensures var f := Onset(c, rs, t);
            && ShakeAt(c, rs, f)
            && (forall k | 1 <= k < f && f - k < c.noop :: !ShakeAt(c, rs, k))
            && (forall k | f <= k <= t :: f <= LastShake(c, rs, k) && k - LastShake(c, rs, k) < c.noop)
    decreases t
  {
    hide ShakeAt;
    var p := LastShake(c, rs, t - 1);
    if p > 0 && t - p < c.noop {
      OnsetStartsCluster(c, rs, p);
      forall k | p < k < t ensures LastShake(c, rs, k) == p {
      }
    }
  }

  /** The reports of the first n ticks. */
  function Reports(c: Config, rs: seq<Reading>, n: nat): nat
    requires c.Sound() && n <= |rs|
  {
    if n == 0 then 0 else Reports(c, rs, n - 1) + if Expected(c, rs, n).Report? then 1 else 0
  }

  /** The clusters of shakes that start in the first n ticks. */
  function Clusters(c: Config, rs: seq<Reading>, n: nat): nat
    requires c.Sound() && n <= |rs|
  {
    if n == 0 then 0
    else Clusters(c, rs, n - 1) + if ShakeAt(c, rs, n) && Onset(c, rs, n) == n then 1 else 0
  }

  /** Every cluster is reported once: there are as many reports as clusters, but for one still going on. */
  lemma {:induction false} OneReportPerCluster(c: Config, rs: seq<Reading>, n: nat)
    requires c.Sound() && n <= |rs| && Run(c, rs, n).Some?
    ensures Clusters(c, rs, n) == Reports(c, rs, n) + if Run(c, rs, n).value.startedAt.Some? then 1 else 0
  {
    hide ShakeAt, Due, Buffers, Window, Step, Onset, Since;
    RunTracks(c, rs, n);
    if n > 0 {
      OneReportPerCluster(c, rs, n - 1);
      RunTracks(c, rs, n - 1);
      StepTracks(c, rs, n, Run(c, rs, n - 1).value);
      ClusterStep(c, rs, n);
    } else {
      NothingYet(c, rs);
    }
  }

  lemma NothingYet(c: Config, rs: seq<Reading>)
    requires c.Sound()
    ensures Since(c, rs, 0) == None
  {
  }

  /** A tick that starts a cluster opens it, and one at which a report is due closes it. */
  lemma ClusterStep(c: Config, rs: seq<Reading>, n: nat)
    requires c.Sound() && 1 <= n <= |rs|
    ensures (if ShakeAt(c, rs, n) && Onset(c, rs, n) == n then 1 else 0) + (if Since(c, rs, n - 1).Some? then 1 else 0) ==
            (if Due(c, rs, n) then 1 else 0) + (if Since(c, rs, n).Some? then 1 else 0)
  {
    hide ShakeAt, Due, Found;
    DueIsLastShake(c, rs, n);
  }

  /** The readings of a clock that is never set back. */
  predicate Forwards(rs: seq<Reading>) {
    forall j, k | 0 <= j <= k < |rs| :: rs[j].found <= rs[k].told
  }

  /** With such a clock the statistics always have samples, so the loop never stops. */
  lemma {:induction false} NeverStops(c: Config, rs: seq<Reading>, n: nat)
    requires c.Sound() && n <= |rs| && Forwards(rs)
    ensures Run(c, rs, n).Some?
  {
    hide Step, Expected, Due;
    if n > 0 {
      NeverStops(c, rs, n - 1);
      RunTracks(c, rs, n - 1);
      StepTracks(c, rs, n, Run(c, rs, n - 1).value);
      ForwardsElapsed(c, rs, n);
    }
  }

  lemma ForwardsElapsed(c: Config, rs: seq<Reading>, t: nat)
    requires c.Sound() && 1 <= t <= |rs| && Forwards(rs)
    ensures Expected(c, rs, t) != Stopped
  {
    if Due(c, rs, t) {
      var f := Onset(c, rs, t - c.noop + 1);
      assert rs[f - 1].found <= rs[t - 1].told;
      assert ElapsedAt(c, rs, t) / c.interval >= 0.0;
    }
  }
}
