/** The IR transmitter: a PWM output at a fixed carrier frequency whose duty cycle is
    switched between "active" (512 of 1023) and "idle" (0) to replay a captured trace of
    `(timestamp, state)` records.

    The hardware is abstracted away: replay is a pure function from a trace to the list of
    requests it makes of the PWM and of the microsecond sleep, in the order it makes them.
    What those requests do to the output is given separately by `Waveform` and `FinalDuty`,
    and the properties of replay are stated against reference definitions on the trace. */
module IrRemote {

  /** One captured record: the level `state` begins at `time` microseconds. Both are plain
      integers; only a state equal to 1 drives the carrier. */
  datatype Edge = Edge(time: int, state: int)

  type Trace = seq<Edge>

  /** A request made of the hardware. */
  datatype Action =
    | SetFrequency(hz: int)  // carrier frequency of the PWM
    | SetDuty(duty: int)     // duty cycle of the PWM, out of 1023
    | Sleep(us: int)         // block for `us` microseconds

  /** A stretch of output: the PWM held at `duty` for `us` microseconds. */
  datatype Interval = Interval(duty: int, us: int)

  /** The carrier frequency, in hertz, when construction is not given one. */
  const DefaultFrequency: int := 38000
  const DutyActive: int := 512
  const DutyIdle: int := 0

  /** The duty cycle that represents a captured state. */
  function DutyFor(state: int): (r: int)
    ensures r == DutyActive <==> state == 1
    ensures r == DutyActive || r == DutyIdle
  {
    if state == 1 then DutyActive else DutyIdle
  }

  /** Microseconds from record `i` to record `i + 1`; negative for a malformed trace. */
  function Gap(t: Trace, i: nat): int
    requires i + 1 < |t|
  {
    t[i + 1].time - t[i].time
  }

  // ---------------------------------------------------------------------------------------
  // What the hardware requests do

  /** The intervals of output produced by running `acts` on a PWM whose duty is `duty`:
      each sleep holds the duty set most recently. */
  function Waveform(acts: seq<Action>, duty: int): seq<Interval>
    decreases |acts|
  {
    if acts == [] then []
    else match acts[0]
      case SetFrequency(_) => Waveform(acts[1..], duty)
      case SetDuty(d) => Waveform(acts[1..], d)
      case Sleep(us) => [Interval(duty, us)] + Waveform(acts[1..], duty)
  }

  /** The duty of the PWM after running `acts` from duty `duty`. */
  function FinalDuty(acts: seq<Action>, duty: int): int
    decreases |acts|
  {
    if acts == [] then duty
    else match acts[0]
      case SetDuty(d) => FinalDuty(acts[1..], d)
      case _ => FinalDuty(acts[1..], duty)
  }

  /** The duty values written, in order. */
  function DutyWrites(acts: seq<Action>): seq<int>
    decreases |acts|
  {
    if acts == [] then []
    else match acts[0]
      case SetDuty(d) => [d] + DutyWrites(acts[1..])
      case _ => DutyWrites(acts[1..])
  }

  /** Total microseconds spent sleeping. */
  function TotalSleep(acts: seq<Action>): int
    decreases |acts|
  {
    if acts == [] then 0
    else match acts[0]
      case Sleep(us) => us + TotalSleep(acts[1..])
      case _ => TotalSleep(acts[1..])
  }

  /** The carrier frequency after running `acts` from frequency `hz`. */
  function Carrier(acts: seq<Action>, hz: int): int
    decreases |acts|
  {
    if acts == [] then hz
    else match acts[0]
      case SetFrequency(f) => Carrier(acts[1..], f)
      case _ => Carrier(acts[1..], hz)
  }

  /** Total length of a list of intervals. */
  function Duration(w: seq<Interval>): int
    decreases |w|
  {
    if w == [] then 0 else w[0].us + Duration(w[1..])
  }

  // ---------------------------------------------------------------------------------------
  // Reference definitions on the trace

  /** The output a trace describes: record `i` holds its state's duty until record `i + 1`
      begins, and stretches of no positive length are absent. */
  function Marks(t: Trace): seq<Interval>
    decreases |t|
  {
    if |t| < 2 then []
    else
      (if Gap(t, 0) > 0 then [Interval(DutyFor(t[0].state), Gap(t, 0))] else [])
      + Marks(t[1..])
  }

  /** The sum of the positive gaps between consecutive records. */
  function PositiveTime(t: Trace): int
    decreases |t|
  {
    if |t| < 2 then 0
    else (if Gap(t, 0) > 0 then Gap(t, 0) else 0) + PositiveTime(t[1..])
  }

  /** How many of the first `i` gaps are positive. */
  function PositiveGapsBefore(t: Trace, i: nat): nat
    requires i < |t|
  {
    if i == 0 then 0
    else PositiveGapsBefore(t, i - 1) + (if Gap(t, i - 1) > 0 then 1 else 0)
  }

  ghost predicate NonDecreasing(t: Trace)
  {
    forall i, j :: 0 <= i <= j < |t| ==> t[i].time <= t[j].time
  }

  // ---------------------------------------------------------------------------------------
  // The replay schedule

  /** Construction: set the carrier frequency, 38 kHz unless another is given, then switch
      the output off. */
  function Construct(frequency: int := DefaultFrequency): (r: seq<Action>)
    ensures forall f :: Carrier(r, f) == frequency
    ensures forall d :: FinalDuty(r, d) == DutyIdle
    ensures forall d :: Waveform(r, d) == []
    ensures TotalSleep(r) == 0
  {
    var r := [SetFrequency(frequency), SetDuty(DutyIdle)];
    ConstructEffect(r);
    r
  }

  lemma ConstructEffect(r: seq<Action>)
    requires |r| == 2 && r[0].SetFrequency? && r[1] == SetDuty(DutyIdle)
    ensures forall f :: Carrier(r, f) == r[0].hz
    ensures forall d :: FinalDuty(r, d) == DutyIdle
    ensures forall d :: Waveform(r, d) == []
    ensures TotalSleep(r) == 0
  {
    var tail := r[1..];
    assert tail == [SetDuty(DutyIdle)] && tail[1..] == [];
    forall f
      ensures Carrier(r, f) == r[0].hz
    {
      assert Carrier(r, f) == Carrier(tail, r[0].hz) == Carrier(tail[1..], r[0].hz);
    }
    forall d
      ensures FinalDuty(r, d) == DutyIdle && Waveform(r, d) == []
    {
      assert FinalDuty(r, d) == FinalDuty(tail, d) == FinalDuty(tail[1..], DutyIdle);
      assert Waveform(r, d) == Waveform(tail, d) == Waveform(tail[1..], DutyIdle);
    }
    assert TotalSleep(r) == TotalSleep(tail) == TotalSleep(tail[1..]);
  }

  /** One iteration of the replay loop, for record `cur` followed by record `next`. */
  function Step(cur: Edge, next: Edge): (r: seq<Action>)
    ensures 1 <= |r| <= 2 && r[0] == SetDuty(DutyFor(cur.state))
    ensures |r| == 2 <==> next.time > cur.time
    ensures |r| == 2 ==> r[1] == Sleep(next.time - cur.time)
  {
    var duration := next.time - cur.time;
    [SetDuty(DutyFor(cur.state))] + (if duration > 0 then [Sleep(duration)] else [])
  }

  /** Requests made by the first `k` iterations of the replay loop. */
  function Pairs(t: Trace, k: nat): (r: seq<Action>)
    requires k < |t|
    ensures k <= |r| <= 2 * k
    decreases k
  {
    if k == 0 then [] else Pairs(t, k - 1) + Step(t[k - 1], t[k])
  }

  /** The loop never sets the frequency, and sleeps only for positive times. */
  lemma {:induction false} PairsRequests(t: Trace, k: nat)
    requires k < |t|
    ensures forall a :: a in Pairs(t, k) ==> !a.SetFrequency? && (a.Sleep? ==> a.us > 0)
    decreases k
  {
    if k > 0 {
      PairsRequests(t, k - 1);
      assert Pairs(t, k) == Pairs(t, k - 1) + Step(t[k - 1], t[k]);
    }
  }

  /** The requests `send_ir_signal` makes: nothing for an empty trace; otherwise one
      iteration per consecutive pair of records, then the output switched off. */
  function Replay(t: Trace): (r: seq<Action>)
    ensures |t| == 0 <==> r == []
    ensures |t| > 0 ==> |t| <= |r| <= 2 * |t| - 1
    ensures |t| > 0 ==> r[|r| - 1] == SetDuty(DutyIdle)
    ensures forall a :: a in r ==> !a.SetFrequency? && (a.Sleep? ==> a.us > 0)
  {
    if |t| == 0 then []
    else
      PairsRequests(t, |t| - 1);
      Pairs(t, |t| - 1) + [SetDuty(DutyIdle)]
  }

  /** The replay loop itself. */
  method SendIrSignal(t: Trace) returns (actions: seq<Action>)
    ensures actions == Replay(t)
  {
    actions := [];
    if |t| == 0 {
      return;
    }
    var i := 0;
    while i < |t| - 1
      invariant 0 <= i <= |t| - 1
      invariant actions == Pairs(t, i)
    {
      var duration := t[i + 1].time - t[i].time;
      if t[i].state == 1 {
        actions := actions + [SetDuty(DutyActive)];
      } else {
        actions := actions + [SetDuty(DutyIdle)];
      }
      if duration > 0 {
        actions := actions + [Sleep(duration)];
      }
      i := i + 1;
    }
    actions := actions + [SetDuty(DutyIdle)];
  }

  /** Every trace of a session, replayed one after the other. */
  function ReplayAll(ts: seq<Trace>): seq<Action>
    decreases |ts|
  {
    if ts == [] then [] else ReplayAll(ts[..|ts| - 1]) + Replay(ts[|ts| - 1])
  }

  // ---------------------------------------------------------------------------------------
  // Interpreting concatenated request lists

  lemma {:induction false} WaveformAppend(a: seq<Action>, b: seq<Action>, d: int)
    ensures Waveform(a + b, d) == Waveform(a, d) + Waveform(b, FinalDuty(a, d))
    decreases |a|
  {
    if a == [] {
      assert a + b == b;
    } else {
      assert (a + b)[1..] == a[1..] + b;
      match a[0]
      case SetFrequency(_) => WaveformAppend(a[1..], b, d);
      case SetDuty(x) => WaveformAppend(a[1..], b, x);
      case Sleep(_) => WaveformAppend(a[1..], b, d);
    }
  }

  lemma {:induction false} FinalDutyAppend(a: seq<Action>, b: seq<Action>, d: int)
    ensures FinalDuty(a + b, d) == FinalDuty(b, FinalDuty(a, d))
    decreases |a|
  {
    if a == [] {
      assert a + b == b;
    } else {
      assert (a + b)[1..] == a[1..] + b;
      match a[0]
      case SetDuty(x) => FinalDutyAppend(a[1..], b, x);
      case _ => FinalDutyAppend(a[1..], b, d);
    }
  }

  lemma {:induction false} CarrierAppend(a: seq<Action>, b: seq<Action>, hz: int)
    ensures Carrier(a + b, hz) == Carrier(b, Carrier(a, hz))
    decreases |a|
  {
    if a == [] {
      assert a + b == b;
    } else {
      assert (a + b)[1..] == a[1..] + b;
      match a[0]
      case SetFrequency(f) => CarrierAppend(a[1..], b, f);
      case _ => CarrierAppend(a[1..], b, hz);
    }
  }

  /** Requests that never set the frequency leave the carrier as it was. */
  lemma {:induction false} CarrierUntouched(acts: seq<Action>, hz: int)
    requires forall a :: a in acts ==> !a.SetFrequency?
    ensures Carrier(acts, hz) == hz
    decreases |acts|
  {
    if acts != [] {
      assert acts[0] in acts;
      assert forall a :: a in acts[1..] ==> a in acts;
      CarrierUntouched(acts[1..], hz);
    }
  }

  lemma {:induction false} DutyWritesAppend(a: seq<Action>, b: seq<Action>)
    ensures DutyWrites(a + b) == DutyWrites(a) + DutyWrites(b)
    decreases |a|
  {
    if a == [] {
      assert a + b == b;
    } else {
      assert (a + b)[1..] == a[1..] + b;
      DutyWritesAppend(a[1..], b);
    }
  }

  lemma {:induction false} DurationAppend(v: seq<Interval>, w: seq<Interval>)
    ensures Duration(v + w) == Duration(v) + Duration(w)
    decreases |v|
  {
    if v == [] {
      assert v + w == w;
    } else {
      assert (v + w)[1..] == v[1..] + w;
      DurationAppend(v[1..], w);
    }
  }

  /** Sleeping time is the length of the output the requests produce. */
  lemma {:induction false} TotalSleepIsDuration(acts: seq<Action>, d: int)
    ensures TotalSleep(acts) == Duration(Waveform(acts, d))
    decreases |acts|
  {
    if acts != [] {
      match acts[0]
      case SetFrequency(_) => TotalSleepIsDuration(acts[1..], d);
      case SetDuty(x) => TotalSleepIsDuration(acts[1..], x);
      case Sleep(us) =>
        TotalSleepIsDuration(acts[1..], d);
        assert Waveform(acts, d) == [Interval(d, us)] + Waveform(acts[1..], d);
    }
  }

  // ---------------------------------------------------------------------------------------
  // Facts about the loop's prefixes

  /** One iteration writes the state's duty, then holds it for the gap if that is positive. */
  lemma StepEffect(cur: Edge, next: Edge, d: int)
    ensures Waveform(Step(cur, next), d) == Marks([cur, next])
    ensures DutyWrites(Step(cur, next)) == [DutyFor(cur.state)]
  {
    var s := Step(cur, next);
    var gap := next.time - cur.time;
    assert Gap([cur, next], 0) == gap;
    assert [cur, next][1..] == [next];
    assert Marks([cur, next][1..]) == [];
    if gap > 0 {
      var tail := s[1..];
      assert tail == [Sleep(gap)] && tail[1..] == [];
      var d' := DutyFor(cur.state);
      assert Waveform(s, d) == Waveform(tail, d') == [Interval(d', gap)] + Waveform(tail[1..], d');
      assert DutyWrites(s) == [d'] + DutyWrites(tail) == [d'] + DutyWrites(tail[1..]);
    } else {
      assert s[1..] == [];
    }
  }

  /** `Marks` grows by one pair when a record is appended. */
  lemma {:induction false} MarksSnoc(t: Trace, e: Edge)
    requires |t| >= 1
    ensures Marks(t + [e]) == Marks(t) + Marks([t[|t| - 1], e])
    decreases |t|
  {
    var u := t + [e];
    if |t| >= 2 {
      assert u[1..] == t[1..] + [e];
      MarksSnoc(t[1..], e);
    }
  }

  /** The output described by the first `k + 1` records. */
  lemma MarksPrefix(t: Trace, k: nat)
    requires 0 < k < |t|
    ensures Marks(t[..k + 1]) == Marks(t[..k]) + Marks([t[k - 1], t[k]])
  {
    assert t[..k + 1] == t[..k] + [t[k]] && t[..k][k - 1] == t[k - 1];
    MarksSnoc(t[..k], t[k]);
  }

  lemma {:induction false} PairsWaveform(t: Trace, k: nat, d: int)
    requires k < |t|
    ensures Waveform(Pairs(t, k), d) == Marks(t[..k + 1])
    decreases k
  {
    if k > 0 {
      var p := Pairs(t, k - 1);
      var s := Step(t[k - 1], t[k]);
      PairsWaveform(t, k - 1, d);
      WaveformAppend(p, s, d);
      StepEffect(t[k - 1], t[k], FinalDuty(p, d));
      MarksPrefix(t, k);
      assert Pairs(t, k) == p + s;
    }
  }

  lemma {:induction false} PairsDutyWrites(t: Trace, k: nat)
    requires k < |t|
    ensures |DutyWrites(Pairs(t, k))| == k
    ensures forall j :: 0 <= j < k ==> DutyWrites(Pairs(t, k))[j] == DutyFor(t[j].state)
    decreases k
  {
    if k > 0 {
      PairsDutyWrites(t, k - 1);
      PairsDutyWritesStep(t, k);
    }
  }

  /** Iteration `k` writes the duty for state `k - 1`, and no other. */
  lemma PairsDutyWritesStep(t: Trace, k: nat)
    requires 0 < k < |t|
    ensures DutyWrites(Pairs(t, k)) == DutyWrites(Pairs(t, k - 1)) + [DutyFor(t[k - 1].state)]
  {
    var p := Pairs(t, k - 1);
    var s := Step(t[k - 1], t[k]);
    assert Pairs(t, k) == p + s;
    DutyWritesAppend(p, s);
    StepEffect(t[k - 1], t[k], DutyIdle);
  }

  lemma {:induction false} PairsLength(t: Trace, k: nat)
    requires k < |t|
    ensures |Pairs(t, k)| == k + PositiveGapsBefore(t, k)
    decreases k
  {
    if k > 0 {
      PairsLength(t, k - 1);
    }
  }

  lemma {:induction false} PairsPrefix(t: Trace, j: nat, k: nat)
    requires j <= k < |t|
    ensures Pairs(t, j) <= Pairs(t, k)
    decreases k - j
  {
    if j < k {
      PairsPrefix(t, j, k - 1);
    }
  }

  /** The first `k` iterations read the records before record `k` and only the timestamp
      of record `k`. */
  lemma {:induction false} PairsLocal(t: Trace, u: Trace, k: nat)
    requires k < |t| && k < |u|
    requires forall i :: 0 <= i < k ==> t[i] == u[i]
    requires t[k].time == u[k].time
    ensures Pairs(t, k) == Pairs(u, k)
    decreases k
  {
    if k > 0 {
      PairsLocal(t, u, k - 1);
      StepUsesNextTime(t[k - 1], t[k], u[k]);
    }
  }

  /** An iteration reads only the timestamp of the next record. */
  lemma StepUsesNextTime(cur: Edge, next: Edge, next': Edge)
    requires next.time == next'.time
    ensures Step(cur, next) == Step(cur, next')
  {
  }

  lemma {:induction false} MarksDuration(t: Trace)
    ensures Duration(Marks(t)) == PositiveTime(t)
    decreases |t|
  {
    if |t| >= 2 {
      MarksDuration(t[1..]);
      var head := if Gap(t, 0) > 0 then [Interval(DutyFor(t[0].state), Gap(t, 0))] else [];
      DurationAppend(head, Marks(t[1..]));
    }
  }

  // ---------------------------------------------------------------------------------------
  // Properties of replay

  /** Timing fidelity: whatever the PWM was doing before, replay holds each record's duty
      for exactly the gap to the next record, in trace order, skipping gaps that are not
      positive, and produces no other output. */
  lemma ReplayWaveform(t: Trace, d: int)
    ensures Waveform(Replay(t), d) == Marks(t)
  {
    if |t| > 0 {
      var p := Pairs(t, |t| - 1);
      PairsWaveform(t, |t| - 1, d);
      WaveformAppend(p, [SetDuty(DutyIdle)], d);
      assert t[..|t|] == t;
    }
  }

  /** Replay sleeps for the sum of the positive gaps. */
  lemma ReplayDuration(t: Trace)
    ensures TotalSleep(Replay(t)) == PositiveTime(t)
  {
    TotalSleepIsDuration(Replay(t), DutyIdle);
    ReplayWaveform(t, DutyIdle);
    MarksDuration(t);
  }

  /** For timestamps that never go backwards the sleeps telescope: replay lasts from the
      first record's timestamp to the last one's. */
  lemma {:induction false} PositiveTimeTelescopes(t: Trace)
    requires |t| >= 1 && NonDecreasing(t)
    ensures PositiveTime(t) == t[|t| - 1].time - t[0].time
    decreases |t|
  {
    if |t| >= 2 {
      PositiveTimeTelescopes(t[1..]);
    }
  }

  lemma ReplayTelescopes(t: Trace)
    requires |t| >= 1 && NonDecreasing(t)
    ensures TotalSleep(Replay(t)) == t[|t| - 1].time - t[0].time
  {
    ReplayDuration(t);
    PositiveTimeTelescopes(t);
  }

  /** A non-empty trace of `n` records makes exactly `n` duty writes: the duty for each of
      the first `n - 1` states, then idle. An empty one makes none. */
  lemma ReplayDutyWrites(t: Trace)
    ensures |DutyWrites(Replay(t))| == |t|
    ensures forall j :: 0 <= j < |t| - 1 ==> DutyWrites(Replay(t))[j] == DutyFor(t[j].state)
    ensures |t| > 0 ==> DutyWrites(Replay(t))[|t| - 1] == DutyIdle
  {
    if |t| > 0 {
      PairsDutyWrites(t, |t| - 1);
      DutyWritesAppend(Pairs(t, |t| - 1), [SetDuty(DutyIdle)]);
    }
  }

  /** The layout of one pair in the request list: the iteration for records `i` and `i + 1`
      starts after `i` duty writes and one sleep per earlier positive gap; it writes the
      duty for state `i` and then, only when the gap is positive, sleeps for exactly the
      gap; otherwise the next request is already a duty write. */
  lemma ReplayPairLayout(t: Trace, i: nat)
    requires i + 1 < |t|
    ensures i + PositiveGapsBefore(t, i) + 1 < |Replay(t)|
    ensures Replay(t)[i + PositiveGapsBefore(t, i)] == SetDuty(DutyFor(t[i].state))
    ensures Gap(t, i) > 0 ==> Replay(t)[i + PositiveGapsBefore(t, i) + 1] == Sleep(Gap(t, i))
    ensures Gap(t, i) <= 0 ==> Replay(t)[i + PositiveGapsBefore(t, i) + 1].SetDuty?
  {
    var r := Replay(t);
    var p := Pairs(t, i);
    var q := Pairs(t, i + 1);
    var st := Step(t[i], t[i + 1]);
    PairsLength(t, i);
    ReplayHasPairs(t, i + 1);
    assert q == p + st;
    assert r[|p|] == q[|p|] == st[0];
    if Gap(t, i) > 0 {
      assert r[|p| + 1] == q[|p| + 1] == st[1];
    } else if i + 2 < |t| {
      ReplayAtPair(t, i + 1);
    } else {
      ReplayAtEnd(t);
    }
  }

  /** The loop's requests so far are a prefix of the whole schedule. */
  lemma ReplayHasPairs(t: Trace, k: nat)
    requires k < |t|
    ensures Pairs(t, k) <= Replay(t)
  {
    PairsPrefix(t, k, |t| - 1);
  }

  /** After `j` iterations, with a pair left, the next request writes the duty for
      state `j`. */
  lemma ReplayAtPair(t: Trace, j: nat)
    requires j + 1 < |t|
    ensures |Pairs(t, j)| < |Replay(t)|
    ensures Replay(t)[|Pairs(t, j)|] == SetDuty(DutyFor(t[j].state))
  {
    var p := Pairs(t, j);
    var q := Pairs(t, j + 1);
    var step := Step(t[j], t[j + 1]);
    ReplayHasPairs(t, j + 1);
    assert q == p + step;
    assert q[|p|] == step[0] == SetDuty(DutyFor(t[j].state));
  }

  /** After the last iteration the next request is the final idle write. */
  lemma ReplayAtEnd(t: Trace)
    requires |t| >= 1
    ensures |Pairs(t, |t| - 1)| < |Replay(t)|
    ensures Replay(t)[|Pairs(t, |t| - 1)|] == SetDuty(DutyIdle)
  {
  }

  /** The last record's state is never written: only its timestamp matters. */
  lemma ReplayIgnoresLastState(t: Trace, s: int)
    requires |t| >= 1
    ensures Replay(t[..|t| - 1] + [Edge(t[|t| - 1].time, s)]) == Replay(t)
  {
    var u := t[..|t| - 1] + [Edge(t[|t| - 1].time, s)];
    assert forall i :: 0 <= i < |t| - 1 ==> u[i] == t[i];
    PairsLocal(t, u, |t| - 1);
  }

  /** Replay leaves the output idle; an empty trace leaves it as it was. */
  lemma ReplayEndsIdle(t: Trace, d: int)
    ensures FinalDuty(Replay(t), d) == if |t| == 0 then d else DutyIdle
  {
    if |t| > 0 {
      FinalDutyAppend(Pairs(t, |t| - 1), [SetDuty(DutyIdle)], d);
    }
  }

  /** Replays one after the other, starting idle, end idle. */
  lemma {:induction false} ReplayAllEndsIdle(ts: seq<Trace>)
    ensures FinalDuty(ReplayAll(ts), DutyIdle) == DutyIdle
    decreases |ts|
  {
    if ts != [] {
      var init := ts[..|ts| - 1];
      var last := ts[|ts| - 1];
      ReplayAllEndsIdle(init);
      FinalDutyAppend(ReplayAll(init), Replay(last), DutyIdle);
      ReplayEndsIdle(last, DutyIdle);
    }
  }

  /** Idle at entry and exit: after construction and any number of replays, the output is
      off. */
  lemma SessionEndsIdle(frequency: int, ts: seq<Trace>, d: int)
    ensures FinalDuty(Construct(frequency) + ReplayAll(ts), d) == DutyIdle
  {
    FinalDutyAppend(Construct(frequency), ReplayAll(ts), d);
    ReplayAllEndsIdle(ts);
  }

  /** Replays never set the frequency. */
  lemma {:induction false} ReplayAllKeepsCarrier(ts: seq<Trace>, hz: int)
    ensures Carrier(ReplayAll(ts), hz) == hz
    decreases |ts|
  {
    if ts != [] {
      var init := ts[..|ts| - 1];
      var last := ts[|ts| - 1];
      ReplayAllKeepsCarrier(init, hz);
      CarrierAppend(ReplayAll(init), Replay(last), hz);
      CarrierUntouched(Replay(last), hz);
    }
  }

  /** The carrier chosen at construction stays in force through any number of replays. */
  lemma SessionKeepsCarrier(frequency: int, ts: seq<Trace>, hz: int)
    ensures Carrier(Construct(frequency) + ReplayAll(ts), hz) == frequency
  {
    CarrierAppend(Construct(frequency), ReplayAll(ts), hz);
    ReplayAllKeepsCarrier(ts, frequency);
  }

  /** Two records, idle for 10 us then active: the output is idle for 10 us and the
      final active state is never driven. */
  lemma ReplayTwoRecords()
    ensures Replay([Edge(0, 0), Edge(10, 1)]) == [SetDuty(DutyIdle), Sleep(10), SetDuty(DutyIdle)]
    ensures Waveform(Replay([Edge(0, 0), Edge(10, 1)]), DutyIdle) == [Interval(DutyIdle, 10)]
  {
  }
}
