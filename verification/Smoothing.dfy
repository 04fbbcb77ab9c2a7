// libsrc/hyperion/LinearColorSmoothing.cpp: interpolation towards a target colour and the
// output delay line. `SmoothingSpec` is the mathematics, `Smoothing` the updating class.

module SmoothingSpec {
  import opened Colors
  import opened Arithmetic
  import opened Sequences

  type Frame = seq<ColorRgb>

  // The settings a run keeps fixed.
  datatype Config = Config(settlingTime: int, outputDelay: nat, continuousOutput: bool, pause: bool)

  // `device` lists the frames handed to the LED device so far.
  datatype State = State(
    previous: Frame, target: Frame, previousTime: int, targetTime: int,
    queue: seq<Frame>, writeEnable: bool, device: seq<Frame>)

  // One colour channel moves by ceil(k * |difference|) with k = 1 - delta / span; the sum is
  // stored back into a uint8_t.
  function StepChannel(prev: Byte, target: Byte, delta: int, span: int): Byte
    requires span != 0
  {
    var dif := target - prev;
    var step := CeilDiv(Abs(dif) * (span - delta), span);
    (prev + (if dif < 0 then -step else step)) % 256
  }

  function StepColor(prev: ColorRgb, target: ColorRgb, delta: int, span: int): ColorRgb
    requires span != 0
  {
    ColorRgb(StepChannel(prev.red, target.red, delta, span),
             StepChannel(prev.green, target.green, delta, span),
             StepChannel(prev.blue, target.blue, delta, span))
  }

  function StepFrame(prev: Frame, target: Frame, delta: int, span: int): (r: Frame)
    requires span != 0 && |prev| == |target|
    ensures |r| == |prev|
    ensures forall i :: 0 <= i < |r| ==> r[i] == StepColor(prev[i], target[i], delta, span)
  {
    if prev == [] then []
    else [StepColor(prev[0], target[0], delta, span)] + StepFrame(prev[1..], target[1..], delta, span)
  }

  // The quotient delta / span exists and there is one previous colour for each target colour.
  predicate TickDefined(s: State, now: int) {
    && |s.previous| == |s.target|
    && (Wrap32(s.targetTime - now) >= 0 ==> s.targetTime != s.previousTime)
  }

  function Enqueue(c: Config, s: State, frame: Frame): State {
    if c.outputDelay == 0 then
      if s.writeEnable && !c.pause then s.(device := s.device + [frame]) else s
    else
      var q := if s.writeEnable then s.queue + [frame] else s.queue;
      if |q| > 0 && (|q| > c.outputDelay || !s.writeEnable)
      then s.(queue := q[1..], device := if c.pause then s.device else s.device + [q[0]])
      else s.(queue := q)
  }

  function Tick(c: Config, s: State, now: int): State
    requires TickDefined(s, now)
  {
    var delta := Wrap32(s.targetTime - now);
    if delta < 0 then
      Enqueue(c, s.(previous := s.target, previousTime := now), s.target).(writeEnable := c.continuousOutput)
    else
      var frame := StepFrame(s.previous, s.target, delta, s.targetTime - s.previousTime);
      Enqueue(c, s.(previous := frame, previousTime := now, writeEnable := true), frame)
  }

  // Copies no more values than the target vector holds.
  predicate WriteDefined(s: State, values: Frame) {
    s.previous != [] ==> |values| <= |s.target|
  }

  function Write(c: Config, s: State, values: Frame, now: int): State
    requires WriteDefined(s, values)
  {
    if s.previous == [] then
      s.(targetTime := now + c.settlingTime, target := values, previousTime := now, previous := values)
    else
      s.(targetTime := now + c.settlingTime, target := values + s.target[|values|..])
  }

  function Blacks(n: nat): (r: Frame)
    ensures |r| == n && forall i :: 0 <= i < n ==> r[i] == BLACK
  {
    seq(n, _ => BLACK)
  }

  function SwitchOff(s: State): State {
    var black := Blacks(|s.target|);
    s.(target := black, targetTime := 0, queue := seq(|s.queue|, _ => black))
  }

  // ---------------------------------------------------------------- the linear envelope

  function Ticks(c: Config, s: State, times: seq<int>): (r: State)
    requires |s.previous| == |s.target| && Before(s, times)
    ensures |r.previous| == |r.target| && r.target == s.target && r.targetTime == s.targetTime
    ensures r.previousTime == if times == [] then s.previousTime else times[|times| - 1]
  {
    if times == [] then s
    else
      var n := |times| - 1;
      Tick(c, Ticks(c, s, times[..n]), times[n])
  }

  // The ticks follow each other, none is at the time of the tick before it, and the distance of
  // each to the target time fits an `int`.
  predicate Before(s: State, times: seq<int>) {
    && (forall i :: 0 <= i < |times| ==> s.previousTime < times[i] && -TWO31 <= s.targetTime - times[i] < TWO31)
    && (forall i, j :: 0 <= i < j < |times| ==> times[i] < times[j])
  }

  function Gap(s: State, i: nat, ch: Channel): int
    requires i < |s.previous| == |s.target|
  {
    Get(s.target[i], ch) - Get(s.previous[i], ch)
  }

  // d' is floor(d * delta / span).
  ghost predicate Shrinks(d: nat, d': nat, span: int, delta: int) {
    d' * span <= d * delta < (d' + 1) * span
  }

  // One step keeps the side of the target and leaves floor(D * delta / span) of the distance D.
  lemma StepGap(prev: Byte, target: Byte, delta: int, span: int)
    requires 0 <= delta <= span && 0 < span
    ensures var d := Abs(target - prev); var g := target - StepChannel(prev, target, delta, span);
            && (target >= prev ==> g >= 0) && (target <= prev ==> g <= 0)
            && Shrinks(d, Abs(g), span, delta)
  {
    StepCount(Abs(target - prev), delta, span);
  }

  lemma StepCount(d: nat, delta: int, span: int)
    requires 0 <= delta <= span && 0 < span
    ensures var step := CeilDiv(d * (span - delta), span);
            && 0 <= step <= d
            && (d - step) * span <= d * delta < (d - step + 1) * span
  {
    var a := d * (span - delta);
    var step := CeilDiv(a, span);
    assert a == d * span - d * delta;
    MulLe(0, d, span - delta);
    MulLe(0, d, delta);
    CeilAtMost(a, span, d);
    CeilAbove(a, span, -1);
    assert (d - step) * span == d * span - step * span;
    assert (d - step + 1) * span == d * span - (step - 1) * span;
  }

  // The envelope of one more tick: d' is what the tick leaves of d, after n earlier ticks.
  lemma EnvelopeUpper(d0: nat, d: nat, d': nat, s0: int, a: int, b: int)
    requires 0 <= b && 0 < a && 0 < s0
    requires d' * a <= d * b
    requires d * s0 <= d0 * a
    ensures d' * s0 <= d0 * b
  {
    MulLe(d' * a, d * b, s0);
    MulLe(d * s0, d0 * a, b);
    MulSwap(d', s0, a);
    MulSwap(d, b, s0);
    MulSwap(d0, a, b);
    DivideLe(d' * s0, d0 * b, a);
  }

  lemma EnvelopeLower(d0: nat, d: nat, d': nat, n: nat, s0: int, a: int, b: int)
    requires 0 <= b <= a && 0 < a && 0 < s0
    requires d * b < (d' + 1) * a
    requires d0 * a <= (d + n) * s0
    ensures d0 * b < (d' + n + 1) * s0
  {
    var high := d' + n + 1;
    assert (d + n) * b < high * a by {
      MulLe(b, a, n);
      assert high * a == (d' + 1) * a + n * a;
      assert (d + n) * b == d * b + n * b;
    }
    MulLt((d + n) * b, high * a, s0);
    MulLe(d0 * a, (d + n) * s0, b);
    MulSwap(d + n, s0, b);
    MulSwap(d0, a, b);
    MulSwap(high, a, s0);
    DivideLt(d0 * b, high * s0, a);
  }

  // A distance d left after n ticks of an initial d0, with `rest` of the `whole` time to go.
  ghost predicate InEnvelope(d0: nat, d: nat, n: nat, whole: int, rest: int) {
    && d * whole <= d0 * rest <= (d + n) * whole
    && (n > 0 ==> d0 * rest < (d + n) * whole)
  }

  lemma EnvelopeStart(d0: nat, whole: int)
    ensures InEnvelope(d0, d0, 0, whole, whole)
  {
  }

  lemma EnvelopeTick(d0: nat, d: nat, d': nat, n: nat, whole: int, a: int, b: int)
    requires 0 <= b <= a && 0 < a && 0 < whole
    requires InEnvelope(d0, d, n, whole, a)
    requires Shrinks(d, d', a, b)
    ensures InEnvelope(d0, d', n + 1, whole, b)
  {
    EnvelopeUpper(d0, d, d', whole, a, b);
    EnvelopeLower(d0, d, d', n, whole, a, b);
  }

  // What one tick up to the target time does to one channel of one LED.
  lemma TickGap(c: Config, s: State, now: int, i: nat, ch: Channel)
    requires i < |s.previous| == |s.target|
    requires s.previousTime < s.targetTime && s.previousTime <= now <= s.targetTime
    requires s.targetTime - now < TWO31
    ensures var s' := Tick(c, s, now);
            var delta, span := s.targetTime - now, s.targetTime - s.previousTime;
            var g, g' := Gap(s, i, ch), Gap(s', i, ch);
            && |s'.previous| == |s'.target| == |s.target|
            && (g >= 0 ==> g' >= 0) && (g <= 0 ==> g' <= 0)
            && Shrinks(Abs(g), Abs(g'), span, delta)
  {
    hide StepChannel, Shrinks;
    var delta, span := s.targetTime - now, s.targetTime - s.previousTime;
    StepGap(Get(s.previous[i], ch), Get(s.target[i], ch), delta, span);
    assert Tick(c, s, now).previous[i] == StepColor(s.previous[i], s.target[i], delta, span);
  }

  // Main result: over any increasing ticks up to the target time, a channel stays on its side of
  // the target, and its distance lies under the straight line to the target time and within one
  // unit per tick of it.
  lemma {:induction false} Envelope(c: Config, s: State, times: seq<int>, i: nat, ch: Channel)
    requires i < |s.previous| == |s.target| && Before(s, times)
    requires s.previousTime < s.targetTime
    requires forall t :: t in times ==> t <= s.targetTime
    ensures var s' := Ticks(c, s, times);
            var now := s'.previousTime; var whole := s.targetTime - s.previousTime;
            var d0 := Abs(Gap(s, i, ch)); var d := Abs(Gap(s', i, ch));
            && (Gap(s, i, ch) >= 0 ==> Gap(s', i, ch) >= 0)
            && (Gap(s, i, ch) <= 0 ==> Gap(s', i, ch) <= 0)
            && InEnvelope(d0, d, |times|, whole, s.targetTime - now)
  {
    hide InEnvelope, Shrinks, Tick, Get;
    if times == [] {
      EnvelopeStart(Abs(Gap(s, i, ch)), s.targetTime - s.previousTime);
    } else {
      var n := |times| - 1;
      var now := times[n];
      assert forall t :: t in times[..n] ==> t in times;
      assert now in times;
      Envelope(c, s, times[..n], i, ch);
      var s1 := Ticks(c, s, times[..n]);
      TickGap(c, s1, now, i, ch);
      var d0, d1, d2 := Abs(Gap(s, i, ch)), Abs(Gap(s1, i, ch)), Abs(Gap(Ticks(c, s, times), i, ch));
      var whole, a, b := s.targetTime - s.previousTime, s.targetTime - s1.previousTime, s.targetTime - now;
      EnvelopeTick(d0, d1, d2, n, whole, a, b);
    }
  }

  lemma ArrivedChannel(c: Config, s: State, times: seq<int>, i: nat, ch: Channel)
    requires i < |s.previous| == |s.target| && Before(s, times) && times != []
    requires s.previousTime < s.targetTime == times[|times| - 1]
    ensures Get(Ticks(c, s, times).previous[i], ch) == Get(s.target[i], ch)
  {
    hide Tick, InEnvelope;
    Envelope(c, s, times, i, ch);
    NothingLeft(Abs(Gap(s, i, ch)), Abs(Gap(Ticks(c, s, times), i, ch)), |times|, s.targetTime - s.previousTime);
  }

  lemma NothingLeft(d0: nat, d: nat, n: nat, whole: int)
    requires 0 < whole && InEnvelope(d0, d, n, whole, 0)
    ensures d == 0
  {
    DivideLe(d, 0, whole);
  }

  // Main result: the first tick at or after the target time shows exactly the target.
  lemma Settles(c: Config, s: State, times: seq<int>)
    requires |s.previous| == |s.target| && Before(s, times) && times != []
    requires s.previousTime < s.targetTime <= times[|times| - 1]
    ensures Ticks(c, s, times).previous == s.target
  {
    var n := |times| - 1;
    var s' := Ticks(c, s, times);
    if times[n] == s.targetTime {
      forall i | 0 <= i < |s'.previous|
        ensures s'.previous[i] == s.target[i]
      {
        ArrivedChannel(c, s, times, i, Red);
        ArrivedChannel(c, s, times, i, Green);
        ArrivedChannel(c, s, times, i, Blue);
      }
    }
  }

  lemma StepSame(v: Byte, delta: int, span: int)
    requires span != 0
    ensures StepChannel(v, v, delta, span) == v
  {
  }

  // Values that have arrived stay, whatever the clock does.
  lemma {:induction false} StaysSettled(c: Config, s: State, times: seq<int>)
    requires s.previous == s.target && Before(s, times)
    ensures Ticks(c, s, times).previous == s.target
  {
    hide StepChannel, Enqueue;
    if times != [] {
      var n := |times| - 1;
      StaysSettled(c, s, times[..n]);
      var s1 := Ticks(c, s, times[..n]);
      TickSettled(c, s1, times[n]);
    }
  }

  lemma TickSettled(c: Config, s: State, now: int)
    requires s.previous == s.target && TickDefined(s, now)
    ensures Tick(c, s, now).previous == s.target
  {
    hide StepChannel;
    var delta, span := Wrap32(s.targetTime - now), s.targetTime - s.previousTime;
    if delta >= 0 {
      forall i | 0 <= i < |s.target|
        ensures StepColor(s.previous[i], s.target[i], delta, span) == s.target[i]
      {
        StepSame(s.target[i].red, delta, span);
        StepSame(s.target[i].green, delta, span);
        StepSame(s.target[i].blue, delta, span);
      }
      assert StepFrame(s.previous, s.target, delta, span) == s.target;
    }
  }

  // Main result, what the settling time promises: written values are fully shown from the first
  // tick at or after the settling time, and the very first ones at every tick.
  lemma WrittenValuesArrive(c: Config, s: State, values: Frame, now: int, times: seq<int>)
    requires s.previous != [] ==> |s.previous| == |s.target| == |values|
    requires times != [] && Before(Write(c, s, values, now), times)
    requires s.previous != [] ==> s.previousTime < now + c.settlingTime <= times[|times| - 1]
    ensures |Write(c, s, values, now).previous| == |Write(c, s, values, now).target|
    ensures Ticks(c, Write(c, s, values, now), times).previous == values
  {
    var w := Write(c, s, values, now);
    assert w.target == values;
    if s.previous == [] {
      StaysSettled(c, w, times);
    } else {
      Settles(c, w, times);
    }
  }

  // Increasing times after `from` and up to `until`, each within an `int` of it.
  predicate TicksUntil(from: int, times: seq<int>, until: int) {
    && (forall k :: 0 <= k < |times| ==> from < times[k] <= until && until - times[k] < TWO31)
    && (forall j, k :: 0 <= j < k < |times| ==> times[j] < times[k])
  }

  lemma TicksAfterWrite(c: Config, s: State, values: Frame, now: int, times: seq<int>)
    requires |values| <= |s.previous| == |s.target| && s.previous != []
    requires TicksUntil(s.previousTime, times, now + c.settlingTime)
    ensures var w := Write(c, s, values, now);
            && Before(w, times) && (forall t :: t in times ==> t <= w.targetTime)
            && w.previous == s.previous && w.previousTime == s.previousTime && w.targetTime == now + c.settlingTime
            && |w.target| == |s.target|
            && forall i :: 0 <= i < |w.target| ==> w.target[i] == if i < |values| then values[i] else s.target[i]
  {
  }

  // Main result, the fade itself: after a write, each channel of each LED moves from what it
  // showed to the written value (one beyond the written ones to its target before) on the straight
  // line that ends the settling time after the write.
  lemma WriteFades(c: Config, s: State, values: Frame, now: int, times: seq<int>, i: nat, ch: Channel)
    requires |values| <= |s.previous| == |s.target| && i < |s.previous|
    requires s.previousTime < now + c.settlingTime && TicksUntil(s.previousTime, times, now + c.settlingTime)
    ensures Before(Write(c, s, values, now), times)
    ensures var s' := Ticks(c, Write(c, s, values, now), times);
            var goal := if i < |values| then values[i] else s.target[i];
            var last := if times == [] then s.previousTime else times[|times| - 1];
            var (gap0, gap) := (Get(goal, ch) - Get(s.previous[i], ch), Get(goal, ch) - Get(s'.previous[i], ch));
            && (gap0 >= 0 ==> gap >= 0) && (gap0 <= 0 ==> gap <= 0)
            && InEnvelope(Abs(gap0), Abs(gap), |times|, now + c.settlingTime - s.previousTime,
                          now + c.settlingTime - last)
  {
    hide InEnvelope, Get, Before, TicksUntil, Ticks, Write, Abs;
    TicksAfterWrite(c, s, values, now, times);
    Envelope(c, Write(c, s, values, now), times, i, ch);
  }

  // The fade to the values written after the very first ones starts when those were written.
  lemma FadeFromFirstWrite(
    c: Config, s: State, first: Frame, start: int, values: Frame, now: int, times: seq<int>, i: nat, ch: Channel)
    requires s.previous == [] && i < |values| == |first|
    requires start < now + c.settlingTime && TicksUntil(start, times, now + c.settlingTime)
    ensures var w := Write(c, Write(c, s, first, start), values, now);
            && |w.previous| == |w.target| && Before(w, times)
            && InEnvelope(Abs(Get(values[i], ch) - Get(first[i], ch)),
                          Abs(Get(values[i], ch) - Get(Ticks(c, w, times).previous[i], ch)), |times|,
                          now + c.settlingTime - start,
                          now + c.settlingTime - if times == [] then start else times[|times| - 1])
  {
    hide InEnvelope, Get, Before, TicksUntil, Ticks;
    WriteFades(c, Write(c, s, first, start), values, now, times, i, ch);
  }

  // ---------------------------------------------------------------- the delay line over runs

  datatype Event = WriteAt(values: Frame, now: int) | TickAt(now: int)

  predicate EventDefined(s: State, e: Event) {
    match e
    case WriteAt(values, _) => WriteDefined(s, values)
    case TickAt(now) => TickDefined(s, now)
  }

  function Apply(c: Config, s: State, e: Event): State
    requires EventDefined(s, e)
  {
    match e
    case WriteAt(values, now) => Write(c, s, values, now)
    case TickAt(now) => Tick(c, s, now)
  }

  predicate RunDefined(c: Config, s: State, events: seq<Event>)
    decreases |events|
  {
    events == [] || (EventDefined(s, events[0]) && RunDefined(c, Apply(c, s, events[0]), events[1..]))
  }

  function Run(c: Config, s: State, events: seq<Event>): State
    requires RunDefined(c, s, events)
    decreases |events|
  {
    if events == [] then s else Run(c, Apply(c, s, events[0]), events[1..])
  }

  // The frames a run computes while writing is enabled: the enabling tick itself counts once the
  // target time is not past, and the first tick past it still counts.
  function ShownBy(c: Config, s: State, e: Event): seq<Frame>
    requires EventDefined(s, e)
  {
    if e.TickAt? && (s.writeEnable || Wrap32(s.targetTime - e.now) >= 0) then [Apply(c, s, e).previous] else []
  }

  function Shown(c: Config, s: State, events: seq<Event>): seq<Frame>
    requires RunDefined(c, s, events)
    decreases |events|
  {
    if events == [] then []
    else ShownBy(c, s, events[0]) + Shown(c, Apply(c, s, events[0]), events[1..])
  }

  lemma EnqueueLedger(c: Config, s: State, frame: Frame)
    requires c.outputDelay > 0 && !c.pause && |s.queue| <= c.outputDelay
    ensures var s' := Enqueue(c, s, frame);
            && s'.device + s'.queue == s.device + s.queue + (if s.writeEnable then [frame] else [])
            && |s'.queue| <= c.outputDelay
  {
    var more := if s.writeEnable then [frame] else [];
    var q := s.queue + more;
    Assoc(s.device, s.queue, more);
    AppendNone(s.queue);
    if q != [] {
      HeadTail(q);
      Assoc(s.device, [q[0]], q[1..]);
    }
  }

  lemma LedgerStep(c: Config, s: State, e: Event)
    requires c.outputDelay > 0 && !c.pause && EventDefined(s, e) && |s.queue| <= c.outputDelay
    ensures var s' := Apply(c, s, e);
            && s'.device + s'.queue == s.device + s.queue + ShownBy(c, s, e)
            && |s'.queue| <= c.outputDelay
  {
    hide Wrap32, StepFrame, Enqueue;
    if e.TickAt? {
      var delta := Wrap32(s.targetTime - e.now);
      if delta < 0 {
        EnqueueLedger(c, s.(previous := s.target, previousTime := e.now), s.target);
        EnqueueKeeps(c, s.(previous := s.target, previousTime := e.now), s.target);
      } else {
        var frame := StepFrame(s.previous, s.target, delta, s.targetTime - s.previousTime);
        EnqueueLedger(c, s.(previous := frame, previousTime := e.now, writeEnable := true), frame);
        EnqueueKeeps(c, s.(previous := frame, previousTime := e.now, writeEnable := true), frame);
      }
    } else {
      AppendNone(s.device + s.queue);
    }
  }

  // Queueing touches nothing but the queue and the device.
  lemma EnqueueKeeps(c: Config, s: State, frame: Frame)
    ensures var s' := Enqueue(c, s, frame);
            s'.(queue := s.queue, device := s.device) == s
  {
  }

  // Main result: over any run without pause, device output followed by the queue is exactly the
  // frames computed while enabled, in order, and the queue never holds more than the delay.
  lemma {:induction false} DelayLine(c: Config, s: State, events: seq<Event>)
    requires c.outputDelay > 0 && !c.pause && RunDefined(c, s, events)
    requires |s.queue| <= c.outputDelay
    ensures var s' := Run(c, s, events);
            && s'.device + s'.queue == s.device + s.queue + Shown(c, s, events)
            && |s'.queue| <= c.outputDelay
    decreases |events|
  {
    hide Apply, ShownBy, EventDefined;
    if events != [] {
      var s' := Apply(c, s, events[0]);
      LedgerStep(c, s, events[0]);
      DelayLine(c, s', events[1..]);
    }
  }

  // A run in phases, with switchOff called between them.
  predicate PhasesDefined(c: Config, s: State, phases: seq<seq<Event>>)
    decreases |phases|
  {
    phases == [] ||
    (RunDefined(c, s, phases[0]) && PhasesDefined(c, SwitchOff(Run(c, s, phases[0])), phases[1..]))
  }

  function RunPhases(c: Config, s: State, phases: seq<seq<Event>>): State
    requires PhasesDefined(c, s, phases)
    decreases |phases|
  {
    if phases == [] then s
    else if |phases| == 1 then Run(c, s, phases[0])
    else RunPhases(c, SwitchOff(Run(c, s, phases[0])), phases[1..])
  }

  // The last n frames replaced by black ones.
  function BlackTail(frames: seq<Frame>, n: nat, black: Frame): seq<Frame> {
    frames[..Max(|frames| - n, 0)] + seq(n, _ => black)
  }

  // What is due in the end, from what was due before: each phase adds the frames it computes while
  // enabled, and each switchOff blackens those still waiting.
  function Due(c: Config, s: State, phases: seq<seq<Event>>, before: seq<Frame>): seq<Frame>
    requires PhasesDefined(c, s, phases)
    decreases |phases|
  {
    if phases == [] then before
    else
      var s', due := Run(c, s, phases[0]), before + Shown(c, s, phases[0]);
      if |phases| == 1 then due
      else Due(c, SwitchOff(s'), phases[1..], BlackTail(due, |s'.queue|, Blacks(|s'.target|)))
  }

  lemma SwitchOffLedger(s: State)
    ensures SwitchOff(s).device + SwitchOff(s).queue ==
            BlackTail(s.device + s.queue, |s.queue|, Blacks(|s.target|))
  {
    assert (s.device + s.queue)[..|s.device|] == s.device;
  }

  // Main result: the same over any run that switches off any number of times.
  lemma {:induction false} DelayLineSwitchedOff(c: Config, s: State, phases: seq<seq<Event>>)
    requires c.outputDelay > 0 && !c.pause && PhasesDefined(c, s, phases)
    requires |s.queue| <= c.outputDelay
    ensures var s' := RunPhases(c, s, phases);
            && s'.device + s'.queue == Due(c, s, phases, s.device + s.queue)
            && |s'.queue| <= c.outputDelay
    decreases |phases|
  {
    hide Run, Shown, BlackTail, RunDefined;
    if phases != [] {
      DelayLine(c, s, phases[0]);
      if |phases| > 1 {
        SwitchOffLedger(Run(c, s, phases[0]));
        DelayLineSwitchedOff(c, SwitchOff(Run(c, s, phases[0])), phases[1..]);
      }
    }
  }

  // With no delay every enabled frame goes to the device at once.
  lemma {:induction false} NoDelay(c: Config, s: State, events: seq<Event>)
    requires c.outputDelay == 0 && !c.pause && RunDefined(c, s, events)
    ensures Run(c, s, events).device == s.device + Shown(c, s, events)
    ensures Run(c, s, events).queue == s.queue
    decreases |events|
  {
    hide Wrap32, StepFrame;
    if events != [] {
      NoDelay(c, Apply(c, s, events[0]), events[1..]);
      Assoc(s.device, ShownBy(c, s, events[0]), Shown(c, Apply(c, s, events[0]), events[1..]));
      AppendNone(s.device);
    }
  }

  // Main result: a pause holds back what would go to the device and changes nothing else.
  lemma {:induction false} PauseOnlyHoldsBack(c: Config, s: State, events: seq<Event>)
    requires RunDefined(c.(pause := false), s, events)
    ensures var on, off := c.(pause := true), c.(pause := false);
            RunDefined(on, s, events) && Run(on, s, events) == Run(off, s, events).(device := s.device)
    decreases |events|
  {
    hide Apply, EventDefined;
    if events != [] {
      PauseStep(c, s, events[0]);
      var s' := Apply(c.(pause := false), s, events[0]);
      PauseOnlyHoldsBack(c, s', events[1..]);
      DeviceForgets(c.(pause := true), s', s.device, events[1..]);
    }
  }

  lemma PauseStep(c: Config, s: State, e: Event)
    requires EventDefined(s, e)
    ensures Apply(c.(pause := true), s, e) == Apply(c.(pause := false), s, e).(device := s.device)
  {
    hide Wrap32, StepFrame;
  }

  // Under a pause, what the device got before has no influence.
  lemma {:induction false} DeviceForgets(c: Config, s: State, device: seq<Frame>, events: seq<Event>)
    requires c.pause && RunDefined(c, s, events)
    ensures var s0 := s.(device := device);
            RunDefined(c, s0, events) && Run(c, s0, events) == Run(c, s, events).(device := device)
    decreases |events|
  {
    hide Apply, EventDefined;
    if events != [] {
      DeviceForgotten(c, s, device, events[0]);
      DeviceForgets(c, Apply(c, s, events[0]), device, events[1..]);
    }
  }

  lemma DeviceForgotten(c: Config, s: State, device: seq<Frame>, e: Event)
    requires c.pause && EventDefined(s, e)
    ensures var s0 := s.(device := device);
            EventDefined(s0, e) && Apply(c, s0, e) == Apply(c, s, e).(device := device)
  {
    hide Wrap32, StepFrame;
  }

  // How long the queue is after one tick: enabled ticks fill it up to the delay, disabled ticks
  // drain it by one. Together with DelayLine this fixes which frame the device gets when.
  lemma QueueLength(c: Config, s: State, now: int)
    requires c.outputDelay > 0 && TickDefined(s, now) && |s.queue| <= c.outputDelay
    ensures |Tick(c, s, now).queue| ==
            if s.writeEnable || Wrap32(s.targetTime - now) >= 0
            then Min(|s.queue| + 1, c.outputDelay) else Max(|s.queue| - 1, 0)
  {
  }

  // Past the target time, after one more frame, a device is written to again exactly if
  // continuous output is asked for.
  lemma IdleShowsIff(c: Config, s: State, now1: int, now2: int)
    requires TickDefined(s, now1) && Wrap32(s.targetTime - now1) < 0 && Wrap32(s.targetTime - now2) < 0
    ensures var s' := Tick(c, s, now1);
            ShownBy(c, s', TickAt(now2)) == if c.continuousOutput then [s.target] else []
  {
    hide Wrap32;
  }

  // ---------------------------------------------------------------- colours stay in range

  predicate FrameWithin(f: Frame, ch: Channel, lo: int, hi: int) {
    forall i :: 0 <= i < |f| ==> lo <= Get(f[i], ch) <= hi
  }

  // A clock that moves forward between ticks and stays within an `int` of the target time.
  predicate ClockOk(s: State, e: Event) {
    e.TickAt? ==> s.previousTime < e.now && -TWO31 <= s.targetTime - e.now < TWO31
  }

  predicate SteadyRun(c: Config, s: State, events: seq<Event>, ch: Channel, lo: int, hi: int)
    decreases |events|
  {
    events == [] ||
    (&& EventDefined(s, events[0]) && ClockOk(s, events[0])
     && (events[0].WriteAt? ==> FrameWithin(events[0].values, ch, lo, hi))
     && SteadyRun(c, Apply(c, s, events[0]), events[1..], ch, lo, hi))
  }

  lemma Smaller(d: nat, d': nat, span: int, delta: int)
    requires 0 <= delta <= span && 0 < span && Shrinks(d, d', span, delta)
    ensures d' <= d
  {
    MulLe(delta, span, d);
    DivideLe(d', d, span);
  }

  lemma TickKeepsTarget(c: Config, s: State, e: Event)
    requires |s.previous| == |s.target| && EventDefined(s, e)
    ensures var s' := Apply(c, s, e);
            && |s'.previous| == |s'.target|
            && (e.TickAt? ==> s'.target == s.target)
            && (e.TickAt? && Wrap32(s.targetTime - e.now) < 0 ==> s'.previous == s.target)
  {
  }

  lemma EventKeepsRange(c: Config, s: State, e: Event, ch: Channel, lo: int, hi: int)
    requires |s.previous| == |s.target| && EventDefined(s, e) && ClockOk(s, e)
    requires FrameWithin(s.previous, ch, lo, hi) && FrameWithin(s.target, ch, lo, hi)
    requires e.WriteAt? ==> FrameWithin(e.values, ch, lo, hi)
    ensures var s' := Apply(c, s, e);
            && |s'.previous| == |s'.target|
            && FrameWithin(s'.previous, ch, lo, hi) && FrameWithin(s'.target, ch, lo, hi)
  {
    hide Tick, Shrinks, Get;
    TickKeepsTarget(c, s, e);
    if e.TickAt? && e.now <= s.targetTime {
      forall i | 0 <= i < |s.previous|
        ensures lo <= Get(Tick(c, s, e.now).previous[i], ch) <= hi
      {
        TickGap(c, s, e.now, i, ch);
        Smaller(Abs(Gap(s, i, ch)), Abs(Gap(Tick(c, s, e.now), i, ch)),
                s.targetTime - s.previousTime, s.targetTime - e.now);
      }
    }
  }

  // Main result: no run of retargeting writes and ticks ever shows a channel value outside the
  // interval spanned by the start and the written targets.
  lemma {:induction false} NeverOutsideTargets(
    c: Config, s: State, events: seq<Event>, ch: Channel, lo: int, hi: int)
    requires |s.previous| == |s.target|
    requires FrameWithin(s.previous, ch, lo, hi) && FrameWithin(s.target, ch, lo, hi)
    requires SteadyRun(c, s, events, ch, lo, hi)
    ensures RunDefined(c, s, events)
    ensures FrameWithin(Run(c, s, events).previous, ch, lo, hi)
    decreases |events|
  {
    if events != [] {
      var s' := Apply(c, s, events[0]);
      EventKeepsRange(c, s, events[0], ch, lo, hi);
      NeverOutsideTargets(c, s', events[1..], ch, lo, hi);
    }
  }

  // ---------------------------------------------------------------- switching off

  // Switching off turns a full or partly filled queue into as many black frames.
  lemma SwitchOffQueue(s: State)
    ensures |SwitchOff(s).queue| == |s.queue|
    ensures forall f :: f in SwitchOff(s).queue ==> |f| == |s.target| && forall c :: c in f ==> c == BLACK
    ensures SwitchOff(s).device == s.device && SwitchOff(s).previous == s.previous
  {
  }

  // One channel stepped towards black with the factor 1 + delta / whole, whatever that was rounded
  // to: it arrives exactly if the factor is 1, or the channel was black already.
  lemma BlackAtFactorIff(v: Byte, delta: int, whole: int)
    requires 0 <= delta <= whole && 0 < whole
    ensures StepChannel(v, 0, delta, -whole) == 0 <==> v == 0 || delta == 0
  {
    var a := v * (whole + delta);
    assert v * (-whole - delta) == -a;
    assert a == v * whole + v * delta;
    if delta == 0 {
      assert (v - 1) * whole == v * whole - whole;
      CeilAtMost(a, whole, v);
      CeilAbove(a, whole, v - 1);
    } else if v > 0 {
      MulLe(1, v, delta);
      MulLe(v, 255, delta);
      assert (v + 255) * whole == v * whole + 255 * whole;
      CeilAbove(a, whole, v);
      CeilAtMost(a, whole, v + 255);
    }
  }

  // Main result, stated exactly: after switchOff the next tick shows pure black if and only if
  // the target time 0 minus the clock, truncated to an `int`, is not positive (or all was black).
  // This takes the factor as exact; a float rounds it to 1, so that BlackAtFactorIff gives black,
  // for positive differences of up to about 95 seconds.
  lemma BlackAfterSwitchOff(c: Config, s: State, now: int)
    requires |s.previous| == |s.target| && TWO31 <= s.previousTime
    ensures TickDefined(SwitchOff(s), now)
    ensures Tick(c, SwitchOff(s), now).previous == Blacks(|s.previous|)
            <==> (Wrap32(-now) <= 0 || s.previous == Blacks(|s.previous|))
  {
    var off := SwitchOff(s);
    var delta := Wrap32(-now);
    var frame := Tick(c, off, now).previous;
    if delta >= 0 {
      forall i | 0 <= i < |s.previous|
        ensures frame[i] == BLACK <==> (delta == 0 || s.previous[i] == BLACK)
      {
        var p := s.previous[i];
        assert frame[i] == StepColor(p, BLACK, delta, -s.previousTime);
        BlackAtFactorIff(p.red, delta, s.previousTime);
        BlackAtFactorIff(p.green, delta, s.previousTime);
        BlackAtFactorIff(p.blue, delta, s.previousTime);
      }
      if delta > 0 && frame == Blacks(|s.previous|) {
        forall i | 0 <= i < |s.previous|
          ensures s.previous[i] == BLACK
        {
          assert frame[i] == BLACK;
        }
      }
    }
  }

  // The failing case is reachable: a clock value in June 2020 turns a lit channel to full.
  lemma SwitchOffFlash(c: Config)
    ensures var now := 373 * TWO32 - 1_000_000_000;
            var s := State([ColorRgb(100, 0, 0)], [BLACK], now - 40, now, [], true, []);
            && TickDefined(SwitchOff(s), now)
            && Tick(c, SwitchOff(s), now).previous == [ColorRgb(255, 0, 0)]
  {
    var now := 373 * TWO32 - 1_000_000_000;
    var s := State([ColorRgb(100, 0, 0)], [BLACK], now - 40, now, [], true, []);
    var off := SwitchOff(s);
    assert Wrap32(0 - now) == 1_000_000_000;
    var frame := Tick(c, off, now).previous;
    assert frame[0] == StepColor(ColorRgb(100, 0, 0), BLACK, 1_000_000_000, -(now - 40));
  }
}

module Smoothing {
  import opened Colors
  import opened Arithmetic
  import opened SmoothingSpec

  class LinearColorSmoothing {
    var settlingTime: int
    var outputDelay: nat
    var continuousOutput: bool
    var pause: bool

    var targetTime: int
    var targetValues: seq<ColorRgb>
    var previousTime: int
    var previousValues: seq<ColorRgb>
    var outputQueue: seq<Frame>
    var writeToLedsEnable: bool

    // The frames passed to the LED device.
    var device: seq<Frame>

    constructor (config: Config)
      ensures Settings() == config
      ensures previousValues == [] && targetValues == [] && outputQueue == [] && writeToLedsEnable && device == []
    {
      settlingTime, outputDelay := config.settlingTime, config.outputDelay;
      continuousOutput, pause := config.continuousOutput, config.pause;
      targetTime, previousTime := 0, 0;
      targetValues, previousValues := [], [];
      outputQueue, writeToLedsEnable, device := [], true, [];
    }

    ghost function Settings(): Config
      reads this
    {
      Config(settlingTime, outputDelay, continuousOutput, pause)
    }

    ghost function Model(): State
      reads this
    {
      State(previousValues, targetValues, previousTime, targetTime, outputQueue, writeToLedsEnable, device)
    }

    method Write(ledValues: Frame, now: int)
      requires WriteDefined(Model(), ledValues)
      modifies this
      ensures Model() == SmoothingSpec.Write(Settings(), old(Model()), ledValues, now)
      ensures Settings() == old(Settings())
    {
      if previousValues == [] {
        targetTime := now + settlingTime;
        targetValues := ledValues;
        previousTime := now;
        previousValues := ledValues;
      } else {
        targetTime := now + settlingTime;
        targetValues := ledValues + targetValues[|ledValues|..];
      }
    }

    method SwitchOff()
      modifies this
      ensures Model() == SmoothingSpec.SwitchOff(old(Model()))
      ensures Settings() == old(Settings())
    {
      targetValues := seq(|targetValues|, _ => BLACK);
      targetTime := 0;
      var i := 0;
      while i < |outputQueue|
        invariant |outputQueue| == |old(outputQueue)|
        invariant 0 <= i <= |outputQueue|
        invariant forall k :: |outputQueue| - i <= k < |outputQueue| ==> outputQueue[k] == targetValues
        invariant previousValues == old(previousValues) && targetValues == Blacks(|old(targetValues)|)
        invariant previousTime == old(previousTime) && targetTime == 0
        invariant writeToLedsEnable == old(writeToLedsEnable) && device == old(device)
        invariant Settings() == old(Settings())
      {
        outputQueue := outputQueue + [targetValues];
        outputQueue := outputQueue[1..];
        i := i + 1;
      }
    }

    method QueueColors(ledColors: Frame)
      modifies `outputQueue, `device
      ensures Model() == Enqueue(Settings(), old(Model()), ledColors)
    {
      if outputDelay == 0 {
        if writeToLedsEnable && !pause {
          device := device + [ledColors];
        }
      } else {
        if writeToLedsEnable {
          outputQueue := outputQueue + [ledColors];
        }
        if |outputQueue| > 0 {
          if |outputQueue| > outputDelay || !writeToLedsEnable {
            if !pause {
              device := device + [outputQueue[0]];
            }
            outputQueue := outputQueue[1..];
          }
        }
      }
    }

    method UpdateLeds(now: int)
      requires TickDefined(Model(), now)
      modifies this
      ensures Model() == Tick(Settings(), old(Model()), now)
      ensures Settings() == old(Settings())
    {
      hide StepChannel, Enqueue;
      var deltaTime := Wrap32(targetTime - now);
      if deltaTime < 0 {
        previousValues := targetValues;
        previousTime := now;
        QueueColors(previousValues);
        writeToLedsEnable := continuousOutput;
      } else {
        writeToLedsEnable := true;
        var span := targetTime - previousTime;
        var i := 0;
        while i < |previousValues|
          invariant 0 <= i <= |previousValues| == |old(previousValues)| == |targetValues|
          invariant forall k :: 0 <= k < i ==>
                      previousValues[k] == StepColor(old(previousValues)[k], targetValues[k], deltaTime, span)
          invariant forall k :: i <= k < |previousValues| ==> previousValues[k] == old(previousValues)[k]
          invariant Model() == old(Model()).(previous := previousValues, writeEnable := true)
          invariant Settings() == old(Settings())
        {
          var prev, target := previousValues[i], targetValues[i];
          var red := StepChannel(prev.red, target.red, deltaTime, span);
          var green := StepChannel(prev.green, target.green, deltaTime, span);
          var blue := StepChannel(prev.blue, target.blue, deltaTime, span);
          previousValues := previousValues[i := ColorRgb(red, green, blue)];
          i := i + 1;
        }
        assert previousValues == StepFrame(old(previousValues), targetValues, deltaTime, span);
        previousTime := now;
        QueueColors(previousValues);
      }
    }
  }
}
