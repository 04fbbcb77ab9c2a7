// libsrc/hyperion/PriorityMuxer.cpp: the priority channels, their timeouts and which of them is
// visible. Every call that reads the clock takes the time as an argument.

module MuxerSpec {
  import opened Arithmetic
  import opened Colors
  import opened Images

  const LOWEST_PRIORITY := 255
  const INACTIVE := -100

  datatype Component = ColorSource | EffectSource | OtherSource

  datatype InputInfo = InputInfo(
    priority: int, timeoutTime: int, ledColors: seq<ColorRgb>, image: Image,
    component: Component, origin: string, smoothCfg: nat, owner: string)

  datatype Signal =
    | PriorityChanged(priority: int, added: bool)
    | ActiveStateChanged(priority: int, active: bool)
    | AutoSelectChanged(enabled: bool)
    | VisiblePriorityChanged(priority: int)

  // `signals` lists what was emitted so far.
  datatype Mux = Mux(inputs: map<int, InputInfo>, current: int, manual: int, auto: bool,
                     lowestInfo: InputInfo, signals: seq<Signal>)

  const EMPTY_IMAGE := Image(1, 1, [BLACK])

  function LowestInfo(ledCount: nat): InputInfo {
    InputInfo(LOWEST_PRIORITY, -1, seq(ledCount, _ => BLACK), EMPTY_IMAGE, ColorSource, "System", 0, "")
  }

  function Initial(ledCount: nat): Mux {
    var info := LowestInfo(ledCount);
    Mux(map[LOWEST_PRIORITY := info], LOWEST_PRIORITY, 256, true, info, [])
  }

  // The quint8 a priority is emitted as.
  function U8(priority: int): int {
    priority % 256
  }

  // ---------------------------------------------------------------- key order

  lemma HasElement(s: set<int>)
    requires s != {}
    ensures exists x :: x in s
  {
    if !(exists x :: x in s) {
      assert false;
    }
  }

  ghost function MinOf(s: set<int>): (m: int)
    requires s != {}
    ensures m in s && forall x :: x in s ==> m <= x
  {
    HasElement(s);
    var x :| x in s;
    var rest := s - {x};
    if rest == {} then
      assert forall y :: y in s ==> y == x || y in rest;
      x
    else
      var m := MinOf(rest);
      assert forall y :: y in s ==> y == x || y in rest;
      if m < x then m else x
  }

  // The keys in the order a QMap iterates them.
  ghost function Sorted(s: set<int>): seq<int> {
    if s == {} then [] else [MinOf(s)] + Sorted(s - {MinOf(s)})
  }

  lemma {:induction false} SortedHolds(s: set<int>)
    ensures forall x :: x in Sorted(s) <==> x in s
  {
    if s != {} {
      SortedHolds(s - {MinOf(s)});
    }
  }

  // ---------------------------------------------------------------- evaluation

  predicate Expired(info: InputInfo, now: int) {
    info.timeoutTime > 0 && info.timeoutTime <= now
  }

  predicate Active(info: InputInfo) {
    info.timeoutTime >= -1
  }

  function Kept(inputs: map<int, InputInfo>, now: int): map<int, InputInfo> {
    map k | k in inputs && !Expired(inputs[k], now) :: inputs[k]
  }

  // The minimum of 255 and the active channels.
  ghost function Lowest(inputs: map<int, InputInfo>): (v: int)
    ensures v == LOWEST_PRIORITY || (v in inputs && Active(inputs[v]))
    ensures v <= LOWEST_PRIORITY && forall k :: k in inputs && Active(inputs[k]) ==> v <= k
  {
    var shown := {LOWEST_PRIORITY} + set k | k in inputs && Active(inputs[k]);
    assert LOWEST_PRIORITY in shown && forall k :: k in inputs && Active(inputs[k]) ==> k in shown;
    MinOf(shown)
  }

  ghost function TimeoutSignals(keys: set<int>, inputs: map<int, InputInfo>, now: int): seq<Signal>
    requires keys <= inputs.Keys
  {
    if keys == {} then []
    else
      var k := MinOf(keys);
      (if Expired(inputs[k], now) then [PriorityChanged(U8(inputs[k].priority), false)] else [])
      + TimeoutSignals(keys - {k}, inputs, now)
  }

  ghost function Evaluate(m: Mux, now: int): Mux {
    var kept := Kept(m.inputs, now);
    var fallBack := !m.auto && m.manual !in kept;
    var visible := if !m.auto && m.manual in kept then m.manual else Lowest(kept);
    Mux(kept, visible, m.manual, m.auto || fallBack, m.lowestInfo,
        m.signals + TimeoutSignals(m.inputs.Keys, m.inputs, now)
        + (if fallBack then [AutoSelectChanged(true)] else [])
        + (if visible != m.current then [VisiblePriorityChanged(U8(visible))] else []))
  }

  lemma TimeoutSignalsStep(keys: set<int>, inputs: map<int, InputInfo>, now: int)
    requires keys != {} && keys <= inputs.Keys
    ensures var k := MinOf(keys);
            TimeoutSignals(keys, inputs, now) ==
            (if inputs[k].timeoutTime > 0 && inputs[k].timeoutTime <= now
             then [PriorityChanged(U8(inputs[k].priority), false)] else [])
            + TimeoutSignals(keys - {k}, inputs, now)
  {
  }

  lemma NoTimeouts(inputs: map<int, InputInfo>, now: int)
    ensures TimeoutSignals({}, inputs, now) == []
  {
  }

  // Iterating with erasure: the keys in `ahead` are still to come, `lowest` is the minimum so far.
  ghost predicate Scanned(all: map<int, InputInfo>, ahead: set<int>, left: map<int, InputInfo>, lowest: int, now: int) {
    && ahead <= all.Keys
    && left == (map k | k in all && (k in ahead || !Expired(all[k], now)) :: all[k])
    && (lowest == LOWEST_PRIORITY || (lowest in left && lowest !in ahead && Active(left[lowest])))
    && lowest <= LOWEST_PRIORITY
    && forall k :: k in left && k !in ahead && Active(left[k]) ==> lowest <= k
  }

  lemma ScanStep(all: map<int, InputInfo>, ahead: set<int>, left: map<int, InputInfo>, lowest: int, key: int, now: int)
    requires Scanned(all, ahead, left, lowest, now) && key in ahead
    ensures key in left && left[key] == all[key]
    ensures if left[key].timeoutTime > 0 && left[key].timeoutTime <= now
            then Scanned(all, ahead - {key}, left - {key}, lowest, now)
            else if left[key].timeoutTime >= -1
            then Scanned(all, ahead - {key}, left, Min(lowest, key), now)
            else Scanned(all, ahead - {key}, left, lowest, now)
  {
    var rest := ahead - {key};
    assert forall k :: k in ahead <==> k in rest || k == key;
  }

  lemma ScanDone(all: map<int, InputInfo>, left: map<int, InputInfo>, lowest: int, now: int)
    requires Scanned(all, {}, left, lowest, now)
    ensures left == Kept(all, now) && lowest == Lowest(left)
  {
    LowestUnique(left, lowest);
  }

  // ---------------------------------------------------------------- operations

  function RegisterInput(m: Mux, p: int, c: Component, origin: string, owner: string, smoothCfg: nat): Mux {
    if p in m.inputs then
      m.(inputs := m.inputs[p := m.inputs[p].(priority := p, component := c, origin := origin,
                                               smoothCfg := smoothCfg, owner := owner)])
    else
      m.(inputs := m.inputs[p := InputInfo(p, INACTIVE, [], EMPTY_IMAGE, c, origin, smoothCfg, owner)],
         signals := m.signals + [PriorityChanged(U8(p), true)])
  }

  // What a channel is fed with: LED colours or an image.
  datatype Content = Leds(colors: seq<ColorRgb>) | Picture(image: Image)

  function Deadline(timeout: int, now: int): int {
    if timeout > 0 then now + timeout else timeout
  }

  function Filled(info: InputInfo, content: Content, deadline: int): InputInfo {
    match content
    case Leds(colors) => info.(timeoutTime := deadline, ledColors := colors)
    case Picture(image) => info.(timeoutTime := deadline, image := image)
  }

  ghost function SetInput(m: Mux, p: int, content: Content, timeout: int, now: int): Mux {
    if p !in m.inputs then m
    else
      var deadline := Deadline(timeout, now);
      var m' := m.(inputs := m.inputs[p := Filled(m.inputs[p], content, deadline)]);
      if (m.inputs[p].timeoutTime == INACTIVE) == (deadline == INACTIVE) then m'
      else Evaluate(m'.(signals := m.signals + [ActiveStateChanged(U8(p), deadline != INACTIVE)]), now)
  }

  ghost function ClearInput(m: Mux, p: int, now: int): Mux {
    if p < LOWEST_PRIORITY && p in m.inputs then
      var m' := Evaluate(m.(inputs := m.inputs - {p}), now);
      m'.(signals := m'.signals + [PriorityChanged(U8(p), false)])
    else m
  }

  function GetInputInfo(m: Mux, p: int): InputInfo {
    if p in m.inputs then m.inputs[p]
    else if LOWEST_PRIORITY in m.inputs then m.inputs[LOWEST_PRIORITY]
    else m.lowestInfo
  }

  predicate Clearable(info: InputInfo, key: int) {
    info.component != OtherSource && key < LOWEST_PRIORITY - 1
  }

  ghost function ClearEach(m: Mux, keys: seq<int>, now: int): Mux
    decreases |keys|
  {
    if keys == [] then m
    else ClearEach(if Clearable(GetInputInfo(m, keys[0]), keys[0]) then ClearInput(m, keys[0], now) else m,
                   keys[1..], now)
  }

  ghost function ClearAll(m: Mux, force: bool, now: int): Mux {
    if force then m.(inputs := map[LOWEST_PRIORITY := m.lowestInfo], current := LOWEST_PRIORITY)
    else ClearEach(m, Sorted(m.inputs.Keys), now)
  }

  predicate CanSetAuto(m: Mux, enable: bool) {
    m.auto != enable && (enable || m.manual in m.inputs)
  }

  ghost function SetAutoSelect(m: Mux, enable: bool, update: bool, now: int): Mux {
    if !CanSetAuto(m, enable) then m
    else
      var m' := if update then Evaluate(m.(auto := enable), now) else m.(auto := enable);
      m'.(signals := m'.signals + [AutoSelectChanged(enable)])
  }

  ghost function SetPriority(m: Mux, p: int, now: int): Mux {
    if p in m.inputs then SetAutoSelect(m.(manual := p), false, true, now) else m
  }

  // ---------------------------------------------------------------- runs

  datatype Op =
    | Register(p: int, component: Component, origin: string, owner: string, smoothCfg: nat)
    | Set(p: int, content: Content, timeout: int, now: int)
    | Clear(p: int, now: int)
    | ClearEverything(force: bool, now: int)
    | Select(p: int, now: int)
    | AutoSelect(enable: bool, now: int)
    | Tick(now: int)

  ghost function Apply(m: Mux, op: Op): Mux {
    match op
    case Register(p, c, origin, owner, smoothCfg) => RegisterInput(m, p, c, origin, owner, smoothCfg)
    case Set(p, content, timeout, now) => SetInput(m, p, content, timeout, now)
    case Clear(p, now) => ClearInput(m, p, now)
    case ClearEverything(force, now) => ClearAll(m, force, now)
    case Select(p, now) => SetPriority(m, p, now)
    case AutoSelect(enable, now) => SetAutoSelect(m, enable, true, now)
    case Tick(now) => Evaluate(m, now)
  }

  ghost function Run(m: Mux, ops: seq<Op>): Mux
    decreases |ops|
  {
    if ops == [] then m else Run(Apply(m, ops[0]), ops[1..])
  }

  predicate TimeoutOk(timeout: int) {
    timeout == INACTIVE || timeout >= -1
  }

  predicate OpOk(op: Op) {
    op.Set? ==> TimeoutOk(op.timeout) && op.now >= 0
  }

  // Every channel is stored under its own priority.
  predicate WellKeyed(m: Mux) {
    m.lowestInfo.priority == LOWEST_PRIORITY && forall k :: k in m.inputs ==> m.inputs[k].priority == k
  }

  // ---------------------------------------------------------------- the visible priority

  ghost predicate AutoShowsLowest(m: Mux) {
    && (forall k :: k in m.inputs ==> TimeoutOk(m.inputs[k].timeoutTime))
    && m.lowestInfo.timeoutTime == -1
    && (m.auto ==> m.current == Lowest(m.inputs))
  }

  lemma LowestUnique(inputs: map<int, InputInfo>, v: int)
    requires v == LOWEST_PRIORITY || (v in inputs && Active(inputs[v]))
    requires v <= LOWEST_PRIORITY && forall k :: k in inputs && Active(inputs[k]) ==> v <= k
    ensures v == Lowest(inputs)
  {
  }

  lemma SetKeepsLowest(m: Mux, p: int, content: Content, timeout: int, now: int)
    requires AutoShowsLowest(m) && TimeoutOk(timeout) && now >= 0
    ensures AutoShowsLowest(SetInput(m, p, content, timeout, now))
  {
    hide Lowest;
    var m' := SetInput(m, p, content, timeout, now);
    if p in m.inputs && m.auto && (m.inputs[p].timeoutTime == INACTIVE) == (Deadline(timeout, now) == INACTIVE) {
      assert forall k :: k in m.inputs ==> k in m'.inputs && Active(m.inputs[k]) == Active(m'.inputs[k]);
      LowestUnique(m'.inputs, m.current);
    }
  }

  lemma {:induction false} ClearEachKeepsLowest(m: Mux, keys: seq<int>, now: int)
    requires AutoShowsLowest(m)
    ensures AutoShowsLowest(ClearEach(m, keys, now))
    decreases |keys|
  {
    hide Lowest;
    if keys != [] {
      ClearEachKeepsLowest(
        if Clearable(GetInputInfo(m, keys[0]), keys[0]) then ClearInput(m, keys[0], now) else m, keys[1..], now);
    }
  }

  lemma OpKeepsLowest(m: Mux, op: Op)
    requires AutoShowsLowest(m) && OpOk(op)
    ensures AutoShowsLowest(Apply(m, op))
  {
    hide Lowest, TimeoutSignals, Sorted, ClearEach;
    match op {
      case Register(p, _, _, _, _) =>
        var m' := Apply(m, op);
        assert forall k :: k in m'.inputs && Active(m'.inputs[k]) <==> k in m.inputs && Active(m.inputs[k]);
        LowestUnique(m'.inputs, Lowest(m.inputs));
      case Set(p, content, timeout, now) => SetKeepsLowest(m, p, content, timeout, now);
      case ClearEverything(force, now) =>
        if force {
          LowestUnique(Apply(m, op).inputs, LOWEST_PRIORITY);
        } else {
          ClearEachKeepsLowest(m, Sorted(m.inputs.Keys), now);
        }
      case _ =>
    }
  }

  // Main result: after any sequence of operations, automatic selection shows the minimum of 255
  // and the registered active channels.
  lemma {:induction false} VisibleIsLowest(m: Mux, ops: seq<Op>)
    requires AutoShowsLowest(m) && forall op :: op in ops ==> OpOk(op)
    ensures AutoShowsLowest(Run(m, ops)) && (Run(m, ops).auto ==> ShowsMinimum(Run(m, ops)))
    decreases |ops|
  {
    hide OpOk, Apply;
    if ops != [] {
      OpKeepsLowest(m, ops[0]);
      VisibleIsLowest(Apply(m, ops[0]), ops[1..]);
    }
  }

  // The visible priority is 255 or that of a channel with a timeout of at least -1, and no such
  // channel lies below it.
  predicate ShowsMinimum(m: Mux) {
    && m.current <= 255 && (m.current < 255 ==> m.current in m.inputs && m.inputs[m.current].timeoutTime >= -1)
    && forall k :: k in m.inputs && m.inputs[k].timeoutTime >= -1 ==> m.current <= k
  }

  // The restriction on timeouts, made exact for one update in automatic mode: without it the
  // visible priority stays right exactly if the change is noticed, activity does not change, or
  // the channel lies behind the visible one.
  lemma SetKeepsLowestIff(m: Mux, p: int, content: Content, timeout: int, now: int)
    requires m.auto && m.current == Lowest(m.inputs) && p in m.inputs
    ensures var due, was := Deadline(timeout, now), m.inputs[p].timeoutTime;
            var m' := SetInput(m, p, content, timeout, now);
            m'.current == Lowest(m'.inputs) <==>
            || (was == INACTIVE) != (due == INACTIVE)
            || (was >= -1) == (due >= -1)
            || p > m.current || p >= LOWEST_PRIORITY
  {
    hide Lowest;
    var due, was := Deadline(timeout, now), m.inputs[p].timeoutTime;
    var m' := SetInput(m, p, content, timeout, now);
    if (was == INACTIVE) == (due == INACTIVE) {
      assert forall k :: k in m'.inputs <==> k in m.inputs;
      assert forall k :: k in m.inputs && k != p ==> m'.inputs[k] == m.inputs[k];
      if (was >= -1) == (due >= -1) || p > m.current || p >= LOWEST_PRIORITY {
        LowestUnique(m'.inputs, m.current);
      }
    }
  }

  // ---------------------------------------------------------------- registered channels

  // No operation gives the lowest priority a deadline.
  predicate KeepsLowestEndless(op: Op) {
    op.Set? && op.p == LOWEST_PRIORITY ==> op.timeout <= 0
  }

  ghost predicate VisibleRegistered(m: Mux) {
    && LOWEST_PRIORITY in m.inputs && m.inputs[LOWEST_PRIORITY].timeoutTime <= 0
    && m.lowestInfo.timeoutTime <= 0
    && m.current in m.inputs
  }

  lemma {:induction false} ClearEachKeepsRegistered(m: Mux, keys: seq<int>, now: int)
    requires VisibleRegistered(m)
    ensures VisibleRegistered(ClearEach(m, keys, now))
    decreases |keys|
  {
    hide Lowest, TimeoutSignals;
    if keys != [] {
      ClearEachKeepsRegistered(
        if Clearable(GetInputInfo(m, keys[0]), keys[0]) then ClearInput(m, keys[0], now) else m, keys[1..], now);
    }
  }

  lemma OpKeepsRegistered(m: Mux, op: Op)
    requires VisibleRegistered(m) && KeepsLowestEndless(op)
    ensures VisibleRegistered(Apply(m, op))
  {
    hide Lowest, TimeoutSignals, Sorted, ClearEach;
    if op.ClearEverything? && !op.force {
      ClearEachKeepsRegistered(m, Sorted(m.inputs.Keys), op.now);
    }
  }

  // Main result: over any run, in both modes, the visible priority is a registered channel.
  lemma {:induction false} VisibleIsRegistered(m: Mux, ops: seq<Op>)
    requires VisibleRegistered(m) && forall op :: op in ops ==> KeepsLowestEndless(op)
    ensures VisibleRegistered(Run(m, ops))
    decreases |ops|
  {
    hide VisibleRegistered, KeepsLowestEndless, Apply;
    if ops != [] {
      OpKeepsRegistered(m, ops[0]);
      VisibleIsRegistered(Apply(m, ops[0]), ops[1..]);
    }
  }

  predicate ManualRegistered(m: Mux) {
    !m.auto ==> m.manual in m.inputs
  }

  lemma {:induction false} ClearEachKeepsManual(m: Mux, keys: seq<int>, now: int)
    requires ManualRegistered(m)
    ensures ManualRegistered(ClearEach(m, keys, now))
    decreases |keys|
  {
    hide Lowest, TimeoutSignals;
    if keys != [] {
      ClearEachKeepsManual(
        if Clearable(GetInputInfo(m, keys[0]), keys[0]) then ClearInput(m, keys[0], now) else m, keys[1..], now);
    }
  }

  // Manual mode and a registered selection go together under every operation but one: the forced
  // clear breaks it exactly when a channel other than 255 is selected manually.
  lemma OpKeepsManualIff(m: Mux, op: Op)
    requires ManualRegistered(m)
    ensures ManualRegistered(Apply(m, op)) <==>
            !(op.ClearEverything? && op.force && !m.auto && m.manual != LOWEST_PRIORITY)
  {
    hide Lowest, TimeoutSignals, Sorted, ClearEach;
    if op.ClearEverything? && !op.force {
      ClearEachKeepsManual(m, Sorted(m.inputs.Keys), op.now);
    }
  }

  // Main result: outside forced clears, manual mode implies that the selected channel exists.
  lemma {:induction false} ManualIsRegistered(m: Mux, ops: seq<Op>)
    requires ManualRegistered(m)
    requires forall op :: op in ops ==> !(op.ClearEverything? && op.force)
    ensures ManualRegistered(Run(m, ops))
    decreases |ops|
  {
    hide ManualRegistered, Apply;
    if ops != [] {
      assert ops[0] in ops;
      OpKeepsManualIff(m, ops[0]);
      ManualIsRegistered(Apply(m, ops[0]), ops[1..]);
    }
  }

  // ---------------------------------------------------------------- expiry

  // Operations that give channel p new content or remove it on request; a clear of all channels
  // spares a channel that is not Clearable, as long as nobody registers it as something else.
  predicate Touches(op: Op, p: int, spared: bool) {
    || (op.Set? && op.p == p)
    || (op.Clear? && op.p == p)
    || (op.ClearEverything? && (op.force || !spared))
    || (op.Register? && op.p == p && spared && op.component != OtherSource && p < LOWEST_PRIORITY - 1)
  }

  predicate Before(op: Op, time: int) {
    match op
    case Register(_, _, _, _, _) => true
    case Set(_, _, _, now) => now < time
    case Clear(_, now) => now < time
    case ClearEverything(_, now) => now < time
    case Select(_, now) => now < time
    case AutoSelect(_, now) => now < time
    case Tick(now) => now < time
  }

  // The content and deadline of a channel, apart from who registered it.
  predicate SameContent(a: InputInfo, b: InputInfo) {
    a.timeoutTime == b.timeoutTime && a.ledColors == b.ledColors && a.image == b.image
  }

  // The loop over all channels leaves a channel alone that is neither clearable nor overdue.
  lemma {:induction false} ClearEachSpares(m: Mux, keys: seq<int>, p: int, now: int)
    requires p in m.inputs && !Clearable(m.inputs[p], p) && !Expired(m.inputs[p], now)
    ensures var m' := ClearEach(m, keys, now);
            p in m'.inputs && m'.inputs[p] == m.inputs[p]
    decreases |keys|
  {
    hide Lowest, TimeoutSignals, Clearable;
    if keys != [] {
      ClearEachSpares(
        if Clearable(GetInputInfo(m, keys[0]), keys[0]) then ClearInput(m, keys[0], now) else m, keys[1..], p, now);
    }
  }

  // One untouched step before the deadline, if there is one.
  lemma StepSpares(m: Mux, op: Op, p: int, spared: bool)
    requires p in m.inputs && !Touches(op, p, spared)
    requires m.inputs[p].timeoutTime > 0 ==> Before(op, m.inputs[p].timeoutTime)
    requires spared ==> !Clearable(m.inputs[p], p)
    ensures var m' := Apply(m, op);
            && p in m'.inputs && SameContent(m'.inputs[p], m.inputs[p])
            && (!(op.Register? && op.p == p) ==> m'.inputs[p] == m.inputs[p])
            && (spared ==> !Clearable(m'.inputs[p], p))
  {
    hide Lowest, TimeoutSignals, Sorted, ClearEach;
    if op.ClearEverything? {
      ClearEachSpares(m, Sorted(m.inputs.Keys), p, op.now);
    }
  }

  // No deadline of channel p passes during the run, and nobody touches it.
  predicate Undisturbed(m: Mux, ops: seq<Op>, p: int, spared: bool)
    requires p in m.inputs
  {
    && (spared ==> !Clearable(m.inputs[p], p))
    && forall op :: op in ops ==>
         !Touches(op, p, spared) && (m.inputs[p].timeoutTime > 0 ==> Before(op, m.inputs[p].timeoutTime))
  }

  // Such a channel keeps deadline and content, and everything unless it is registered anew.
  lemma {:induction false} UndisturbedLasts(m: Mux, ops: seq<Op>, p: int, spared: bool)
    requires p in m.inputs && Undisturbed(m, ops, p, spared)
    ensures var m' := Run(m, ops);
            && p in m'.inputs && SameContent(m'.inputs[p], m.inputs[p])
            && ((forall op :: op in ops ==> !(op.Register? && op.p == p)) ==> m'.inputs[p] == m.inputs[p])
    decreases |ops|
  {
    hide Touches, Before, Clearable, Apply;
    if ops != [] {
      assert ops[0] in ops;
      StepSpares(m, ops[0], p, spared);
      UndisturbedLasts(Apply(m, ops[0]), ops[1..], p, spared);
    }
  }

  // Main result: a channel with a deadline survives every untouched run before the deadline, with
  // its content, and the first evaluation at or past the deadline removes it.
  lemma ExpiresOnTime(m: Mux, ops: seq<Op>, p: int, spared: bool, now: int)
    requires p in m.inputs && m.inputs[p].timeoutTime > 0
    requires spared ==> !Clearable(m.inputs[p], p)
    requires forall op :: op in ops ==> !Touches(op, p, spared) && Before(op, m.inputs[p].timeoutTime)
    ensures var m' := Run(m, ops);
            && p in m'.inputs && SameContent(m'.inputs[p], m.inputs[p])
            && (p in Apply(m', Tick(now)).inputs <==> now < m.inputs[p].timeoutTime)
  {
    hide Lowest, TimeoutSignals, Touches, Before, Clearable, Run;
    UndisturbedLasts(m, ops, p, spared);
  }

  // Main result, for every timeout: what was set is what the channel shows, at once and after
  // every undisturbed run, with the deadline counted from the call; the other kind of content and
  // who registered the channel stay.
  lemma SetContentLasts(m: Mux, p: int, content: Content, timeout: int, now: int, ops: seq<Op>, spared: bool)
    requires p in m.inputs && now >= 0
    requires spared ==> !Clearable(m.inputs[p], p)
    requires forall op :: op in ops ==> !Touches(op, p, spared) && (timeout > 0 ==> Before(op, now + timeout))
    ensures var was, info := m.inputs[p], GetInputInfo(Run(SetInput(m, p, content, timeout, now), ops), p);
            && info.timeoutTime == (if timeout > 0 then now + timeout else timeout)
            && info.ledColors == (if content.Leds? then content.colors else was.ledColors)
            && info.image == (if content.Picture? then content.image else was.image)
            && ((forall op :: op in ops ==> !(op.Register? && op.p == p)) ==>
                  info == was.(timeoutTime := info.timeoutTime, ledColors := info.ledColors, image := info.image))
  {
    hide Lowest, TimeoutSignals, Touches, Before, Run;
    var m' := SetInput(m, p, content, timeout, now);
    assert p in m'.inputs && m'.inputs[p] == Filled(m.inputs[p], content, Deadline(timeout, now));
    UndisturbedLasts(m', ops, p, spared);
  }

  // Registering names the channel for every undisturbed run until it is registered again; a known
  // one keeps its content and deadline, a new one is inactive and empty.
  lemma RegisteredAsLasts(m: Mux, p: int, c: Component, origin: string, owner: string, smoothCfg: nat, ops: seq<Op>,
                          spared: bool)
    requires var m' := RegisterInput(m, p, c, origin, owner, smoothCfg);
             p in m'.inputs && Undisturbed(m', ops, p, spared)
    requires forall op :: op in ops ==> !(op.Register? && op.p == p)
    ensures var info := GetInputInfo(Run(RegisterInput(m, p, c, origin, owner, smoothCfg), ops), p);
            && info.priority == p && info.component == c && info.origin == origin && info.owner == owner
            && info.smoothCfg == smoothCfg
            && (if p in m.inputs then SameContent(info, m.inputs[p])
                else info.timeoutTime == INACTIVE && info.ledColors == [] && info.image == Image(1, 1, [BLACK]))
  {
    hide Run, Undisturbed;
    UndisturbedLasts(RegisterInput(m, p, c, origin, owner, smoothCfg), ops, p, spared);
  }

  predicate SameState(a: Mux, b: Mux) {
    a.(signals := []) == b.(signals := [])
  }

  // Main result: evaluating twice is evaluating once at the later time, the fall-back from a
  // manual selection included.
  lemma EvaluateTwice(m: Mux, now1: int, now2: int)
    requires now1 <= now2
    ensures SameState(Evaluate(Evaluate(m, now1), now2), Evaluate(m, now2))
  {
    hide Lowest, TimeoutSignals;
    KeptTwice(m.inputs, now1, now2);
  }

  lemma KeptTwice(inputs: map<int, InputInfo>, now1: int, now2: int)
    requires now1 <= now2
    ensures Kept(Kept(inputs, now1), now2) == Kept(inputs, now2)
  {
    var twice, once := Kept(Kept(inputs, now1), now2), Kept(inputs, now2);
    assert forall k :: k in once ==> k in Kept(inputs, now1) && k in twice && twice[k] == once[k];
    assert forall k :: k in twice ==> k in once;
  }

  // ---------------------------------------------------------------- clearing all

  ghost function Targets(m: Mux, keys: seq<int>): set<int> {
    set k | k in keys && k in m.inputs && Clearable(m.inputs[k], k)
  }

  // Clearing one more channel of an already evaluated state is evaluating with both removed.
  lemma ClearOneMore(m: Mux, gone: set<int>, k: int, now: int)
    requires k < LOWEST_PRIORITY && k in m.inputs
    ensures var m' := Evaluate(m.(inputs := m.inputs - gone), now);
            SameState(ClearInput(m', k, now), Evaluate(m.(inputs := m.inputs - (gone + {k})), now))
  {
    hide Lowest, TimeoutSignals;
    var m' := Evaluate(m.(inputs := m.inputs - gone), now);
    assert Kept(m'.inputs - {k}, now) == Kept(m.inputs - (gone + {k}), now);
    assert k !in m'.inputs ==> Kept(m.inputs - gone, now) == Kept(m.inputs - (gone + {k}), now);
  }

  lemma ClearSame(a: Mux, b: Mux, k: int, now: int)
    requires SameState(a, b)
    ensures SameState(ClearInput(a, k, now), ClearInput(b, k, now))
    ensures GetInputInfo(a, k) == GetInputInfo(b, k)
  {
    hide Lowest, TimeoutSignals;
  }

  lemma {:induction false} ClearEachExact(m: Mux, s: Mux, gone: set<int>, keys: seq<int>, now: int)
    requires gone <= m.inputs.Keys && forall k :: k in keys ==> k in m.inputs
    requires if gone == {} then s == m else SameState(s, Evaluate(m.(inputs := m.inputs - gone), now))
    ensures var all := gone + Targets(m, keys);
            var s' := ClearEach(s, keys, now);
            if all == {} then s' == m else SameState(s', Evaluate(m.(inputs := m.inputs - all), now))
    decreases |keys|
  {
    hide Evaluate;
    if keys == [] {
      assert gone + Targets(m, keys) == gone;
    } else {
      var k := keys[0];
      var gone' := if Clearable(m.inputs[k], k) then gone + {k} else gone;
      var s' := if Clearable(GetInputInfo(s, k), k) then ClearInput(s, k, now) else s;
      ClearEachStep(m, s, gone, k, now);
      assert gone' + Targets(m, keys[1..]) == gone + Targets(m, keys);
      ClearEachExact(m, s', gone', keys[1..], now);
    }
  }

  lemma ClearEachStep(m: Mux, s: Mux, gone: set<int>, k: int, now: int)
    requires gone <= m.inputs.Keys && k in m.inputs
    requires if gone == {} then s == m else SameState(s, Evaluate(m.(inputs := m.inputs - gone), now))
    ensures var gone' := if Clearable(m.inputs[k], k) then gone + {k} else gone;
            var s' := if Clearable(GetInputInfo(s, k), k) then ClearInput(s, k, now) else s;
            if gone' == {} then s' == m else SameState(s', Evaluate(m.(inputs := m.inputs - gone'), now))
  {
    hide Lowest, TimeoutSignals;
    if gone == {} {
      assert {} + {k} == {k};
    } else {
      var e := Evaluate(m.(inputs := m.inputs - gone), now);
      ClearSame(s, e, k, now);
      if Clearable(m.inputs[k], k) {
        ClearOneMore(m, gone, k, now);
      }
    }
  }

  // The channels a clear without force is for.
  function ColorsAndEffects(m: Mux): set<int> {
    set k | k in m.inputs && k < 254 && (m.inputs[k].component == ColorSource || m.inputs[k].component == EffectSource)
  }

  // Main result: the loop over all channels removes exactly the colour and effect channels below
  // 254 at once, evaluates the rest at the given time, and does nothing if there are none.
  lemma ClearAllExact(m: Mux, now: int)
    ensures var targets := ColorsAndEffects(m);
            if targets == {} then ClearAll(m, false, now) == m
            else SameState(ClearAll(m, false, now), Evaluate(m.(inputs := m.inputs - targets), now))
  {
    hide Evaluate;
    var keys := Sorted(m.inputs.Keys);
    SortedHolds(m.inputs.Keys);
    ClearEachExact(m, m, {}, keys, now);
    assert {} + Targets(m, keys) == ColorsAndEffects(m);
  }

  // What is left when everything is cleared.
  lemma ClearAllLeaves(m: Mux, now: int)
    ensures var m', targets := ClearAll(m, false, now), ColorsAndEffects(m);
            forall p :: p in m'.inputs <==>
              p in m.inputs && p !in targets && (targets == {} || !Expired(m.inputs[p], now))
    ensures ColorsAndEffects(ClearAll(m, false, now)) == {}
  {
    hide Lowest, TimeoutSignals, ClearAll;
    ClearAllExact(m, now);
  }

  lemma ForcedClearLeaves(m: Mux, now: int)
    ensures var m' := ClearAll(m, true, now);
            m'.inputs.Keys == {255} && m'.current == 255 && m'.inputs[255] == m.lowestInfo && m'.auto == m.auto
  {
  }

  // A channel that is gone reads as the lowest one, which keeps what it shows.
  lemma ClearedReadsLowest(m: Mux, p: int, now: int)
    requires WellKeyed(m) && VisibleRegistered(m) && p < 255
    ensures var info := GetInputInfo(ClearInput(m, p, now), p);
            info == m.inputs[255] && info.priority == 255
  {
    hide Lowest, TimeoutSignals;
  }

  // ---------------------------------------------------------------- what an observer learns

  // What an observer of the signals knows.
  datatype Known = Known(channels: set<int>, active: set<int>, visible: int, auto: bool)

  const AT_START := Known({LOWEST_PRIORITY}, {LOWEST_PRIORITY}, LOWEST_PRIORITY, true)

  function Heard(k: Known, s: Signal): Known {
    match s
    case PriorityChanged(p, added) =>
      k.(channels := if added then k.channels + {p} else k.channels - {p}, active := k.active - {p})
    case ActiveStateChanged(p, active) => k.(active := if active then k.active + {p} else k.active - {p})
    case AutoSelectChanged(enabled) => k.(auto := enabled)
    case VisiblePriorityChanged(p) => k.(visible := p)
  }

  function Replay(signals: seq<Signal>): Known {
    if signals == [] then AT_START else Heard(Replay(signals[..|signals| - 1]), signals[|signals| - 1])
  }

  function ActiveKeys(inputs: map<int, InputInfo>): set<int> {
    set k | k in inputs && inputs[k].timeoutTime != INACTIVE
  }

  // The signals since the start tell which channels exist, which of them are active and which is
  // visible; `gone` are channels whose removal is announced later.
  ghost predicate MirrorsBut(m: Mux, gone: set<int>) {
    var k := Replay(m.signals);
    && k.channels == m.inputs.Keys + gone
    && k.active - gone == ActiveKeys(m.inputs)
    && k.visible == m.current
  }

  ghost predicate Mirrors(m: Mux) {
    MirrorsBut(m, {})
  }

  // They also tell the mode.
  ghost predicate AnnouncesMode(m: Mux) {
    Replay(m.signals).auto == m.auto
  }

  predicate ByteKeys(m: Mux) {
    WellKeyed(m) && 0 <= m.current < 256 && forall k :: k in m.inputs ==> 0 <= k < 256
  }

  lemma OneMore(signals: seq<Signal>, s: Signal)
    ensures Replay(signals + [s]) == Heard(Replay(signals), s)
  {
    assert (signals + [s])[..|signals|] == signals;
  }

  ghost function ExpiredKeys(keys: set<int>, inputs: map<int, InputInfo>, now: int): set<int>
    requires keys <= inputs.Keys
  {
    set k | k in keys && Expired(inputs[k], now)
  }

  function Without(k: Known, gone: set<int>): Known {
    k.(channels := k.channels - gone, active := k.active - gone)
  }

  lemma {:induction false} TimeoutsHeard(signals: seq<Signal>, keys: set<int>, inputs: map<int, InputInfo>, now: int)
    requires keys <= inputs.Keys && forall k :: k in inputs ==> inputs[k].priority == k && 0 <= k < 256
    ensures Replay(signals + TimeoutSignals(keys, inputs, now)) ==
            Without(Replay(signals), ExpiredKeys(keys, inputs, now))
    decreases keys
  {
    hide Replay;
    if keys == {} {
      assert signals + TimeoutSignals(keys, inputs, now) == signals;
    } else {
      var k := MinOf(keys);
      var rest := TimeoutSignals(keys - {k}, inputs, now);
      var first := if Expired(inputs[k], now) then [PriorityChanged(U8(inputs[k].priority), false)] else [];
      assert signals + (first + rest) == (signals + first) + rest;
      if Expired(inputs[k], now) {
        OneMore(signals, PriorityChanged(U8(k), false));
      } else {
        assert signals + first == signals;
      }
      TimeoutsHeard(signals + first, keys - {k}, inputs, now);
      assert ExpiredKeys(keys, inputs, now) ==
             ExpiredKeys(keys - {k}, inputs, now) + if Expired(inputs[k], now) then {k} else {};
    }
  }

  lemma AppendIf(signals: seq<Signal>, cond: bool, s: Signal)
    ensures Replay(signals + (if cond then [s] else [])) == if cond then Heard(Replay(signals), s) else Replay(signals)
  {
    hide Replay;
    if cond {
      OneMore(signals, s);
    } else {
      assert signals + [] == signals;
    }
  }

  lemma KeptKeys(inputs: map<int, InputInfo>, now: int)
    ensures Kept(inputs, now).Keys == inputs.Keys - ExpiredKeys(inputs.Keys, inputs, now)
    ensures ActiveKeys(Kept(inputs, now)) == ActiveKeys(inputs) - ExpiredKeys(inputs.Keys, inputs, now)
  {
  }

  lemma EvaluateMirrors(m: Mux, gone: set<int>, now: int)
    requires ByteKeys(m) && gone !! m.inputs.Keys && MirrorsBut(m, gone)
    ensures ByteKeys(Evaluate(m, now)) && MirrorsBut(Evaluate(m, now), gone)
    ensures Replay(Evaluate(m, now).signals).auto == (Replay(m.signals).auto || (!m.auto && Evaluate(m, now).auto))
  {
    hide Replay, TimeoutSignals, MinOf, Lowest, ExpiredKeys, ActiveKeys;
    var kept := Kept(m.inputs, now);
    var fallBack := !m.auto && m.manual !in kept;
    var visible := if !m.auto && m.manual in kept then m.manual else Lowest(kept);
    var s0 := m.signals + TimeoutSignals(m.inputs.Keys, m.inputs, now);
    TimeoutsHeard(m.signals, m.inputs.Keys, m.inputs, now);
    KeptKeys(m.inputs, now);
    ExpiredAreKeys(m.inputs, now);
    AppendIf(s0, fallBack, AutoSelectChanged(true));
    var s1 := s0 + if fallBack then [AutoSelectChanged(true)] else [];
    AppendIf(s1, visible != m.current, VisiblePriorityChanged(U8(visible)));
  }

  lemma ExpiredAreKeys(inputs: map<int, InputInfo>, now: int)
    ensures ExpiredKeys(inputs.Keys, inputs, now) <= inputs.Keys
  {
  }

  predicate ByteOp(op: Op) {
    op.Register? ==> 0 <= op.p < 256
  }

  lemma ClearMirrors(m: Mux, p: int, now: int)
    requires ByteKeys(m) && Mirrors(m)
    ensures ByteKeys(ClearInput(m, p, now)) && Mirrors(ClearInput(m, p, now))
    ensures AnnouncesMode(m) ==> AnnouncesMode(ClearInput(m, p, now))
  {
    hide Replay, Evaluate;
    if p < LOWEST_PRIORITY && p in m.inputs {
      var cut := m.(inputs := m.inputs - {p});
      assert m.inputs.Keys == cut.inputs.Keys + {p} && ActiveKeys(cut.inputs) == ActiveKeys(m.inputs) - {p};
      EvaluateMirrors(cut, {p}, now);
      EvaluateShrinks(cut, now);
      OneMore(Evaluate(cut, now).signals, PriorityChanged(U8(p), false));
    }
  }

  lemma EvaluateShrinks(m: Mux, now: int)
    ensures Evaluate(m, now).inputs.Keys <= m.inputs.Keys
    ensures m.auto ==> Evaluate(m, now).auto
  {
  }

  lemma {:induction false} ClearEachMirrors(m: Mux, keys: seq<int>, now: int)
    requires ByteKeys(m) && Mirrors(m)
    ensures ByteKeys(ClearEach(m, keys, now)) && Mirrors(ClearEach(m, keys, now))
    ensures AnnouncesMode(m) ==> AnnouncesMode(ClearEach(m, keys, now))
    decreases |keys|
  {
    hide Mirrors, AnnouncesMode, ByteKeys, ClearInput;
    if keys != [] {
      ClearMirrors(m, keys[0], now);
      ClearEachMirrors(
        if Clearable(GetInputInfo(m, keys[0]), keys[0]) then ClearInput(m, keys[0], now) else m, keys[1..], now);
    }
  }

  lemma PlainEvaluateMirrors(m: Mux, now: int)
    requires ByteKeys(m) && Mirrors(m)
    ensures ByteKeys(Evaluate(m, now)) && Mirrors(Evaluate(m, now))
    ensures AnnouncesMode(m) ==> AnnouncesMode(Evaluate(m, now))
  {
    hide Replay, Evaluate;
    EvaluateMirrors(m, {}, now);
    EvaluateShrinks(m, now);
  }

  lemma AutoSelectMirrors(m: Mux, enable: bool, now: int)
    requires ByteKeys(m) && Mirrors(m)
    ensures var m' := SetAutoSelect(m, enable, true, now);
            && ByteKeys(m') && Mirrors(m')
            && (AnnouncesMode(m) ==>
                  (AnnouncesMode(m') <==>
                   !(m.auto && !enable && m.manual in m.inputs && Expired(m.inputs[m.manual], now))))
  {
    hide Replay, Evaluate;
    if CanSetAuto(m, enable) {
      var m1 := m.(auto := enable);
      PlainEvaluateMirrors(m1, now);
      OneMore(Evaluate(m1, now).signals, AutoSelectChanged(enable));
      FallsBackIff(m1, now);
    }
  }

  lemma FallsBackIff(m: Mux, now: int)
    ensures Evaluate(m, now).auto <==> m.auto || m.manual !in m.inputs || Expired(m.inputs[m.manual], now)
  {
  }

  lemma SetMirrors(m: Mux, p: int, content: Content, timeout: int, now: int)
    requires ByteKeys(m) && Mirrors(m)
    ensures ByteKeys(SetInput(m, p, content, timeout, now)) && Mirrors(SetInput(m, p, content, timeout, now))
    ensures AnnouncesMode(m) ==> AnnouncesMode(SetInput(m, p, content, timeout, now))
  {
    hide Replay, Evaluate;
    if p in m.inputs {
      var due := Deadline(timeout, now);
      var m1 := m.(inputs := m.inputs[p := Filled(m.inputs[p], content, due)]);
      assert m1.inputs.Keys == m.inputs.Keys;
      assert ActiveKeys(m1.inputs) ==
             if due != INACTIVE then ActiveKeys(m.inputs) + {p} else ActiveKeys(m.inputs) - {p};
      if (m.inputs[p].timeoutTime == INACTIVE) != (due == INACTIVE) {
        var m2 := m1.(signals := m.signals + [ActiveStateChanged(U8(p), due != INACTIVE)]);
        OneMore(m.signals, ActiveStateChanged(U8(p), due != INACTIVE));
        PlainEvaluateMirrors(m2, now);
      }
    }
  }

  lemma RegisterMirrors(m: Mux, p: int, c: Component, origin: string, owner: string, smoothCfg: nat)
    requires ByteKeys(m) && Mirrors(m) && 0 <= p < 256
    ensures var m' := RegisterInput(m, p, c, origin, owner, smoothCfg);
            ByteKeys(m') && Mirrors(m') && (AnnouncesMode(m) ==> AnnouncesMode(m'))
  {
    hide Replay;
    var m' := RegisterInput(m, p, c, origin, owner, smoothCfg);
    OneMore(m.signals, PriorityChanged(U8(p), true));
    assert m'.inputs.Keys == m.inputs.Keys + {p} && ActiveKeys(m'.inputs) == ActiveKeys(m.inputs);
  }

  lemma ForcedMirrors(m: Mux, now: int)
    requires ByteKeys(m) && Mirrors(m)
    ensures var m' := ClearAll(m, true, now);
            && ByteKeys(m')
            && (Mirrors(m') <==> ForcedChangesNothing(m))
            && (AnnouncesMode(m) ==> AnnouncesMode(m'))
  {
    hide Replay;
    assert m.inputs.Keys == {LOWEST_PRIORITY} ==>
             (LOWEST_PRIORITY in ActiveKeys(m.inputs) <==> m.inputs[LOWEST_PRIORITY].timeoutTime != INACTIVE);
  }

  // There is nothing but channel 255, as active as a forced clear leaves it.
  predicate ForcedChangesNothing(m: Mux) {
    && m.inputs.Keys == {LOWEST_PRIORITY} && m.current == LOWEST_PRIORITY
    && (m.inputs[LOWEST_PRIORITY].timeoutTime == INACTIVE <==> m.lowestInfo.timeoutTime == INACTIVE)
  }

  // An overdue channel is selected, or returned to, in automatic mode.
  predicate SelectsOverdue(m: Mux, op: Op) {
    match op
    case Select(p, now) => m.auto && p in m.inputs && Expired(m.inputs[p], now)
    case AutoSelect(enable, now) => m.auto && !enable && m.manual in m.inputs && Expired(m.inputs[m.manual], now)
    case _ => false
  }

  // Main result: an observer of the signals knows the registered channels, the active ones and the
  // visible one after every operation; a forced clear, which emits nothing, keeps that exactly
  // when it changes nothing. The mode is known too, exactly unless an overdue channel is selected:
  // then the fall-back to automatic mode is announced before the manual mode it undoes.
  lemma OpMirrorsIff(m: Mux, op: Op)
    requires ByteKeys(m) && Mirrors(m) && ByteOp(op)
    ensures ByteKeys(Apply(m, op))
    ensures Mirrors(Apply(m, op)) <==> (op.ClearEverything? && op.force ==> ForcedChangesNothing(m))
    ensures AnnouncesMode(m) ==> (AnnouncesMode(Apply(m, op)) <==> !SelectsOverdue(m, op))
  {
    hide Replay, Evaluate, Sorted, ClearAll, ClearInput, SetInput, SetAutoSelect, RegisterInput, ActiveKeys;
    match op {
      case Register(p, c, origin, owner, smoothCfg) => RegisterMirrors(m, p, c, origin, owner, smoothCfg);
      case Set(p, content, timeout, now) => SetMirrors(m, p, content, timeout, now);
      case Clear(p, now) => ClearMirrors(m, p, now);
      case ClearEverything(force, now) =>
        if force { ForcedMirrors(m, now); } else { ClearAllMirrors(m, now); }
      case Select(p, now) => AutoSelectMirrors(m.(manual := p), false, now);
      case AutoSelect(enable, now) => AutoSelectMirrors(m, enable, now);
      case Tick(now) => PlainEvaluateMirrors(m, now);
    }
  }

  lemma ClearAllMirrors(m: Mux, now: int)
    requires ByteKeys(m) && Mirrors(m)
    ensures ByteKeys(ClearAll(m, false, now)) && Mirrors(ClearAll(m, false, now))
    ensures AnnouncesMode(m) ==> AnnouncesMode(ClearAll(m, false, now))
  {
    hide ByteKeys, Mirrors, AnnouncesMode, Sorted, ClearEach;
    ClearEachMirrors(m, Sorted(m.inputs.Keys), now);
  }

  // The same over any run without forced clears.
  lemma {:induction false} SignalsMirrorRuns(m: Mux, ops: seq<Op>)
    requires ByteKeys(m) && Mirrors(m)
    requires forall op :: op in ops ==> ByteOp(op) && !(op.ClearEverything? && op.force)
    ensures Mirrors(Run(m, ops))
    decreases |ops|
  {
    hide ByteKeys, Mirrors, Apply, ByteOp;
    if ops != [] {
      assert ops[0] in ops;
      OpMirrorsIff(m, ops[0]);
      SignalsMirrorRuns(Apply(m, ops[0]), ops[1..]);
    }
  }

  // ---------------------------------------------------------------- starting point, selection

  // A new muxer shows black on all LEDs, cannot be asked for manual mode before a channel was
  // selected, and satisfies everything the results about runs ask for.
  lemma InitialIsGood(ledCount: nat)
    ensures var m := Initial(ledCount); var info := GetInputInfo(m, m.current);
            && |info.ledColors| == ledCount && (forall c :: c in info.ledColors ==> c == BLACK)
            && forall now :: SetAutoSelect(m, false, true, now) == m
    ensures var m := Initial(ledCount);
            && AutoShowsLowest(m) && VisibleRegistered(m) && ManualRegistered(m) && ByteKeys(m) && Mirrors(m)
            && AnnouncesMode(m)
  {
    LowestUnique(Initial(ledCount).inputs, LOWEST_PRIORITY);
  }

  // Selecting a registered channel shows it at once exactly if selection was automatic and the
  // channel is not overdue; in manual mode the shown channel stays until the next evaluation,
  // which shows the selected one exactly if it is not overdue then.
  lemma SelectShowsIff(m: Mux, p: int, now: int, next: int)
    requires p in m.inputs && p < LOWEST_PRIORITY && now <= next
    ensures SetPriority(m, p, now).current == p <==>
            (if m.auto then !Expired(m.inputs[p], now) else m.current == p)
    ensures Evaluate(SetPriority(m, p, now), next).current == p <==> !Expired(m.inputs[p], next)
  {
    hide MinOf, TimeoutSignals;
    assert p in Kept(m.inputs, now) <==> !Expired(m.inputs[p], now);
    assert p in Kept(m.inputs, next) <==> !Expired(m.inputs[p], next);
    KeptTwice(m.inputs, now, next);
  }

  // Automatic mode can always be asked for; manual mode only while the channel selected last is
  // there and not overdue. Selecting a channel that does not exist changes nothing.
  lemma ModeFollowsIff(m: Mux, enable: bool, p: int, now: int)
    ensures SetAutoSelect(m, enable, true, now).auto == enable <==>
            enable || !m.auto || (m.manual in m.inputs && !Expired(m.inputs[m.manual], now))
    ensures p !in m.inputs ==> SetPriority(m, p, now) == m
  {
    hide Lowest, TimeoutSignals;
    FallsBackIff(m.(auto := enable), now);
  }

  // ---------------------------------------------------------------- the failing cases, reached

  function RegisterColor(p: int): Op {
    Register(p, ColorSource, "", "", 0)
  }

  // Taking a channel from endless to a timeout of -2 leaves it visible though it is not active.
  lemma InactiveStaysVisible(ledCount: nat)
    ensures var m := Apply(Apply(Initial(ledCount), RegisterColor(5)), Set(5, Leds([]), -1, 0));
            var m' := Apply(m, Set(5, Leds([]), -2, 0));
            && AutoShowsLowest(m) && m'.auto && m'.current == 5 && Lowest(m'.inputs) == LOWEST_PRIORITY
  {
    hide Lowest, TimeoutSignals;
    InitialIsGood(ledCount);
    var m1 := Apply(Initial(ledCount), RegisterColor(5));
    OpKeepsLowest(Initial(ledCount), RegisterColor(5));
    var m := Apply(m1, Set(5, Leds([]), -1, 0));
    OpKeepsLowest(m1, Set(5, Leds([]), -1, 0));
    LowestUnique(m.inputs, 5);
    LowestUnique(Apply(m, Set(5, Leds([]), -2, 0)).inputs, LOWEST_PRIORITY);
  }

  // A second selection in manual mode does not show.
  lemma SecondSelectionHidden(ledCount: nat, now: int)
    ensures var m := Apply(Apply(Apply(Initial(ledCount), RegisterColor(5)), RegisterColor(6)), Select(5, now));
            var m' := Apply(m, Select(6, now));
            m.current == 5 && m'.manual == 6 && m'.current == 5
  {
    hide Lowest, TimeoutSignals;
    var m := Apply(Apply(Initial(ledCount), RegisterColor(5)), RegisterColor(6));
    SelectShowsIff(m, 5, now, now);
    SelectShowsIff(Apply(m, Select(5, now)), 6, now, now);
  }

  // Selecting a channel whose deadline has passed announces manual mode last, in automatic mode.
  lemma OverdueSelectionMisleads(ledCount: nat)
    ensures var m := Apply(Apply(Initial(ledCount), RegisterColor(5)), Set(5, Leds([]), 100, 0));
            var m' := Apply(m, Select(5, 200));
            AnnouncesMode(m) && m'.auto && !AnnouncesMode(m')
  {
    hide Lowest, TimeoutSignals, Mirrors, AnnouncesMode;
    InitialIsGood(ledCount);
    var m1 := Apply(Initial(ledCount), RegisterColor(5));
    OpMirrorsIff(Initial(ledCount), RegisterColor(5));
    OpMirrorsIff(m1, Set(5, Leds([]), 100, 0));
    var m := Apply(m1, Set(5, Leds([]), 100, 0));
    OpMirrorsIff(m, Select(5, 200));
  }

  // A forced clear keeps a manual selection of a channel that is gone, and nobody hears of it.
  lemma ForcedClearForgets(ledCount: nat, now: int)
    ensures var m := Apply(Apply(Initial(ledCount), RegisterColor(5)), Select(5, now));
            var m' := Apply(m, ClearEverything(true, now));
            && ManualRegistered(m) && Mirrors(m) && !ManualRegistered(m') && !Mirrors(m')
  {
    hide Lowest, TimeoutSignals, Mirrors;
    InitialIsGood(ledCount);
    var m1 := Apply(Initial(ledCount), RegisterColor(5));
    OpMirrorsIff(Initial(ledCount), RegisterColor(5));
    var m := Apply(m1, Select(5, now));
    OpMirrorsIff(m1, Select(5, now));
    OpMirrorsIff(m, ClearEverything(true, now));
    SelectShowsIff(m1, 5, now, now);
    OpKeepsManualIff(m, ClearEverything(true, now));
  }
}

module PriorityMuxing {
  import opened Colors
  import opened Images
  import opened MuxerSpec
  import opened Arithmetic

  class PriorityMuxer {
    var currentPriority: int
    var manualSelectedPriority: int
    var activeInputs: map<int, InputInfo>
    const lowestPriorityInfo: InputInfo
    var sourceAutoSelectEnabled: bool
    // What was emitted.
    var signals: seq<Signal>

    constructor (ledCount: nat)
      ensures Valid() && Model() == Initial(ledCount)
    {
      lowestPriorityInfo := LowestInfo(ledCount);
      currentPriority, manualSelectedPriority := LOWEST_PRIORITY, 256;
      sourceAutoSelectEnabled := true;
      activeInputs := map[LOWEST_PRIORITY := LowestInfo(ledCount)];
      signals := [];
    }

    ghost function Model(): Mux
      reads this
    {
      Mux(activeInputs, currentPriority, manualSelectedPriority, sourceAutoSelectEnabled, lowestPriorityInfo, signals)
    }

    ghost predicate Valid()
      reads this
    {
      WellKeyed(Model())
    }

    method SetSourceAutoSelectEnabled(enable: bool, update: bool, now: int) returns (changed: bool)
      requires Valid()
      modifies this
      ensures Valid()
      ensures changed == CanSetAuto(old(Model()), enable)
      ensures Model() == SetAutoSelect(old(Model()), enable, update, now)
      decreases if update then 2 else 0
    {
      if sourceAutoSelectEnabled != enable {
        if !enable && manualSelectedPriority !in activeInputs {
          return false;
        }
        sourceAutoSelectEnabled := enable;
        if update {
          SetCurrentTime(now);
        }
        signals := signals + [AutoSelectChanged(enable)];
        return true;
      }
      return false;
    }

    method SetPriority(priority: Byte, now: int) returns (found: bool)
      requires Valid()
      modifies this
      ensures Valid() && found == (priority in old(activeInputs))
      ensures Model() == MuxerSpec.SetPriority(old(Model()), priority, now)
    {
      if priority in activeInputs {
        manualSelectedPriority := priority;
        var _ := SetSourceAutoSelectEnabled(false, true, now);
        return true;
      }
      return false;
    }

    method GetInputInfo(priority: int) returns (info: InputInfo)
      ensures info == MuxerSpec.GetInputInfo(Model(), priority)
    {
      if priority in activeInputs {
        return activeInputs[priority];
      }
      if LOWEST_PRIORITY in activeInputs {
        return activeInputs[LOWEST_PRIORITY];
      }
      return lowestPriorityInfo;
    }

    method RegisterInput(priority: int, component: Component, origin: string, owner: string, smoothCfg: nat)
      requires Valid()
      modifies this
      ensures Valid()
      ensures Model() == MuxerSpec.RegisterInput(old(Model()), priority, component, origin, owner, smoothCfg)
    {
      var newInput := priority !in activeInputs;
      var input := if newInput then InputInfo(0, 0, [], EMPTY_IMAGE, OtherSource, "", 0, "")
                   else activeInputs[priority];
      input := input.(priority := priority, timeoutTime := if newInput then INACTIVE else input.timeoutTime,
                      component := component, origin := origin, smoothCfg := smoothCfg, owner := owner);
      activeInputs := activeInputs[priority := input];
      if newInput {
        signals := signals + [PriorityChanged(U8(priority), true)];
      }
    }

    // setInput and setInputImage differ only in the field they write.
    method Fill(priority: int, content: Content, timeout_ms: int, now: int) returns (found: bool)
      requires Valid()
      modifies this
      ensures Valid() && found == (priority in old(activeInputs))
      ensures Model() == MuxerSpec.SetInput(old(Model()), priority, content, timeout_ms, now)
    {
      if priority !in activeInputs {
        return false;
      }
      var timeout := timeout_ms;
      if timeout > 0 {
        timeout := now + timeout;
      }
      var input := activeInputs[priority];
      var activeChange, active := false, true;
      if input.timeoutTime == INACTIVE && timeout != INACTIVE {
        activeChange := true;
      } else if timeout == INACTIVE && input.timeoutTime != INACTIVE {
        active := false;
        activeChange := true;
      }
      input := input.(timeoutTime := timeout);
      match content {
        case Leds(colors) => input := input.(ledColors := colors);
        case Picture(image) => input := input.(image := image);
      }
      activeInputs := activeInputs[priority := input];
      if activeChange {
        signals := signals + [ActiveStateChanged(U8(priority), active)];
        SetCurrentTime(now);
      }
      return true;
    }

    method SetInput(priority: int, ledColors: seq<ColorRgb>, timeout_ms: int, now: int) returns (found: bool)
      requires Valid()
      modifies this
      ensures Valid() && found == (priority in old(activeInputs))
      ensures Model() == MuxerSpec.SetInput(old(Model()), priority, Leds(ledColors), timeout_ms, now)
    {
      found := Fill(priority, Leds(ledColors), timeout_ms, now);
    }

    method SetInputImage(priority: int, image: Image, timeout_ms: int, now: int) returns (found: bool)
      requires Valid()
      modifies this
      ensures Valid() && found == (priority in old(activeInputs))
      ensures Model() == MuxerSpec.SetInput(old(Model()), priority, Picture(image), timeout_ms, now)
    {
      found := Fill(priority, Picture(image), timeout_ms, now);
    }

    method SetInputInactive(priority: Byte, now: int) returns (found: bool)
      requires Valid()
      modifies this
      ensures Valid() && found == (priority in old(activeInputs))
      ensures Model() == MuxerSpec.SetInput(old(Model()), priority, Picture(EMPTY_IMAGE), INACTIVE, now)
    {
      found := SetInputImage(priority, EMPTY_IMAGE, INACTIVE, now);
    }

    method ClearInput(priority: int, now: int) returns (cleared: bool)
      requires Valid()
      modifies this
      ensures Valid() && cleared == (priority < LOWEST_PRIORITY && priority in old(activeInputs))
      ensures Model() == MuxerSpec.ClearInput(old(Model()), priority, now)
    {
      if priority < LOWEST_PRIORITY && priority in activeInputs {
        activeInputs := activeInputs - {priority};
        SetCurrentTime(now);
        signals := signals + [PriorityChanged(U8(priority), false)];
        return true;
      }
      return false;
    }

    method ClearAll(forceClearAll: bool, now: int)
      requires Valid()
      modifies this
      ensures Valid()
      ensures Model() == MuxerSpec.ClearAll(old(Model()), forceClearAll, now)
    {
      if forceClearAll {
        activeInputs := map[];
        currentPriority := LOWEST_PRIORITY;
        activeInputs := activeInputs[currentPriority := lowestPriorityInfo];
      } else {
        var keys := activeInputs.Keys;
        while keys != {}
          invariant Valid()
          invariant ClearEach(Model(), Sorted(keys), now) == MuxerSpec.ClearAll(old(Model()), false, now)
          decreases keys
        {
          assert MinOf(keys) in keys;
          var key :| key in keys && forall k :: k in keys ==> key <= k;
          assert key == MinOf(keys) && Sorted(keys)[1..] == Sorted(keys - {key});
          var info := GetInputInfo(key);
          if (info.component == ColorSource || info.component == EffectSource) && key < LOWEST_PRIORITY - 1 {
            var _ := ClearInput(key, now);
          }
          keys := keys - {key};
        }
      }
    }

    method SetCurrentTime(now: int)
      requires Valid()
      modifies this
      ensures Valid()
      ensures Model() == Evaluate(old(Model()), now)
      decreases 1
    {
      var newPriority := EraseExpired(now);
      if !sourceAutoSelectEnabled {
        if manualSelectedPriority in activeInputs {
          newPriority := manualSelectedPriority;
        } else {
          var _ := SetSourceAutoSelectEnabled(true, false, now);
        }
      }
      var changed := currentPriority != newPriority;
      currentPriority := newPriority;
      if changed {
        signals := signals + [VisiblePriorityChanged(U8(newPriority))];
      }
    }

    // The loop of setCurrentTime: erases while iterating in key order.
    method EraseExpired(now: int) returns (newPriority: int)
      requires Valid()
      modifies `activeInputs, `signals
      ensures Valid()
      ensures activeInputs == Kept(old(activeInputs), now)
      ensures signals == old(signals) + TimeoutSignals(old(activeInputs).Keys, old(activeInputs), now)
      ensures newPriority == Lowest(activeInputs)
    {
      hide Lowest, Active, Expired, TimeoutSignals;
      newPriority := LOWEST_PRIORITY;
      ghost var all := activeInputs;
      var ahead := activeInputs.Keys;
      while ahead != {}
        invariant ahead <= all.Keys && WellKeyed(old(Model()))
        invariant Scanned(all, ahead, activeInputs, newPriority, now)
        invariant signals + TimeoutSignals(ahead, all, now) ==
                  old(signals) + TimeoutSignals(all.Keys, all, now)
        decreases ahead
      {
        assert MinOf(ahead) in ahead;
        var key :| key in ahead && forall k :: k in ahead ==> key <= k;
        assert key == MinOf(ahead);
        TimeoutSignalsStep(ahead, all, now);
        ScanStep(all, ahead, activeInputs, newPriority, key, now);
        var info := activeInputs[key];
        if info.timeoutTime > 0 && info.timeoutTime <= now {
          activeInputs := activeInputs - {key};
          signals := signals + [PriorityChanged(U8(info.priority), false)];
        } else {
          if info.timeoutTime >= -1 {
            newPriority := Min(newPriority, info.priority);
          }
        }
        ahead := ahead - {key};
      }
      ScanDone(all, activeInputs, newPriority, now);
      NoTimeouts(all, now);
    }
  }
}
