// libsrc/blackborder/BlackBorderProcessor.cpp, updateBorder: when a detected border becomes the
// current one.

module BorderHysteresis {
  import opened Arithmetic

  datatype BlackBorder = BlackBorder(unknown: bool, horizontalSize: int, verticalSize: int)

  // operator== of BlackBorder: two unknown borders are the same whatever their sizes.
  predicate Same(a: BlackBorder, b: BlackBorder) {
    if a.unknown then b.unknown
    else !b.unknown && a.horizontalSize == b.horizontalSize && a.verticalSize == b.verticalSize
  }

  datatype Settings = Settings(unknownSwitchCnt: nat, borderSwitchCnt: nat, maxInconsistentCnt: nat)

  function SwitchCnt(p: Settings, b: BlackBorder): nat {
    if b.unknown then p.unknownSwitchCnt else p.borderSwitchCnt
  }

  datatype State = State(current: BlackBorder, previous: BlackBorder, consistent: nat, inconsistent: nat)

  const START := State(BlackBorder(true, -1, -1), BlackBorder(true, -1, -1), 0, 10)
  const NO_BORDER := BlackBorder(true, 0, 0)

  datatype Result = Result(state: State, changed: bool)

  function Update(p: Settings, s: State, b: BlackBorder): Result {
    if Same(b, s.previous) then Decide(p, s.(consistent := s.consistent + 1, inconsistent := 0), b)
    else if s.inconsistent + 1 <= p.maxInconsistentCnt then
      Result(s.(inconsistent := s.inconsistent + 1), false)
    else Decide(p, s.(previous := b, consistent := 0, inconsistent := s.inconsistent + 1), b)
  }

  function Decide(p: Settings, s: State, b: BlackBorder): Result {
    if Same(s.current, b) then Result(s.(inconsistent := 0), false)
    else if b.unknown then
      if s.consistent == p.unknownSwitchCnt then Result(s.(current := b), true) else Result(s, false)
    else if s.current.unknown || s.consistent == p.borderSwitchCnt then Result(s.(current := b), true)
    else Result(s, false)
  }

  // One image: analysed, or seen while detection is disabled.
  datatype Input = Detected(border: BlackBorder) | Disabled

  function Step(p: Settings, s: State, i: Input): State {
    match i
    case Detected(b) => Update(p, s, b).state
    case Disabled => s.(current := NO_BORDER)
  }

  function Run(p: Settings, inputs: seq<Input>): State {
    if inputs == [] then START
    else Step(p, Run(p, inputs[..|inputs| - 1]), inputs[|inputs| - 1])
  }

  lemma RunMore(p: Settings, inputs: seq<Input>, i: Input)
    ensures Run(p, inputs + [i]) == Step(p, Run(p, inputs), i)
  {
    assert (inputs + [i])[..|inputs|] == inputs;
  }

  // ---------------------------------------------------------------- convergence

  // The counter has not passed the count that switches to the candidate, unless the switch
  // happened or needs no counting.
  predicate CanSwitch(p: Settings, s: State) {
    || Same(s.current, s.previous)
    || s.consistent < SwitchCnt(p, s.previous)
    || (s.current.unknown && !s.previous.unknown)
  }

  lemma {:induction false} AlwaysCanSwitch(p: Settings, inputs: seq<Input>)
    ensures CanSwitch(p, Run(p, inputs))
  {
    if inputs != [] {
      AlwaysCanSwitch(p, inputs[..|inputs| - 1]);
    }
  }

  function Feed(p: Settings, s: State, b: BlackBorder, n: nat): State
    decreases n
  {
    if n == 0 then s else Feed(p, Update(p, s, b).state, b, n - 1)
  }

  // The number of further frames showing b after which b is the current border.
  function FramesToSettle(p: Settings, s: State, b: BlackBorder): int {
    var candidateIn := if Same(s.previous, b) then 0 else Max(1, p.maxInconsistentCnt + 1 - s.inconsistent);
    if Same(s.current, b) then 0
    else if s.current.unknown then Max(1, candidateIn)
    else if Same(s.previous, b) then SwitchCnt(p, b) - s.consistent
    else candidateIn + SwitchCnt(p, b)
  }

  // Main result: unless b is a candidate whose counter is past the count, feeding b makes it
  // current after exactly FramesToSettle frames, and it stays current from then on.
  lemma {:induction false} SettlesExactly(p: Settings, s: State, b: BlackBorder, n: nat)
    requires CanSwitch(p, s) || !Same(s.previous, b)
    ensures Same(Feed(p, s, b, n).current, b) <==> n >= FramesToSettle(p, s, b)
    decreases n
  {
    if n > 0 {
      var s' := Update(p, s, b).state;
      assert CanSwitch(p, s') || !Same(s'.previous, b);
      assert FramesToSettle(p, s', b) == Max(0, FramesToSettle(p, s, b) - 1);
      SettlesExactly(p, s', b, n - 1);
    }
  }

  // Main result: the bound promised for every run, disabled frames included.
  lemma Converges(p: Settings, inputs: seq<Input>, b: BlackBorder, n: nat)
    requires n >= p.maxInconsistentCnt + 1 + (if b.unknown then p.unknownSwitchCnt else p.borderSwitchCnt)
    ensures var shown := Feed(p, Run(p, inputs), b, n).current;
            && shown.unknown == b.unknown
            && (!b.unknown ==> shown.horizontalSize == b.horizontalSize && shown.verticalSize == b.verticalSize)
  {
    AlwaysCanSwitch(p, inputs);
    SettlesExactly(p, Run(p, inputs), b, n);
  }

  // The test for equality, not >=, never switches to a candidate whose counter is past the count.
  lemma {:induction false} StuckOutside(p: Settings, s: State, b: BlackBorder, n: nat)
    requires !CanSwitch(p, s) && Same(s.previous, b)
    ensures !Same(Feed(p, s, b, n).current, b)
    decreases n
  {
    if n > 0 {
      StuckOutside(p, Update(p, s, b).state, b, n - 1);
    }
  }

  // Main result, stated exactly for any state at all, as a change of settings can leave it behind:
  // the bound holds if and only if b is not such a candidate.
  lemma ConvergesIff(p: Settings, s: State, b: BlackBorder, n: nat)
    requires n >= p.maxInconsistentCnt + 1 + SwitchCnt(p, b)
    ensures Same(Feed(p, s, b, n).current, b) <==> CanSwitch(p, s) || !Same(s.previous, b)
  {
    if CanSwitch(p, s) || !Same(s.previous, b) {
      SettlesExactly(p, s, b, n);
    } else {
      StuckOutside(p, s, b, n);
    }
  }

  // The failing case is reachable: a run that has counted two further frames of a new border when
  // the count is lowered from three to one never switches to it.
  lemma LoweredCountSticks(n: nat)
    ensures var was, p := Settings(600, 3, 0), Settings(600, 1, 0);
            var a, b := BlackBorder(false, 1, 1), BlackBorder(false, 2, 2);
            var s := Run(was, [Detected(a), Detected(b), Detected(b), Detected(b)]);
            && s.current == a && !CanSwitch(p, s) && Feed(was, s, b, 1).current == b
            && !Same(Feed(p, s, b, n).current, b)
  {
    var was, p := Settings(600, 3, 0), Settings(600, 1, 0);
    var a, b := BlackBorder(false, 1, 1), BlackBorder(false, 2, 2);
    var s1, s2, s3 := [Detected(a)], [Detected(a), Detected(b)], [Detected(a), Detected(b), Detected(b)];
    assert [] + s1 == s1 && s1 + [Detected(b)] == s2 && s2 + [Detected(b)] == s3;
    assert s3 + [Detected(b)] == [Detected(a), Detected(b), Detected(b), Detected(b)];
    RunMore(was, [], Detected(a));
    RunMore(was, s1, Detected(b));
    RunMore(was, s2, Detected(b));
    RunMore(was, s3, Detected(b));
    assert Run(was, []) == START;
    assert Feed(was, State(a, b, 2, 0), b, 1).current == b;
    hide Run, Feed;
    StuckOutside(p, State(a, b, 2, 0), b, n);
  }

  // ---------------------------------------------------------------- justification of a switch

  // The analysed frames among the inputs that show b.
  function Matches(inputs: seq<Input>, b: BlackBorder): nat {
    if inputs == [] then 0
    else
      var last := inputs[|inputs| - 1];
      Matches(inputs[..|inputs| - 1], b) + if last.Detected? && Same(last.border, b) then 1 else 0
  }

  // The analysed frames disagreeing with b since the last one that shows b.
  function TrailingMisses(inputs: seq<Input>, b: BlackBorder): nat {
    if inputs == [] then 0
    else
      var last, rest := inputs[|inputs| - 1], TrailingMisses(inputs[..|inputs| - 1], b);
      if last.Disabled? then rest else if Same(last.border, b) then 0 else rest + 1
  }

  ghost predicate MissBlocksAtMost(inputs: seq<Input>, b: BlackBorder, limit: nat) {
    forall k :: 0 <= k <= |inputs| ==> TrailingMisses(inputs[..k], b) <= limit
  }

  // Input j made its border the candidate, and everything after it in the window is accounted
  // for by the counters.
  ghost predicate CandidateSince(p: Settings, inputs: seq<Input>, j: int) {
    && 0 <= j < |inputs| && inputs[j].Detected?
    && var b, s, window := inputs[j].border, Run(p, inputs), inputs[j + 1..];
    && s.previous == b
    && !Same(Run(p, inputs[..j]).previous, b)
    && Run(p, inputs[..j + 1]).previous == b
    && Matches(window, b) == s.consistent
    && s.inconsistent == TrailingMisses(window, b)
                         + (if Matches(window, b) == 0 then Run(p, inputs[..j + 1]).inconsistent else 0)
    && MissBlocksAtMost(window, b, p.maxInconsistentCnt)
  }

  lemma CandidateStep(p: Settings, inputs: seq<Input>, i: Input, j: int)
    requires CandidateSince(p, inputs, j)
    requires Run(p, inputs + [i]).previous == Run(p, inputs).previous
    requires i.Detected? && !Same(i.border, Run(p, inputs).previous) ==>
               Run(p, inputs).inconsistent + 1 <= p.maxInconsistentCnt
    ensures CandidateSince(p, inputs + [i], j)
  {
    var next := inputs + [i];
    var window, b := inputs[j + 1..], inputs[j].border;
    assert next[..|inputs|] == inputs;
    assert next[j + 1..] == window + [i];
    assert (window + [i])[..|window|] == window;
    assert next[..j] == inputs[..j] && next[..j + 1] == inputs[..j + 1];
    forall k | 0 <= k <= |window| + 1
      ensures TrailingMisses((window + [i])[..k], b) <= p.maxInconsistentCnt
    {
      if k <= |window| {
        assert (window + [i])[..k] == window[..k];
      } else {
        assert (window + [i])[..k] == window + [i];
        assert window[..|window|] == window;
      }
    }
  }

  lemma NewCandidate(p: Settings, inputs: seq<Input>, b: BlackBorder)
    requires !Same(b, Run(p, inputs).previous)
    requires Run(p, inputs).inconsistent + 1 > p.maxInconsistentCnt
    ensures CandidateSince(p, inputs + [Detected(b)], |inputs|)
  {
    var next := inputs + [Detected(b)];
    assert next[..|inputs|] == inputs && next[..|inputs| + 1] == next;
    assert next[|inputs| + 1..] == [];
  }

  lemma {:induction false} HasCandidate(p: Settings, inputs: seq<Input>)
    ensures (exists j :: CandidateSince(p, inputs, j))
            || (Run(p, inputs).previous == START.previous && Run(p, inputs).current.unknown)
  {
    if inputs != [] {
      var before, i := inputs[..|inputs| - 1], inputs[|inputs| - 1];
      assert inputs == before + [i];
      HasCandidate(p, before);
      var s := Run(p, before);
      if i.Detected? && !Same(i.border, s.previous) && s.inconsistent + 1 > p.maxInconsistentCnt {
        NewCandidate(p, before, i.border);
      } else if exists j :: CandidateSince(p, before, j) {
        var j :| CandidateSince(p, before, j);
        CandidateStep(p, before, i, j);
      }
    }
  }

  // Main result: in every run, a known border is replaced by b only on the SwitchCnt(b)-th frame
  // showing b after b became the candidate, with no longer block of disagreeing frames in
  // between than the settings tolerate.
  lemma SwitchIsJustified(p: Settings, inputs: seq<Input>, b: BlackBorder)
    requires !Run(p, inputs).current.unknown && Update(p, Run(p, inputs), b).changed
    ensures var all := inputs + [Detected(b)];
            exists j :: && CandidateSince(p, all, j) && Same(all[j].border, b)
                        && Matches(all[j + 1..], all[j].border) == SwitchCnt(p, b)
  {
    var all := inputs + [Detected(b)];
    assert all[..|inputs|] == inputs;
    var s := Run(p, inputs);
    if Same(b, s.previous) {
      HasCandidate(p, inputs);
      var j :| CandidateSince(p, inputs, j);
      CandidateStep(p, inputs, Detected(b), j);
    } else {
      NewCandidate(p, inputs, b);
    }
  }

  // ---------------------------------------------------------------- how long a switch lasts

  predicate Quiet(p: Settings, s: State, bs: seq<BlackBorder>)
    decreases |bs|
  {
    bs == [] || (!Update(p, s, bs[0]).changed && Quiet(p, Update(p, s, bs[0]).state, bs[1..]))
  }

  function UpdateAll(p: Settings, s: State, bs: seq<BlackBorder>): State
    decreases |bs|
  {
    if bs == [] then s else UpdateAll(p, Update(p, s, bs[0]).state, bs[1..])
  }

  // What k frames after a switch can at most have counted towards the next one.
  predicate Earned(p: Settings, s: State, k: nat) {
    if Same(s.previous, s.current) then s.inconsistent <= k
    else p.maxInconsistentCnt + 1 + s.consistent <= k
  }

  lemma {:induction false} NextSwitchAfter(p: Settings, s: State, bs: seq<BlackBorder>, b: BlackBorder, k: nat)
    requires !s.current.unknown && Earned(p, s, k)
    requires Quiet(p, s, bs) && Update(p, UpdateAll(p, s, bs), b).changed
    ensures k + |bs| + 1 >= p.maxInconsistentCnt + 1 + SwitchCnt(p, b)
    decreases |bs|
  {
    if bs != [] {
      var s' := Update(p, s, bs[0]).state;
      assert s'.current == s.current && Earned(p, s', k + 1);
      NextSwitchAfter(p, s', bs[1..], b, k + 1);
    }
  }

  // Main result: once a known border was replaced by a known border, the next change of any kind
  // comes no earlier than maxInconsistentCnt + 1 + SwitchCnt frames later (SettlesExactly shows
  // that it can come exactly then).
  lemma SwitchDwells(p: Settings, s: State, a: BlackBorder, bs: seq<BlackBorder>, b: BlackBorder)
    requires p.borderSwitchCnt > 0
    requires !s.current.unknown && !a.unknown && Update(p, s, a).changed
    requires var s' := Update(p, s, a).state;
             Quiet(p, s', bs) && Update(p, UpdateAll(p, s', bs), b).changed
    ensures |bs| + 1 >= p.maxInconsistentCnt + 1 + SwitchCnt(p, b)
  {
    NextSwitchAfter(p, Update(p, s, a).state, bs, b, 0);
  }
}
