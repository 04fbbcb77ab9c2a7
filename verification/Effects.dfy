// libsrc/effectengine/EffectEngine.cpp and the channel operations of libsrc/hyperion/Hyperion.cpp:
// which running effect owns a priority channel.

module EffectSpec {
  import opened MuxerSpec

  // A started effect thread; `id` stands for the object's identity.
  datatype Running = Running(id: nat, priority: int, interrupted: bool)

  datatype World = World(effects: seq<Running>, mux: Mux, nextId: nat)

  function Interrupt(effects: seq<Running>, p: int): (r: seq<Running>)
    ensures |r| == |effects|
    ensures forall i :: 0 <= i < |r| ==>
              r[i] == effects[i].(interrupted := effects[i].interrupted || effects[i].priority == p)
  {
    if effects == [] then []
    else [effects[0].(interrupted := effects[0].interrupted || effects[0].priority == p)] + Interrupt(effects[1..], p)
  }

  // Everything but the background effect on 254.
  function InterruptAll(effects: seq<Running>): (r: seq<Running>)
    ensures |r| == |effects|
    ensures forall i :: 0 <= i < |r| ==>
              r[i] == effects[i].(interrupted := effects[i].interrupted || effects[i].priority != 254)
  {
    if effects == [] then []
    else [effects[0].(interrupted := effects[0].interrupted || effects[0].priority != 254)] + InterruptAll(effects[1..])
  }

  function RunScript(w: World, p: int, origin: string, name: string, smoothCfg: nat): World {
    World(Interrupt(w.effects, p) + [Running(w.nextId, p, false)],
          RegisterInput(w.mux, p, EffectSource, origin, name, smoothCfg), w.nextId + 1)
  }

  // Hyperion::clear; the muxer takes the priority as a byte.
  ghost function ClearChannelOf(w: World, p: int, now: int): World {
    w.(effects := Interrupt(w.effects, p), mux := ClearInput(w.mux, U8(p), now))
  }

  ghost function ClearAllChannels(w: World, force: bool, now: int): World {
    w.(effects := InterruptAll(w.effects), mux := ClearAll(w.mux, force, now))
  }

  // Hyperion::setInput and setInputImage; clearEffect is false when an effect calls.
  ghost function SetContent(w: World, p: int, content: Content, timeout: int, clearEffect: bool, now: int): World {
    w.(effects := if p in w.mux.inputs && clearEffect then Interrupt(w.effects, p) else w.effects,
       mux := SetInput(w.mux, p, content, timeout, now))
  }

  predicate DistinctIds(effects: seq<Running>, nextId: nat) {
    && (forall i, j :: 0 <= i < j < |effects| ==> effects[i].id != effects[j].id)
    && forall i :: 0 <= i < |effects| ==> effects[i].id < nextId
  }

  // The index of an effect in the list, or its length.
  function Find(effects: seq<Running>, id: nat): (i: nat)
    ensures i <= |effects| && (i < |effects| ==> effects[i].id == id)
    ensures forall k :: 0 <= k < i ==> effects[k].id != id
  {
    if effects == [] || effects[0].id == id then 0 else 1 + Find(effects[1..], id)
  }

  lemma FindAt(effects: seq<Running>, nextId: nat, i: nat)
    requires DistinctIds(effects, nextId) && i < |effects|
    ensures Find(effects, effects[i].id) == i
  {
    var at := Find(effects, effects[i].id);
    if i < at || (at < i && at < |effects|) {
      assert false;
    }
  }

  lemma {:induction false} FindAfterInterrupt(effects: seq<Running>, p: int, id: nat)
    ensures Find(Interrupt(effects, p), id) == Find(effects, id)
  {
    if effects != [] {
      FindAfterInterrupt(effects[1..], p, id);
      assert Interrupt(effects, p)[1..] == Interrupt(effects[1..], p);
    }
  }

  // effectFinished for one of the active effects.
  ghost function Finish(w: World, id: nat, now: int): World {
    var i := Find(w.effects, id);
    if i == |w.effects| then w
    else
      var e := w.effects[i];
      var w' := if e.interrupted then w else ClearChannelOf(w, e.priority, now);
      w'.(effects := w'.effects[..i] + w'.effects[i + 1..])
  }

  // ---------------------------------------------------------------- runs

  datatype Event =
    | Start(p: int, origin: string, name: string, smoothCfg: nat)
    | Finished(id: nat, now: int)
    | ClearChannel(p: int, now: int)
    | ClearEverything(force: bool, now: int)
    | Fed(p: int, content: Content, timeout: int, clearEffect: bool, now: int)
    | Other(op: Op)

  ghost function Apply(w: World, e: Event): World {
    match e
    case Start(p, origin, name, smoothCfg) => RunScript(w, p, origin, name, smoothCfg)
    case Finished(id, now) => Finish(w, id, now)
    case ClearChannel(p, now) => ClearChannelOf(w, p, now)
    case ClearEverything(force, now) => ClearAllChannels(w, force, now)
    case Fed(p, content, timeout, clearEffect, now) => SetContent(w, p, content, timeout, clearEffect, now)
    case Other(op) => w.(mux := MuxerSpec.Apply(w.mux, op))
  }

  ghost function Run(w: World, events: seq<Event>): World
    decreases |events|
  {
    if events == [] then w else Run(Apply(w, events[0]), events[1..])
  }

  // At most one effect per priority runs uninterrupted.
  ghost predicate SingleOwners(effects: seq<Running>, nextId: nat) {
    && DistinctIds(effects, nextId)
    && forall i, j :: 0 <= i < j < |effects| && effects[i].priority == effects[j].priority ==>
         effects[i].interrupted || effects[j].interrupted
  }

  ghost predicate OneOwner(w: World) {
    SingleOwners(w.effects, w.nextId)
  }

  lemma InterruptKeeps(effects: seq<Running>, nextId: nat, p: int)
    requires SingleOwners(effects, nextId)
    ensures SingleOwners(Interrupt(effects, p), nextId) && SingleOwners(InterruptAll(effects), nextId)
  {
  }

  lemma StartKeeps(effects: seq<Running>, nextId: nat, p: int)
    requires SingleOwners(effects, nextId)
    ensures SingleOwners(Interrupt(effects, p) + [Running(nextId, p, false)], nextId + 1)
  {
    InterruptKeeps(effects, nextId, p);
  }

  lemma DropKeeps(effects: seq<Running>, nextId: nat, i: nat)
    requires SingleOwners(effects, nextId) && i < |effects|
    ensures SingleOwners(effects[..i] + effects[i + 1..], nextId)
  {
  }

  lemma DropKeepsIds(effects: seq<Running>, nextId: nat, i: nat)
    requires DistinctIds(effects, nextId) && i < |effects|
    ensures DistinctIds(effects[..i] + effects[i + 1..], nextId)
  {
  }

  lemma EventKeepsOneOwner(w: World, e: Event)
    requires OneOwner(w)
    ensures OneOwner(Apply(w, e))
  {
    hide SingleOwners, Interrupt, InterruptAll, ClearInput, ClearAll, SetInput, RegisterInput, MuxerSpec.Apply;
    match e {
      case Start(p, _, _, _) => StartKeeps(w.effects, w.nextId, p);
      case Finished(id, now) =>
        var i := Find(w.effects, id);
        if i < |w.effects| {
          DropKeeps(w.effects, w.nextId, i);
          InterruptKeeps(w.effects, w.nextId, w.effects[i].priority);
          DropKeeps(Interrupt(w.effects, w.effects[i].priority), w.nextId, i);
        }
      case ClearChannel(p, _) => InterruptKeeps(w.effects, w.nextId, p);
      case ClearEverything(_, _) => InterruptKeeps(w.effects, w.nextId, 0);
      case Fed(p, _, _, _, _) => InterruptKeeps(w.effects, w.nextId, p);
      case Other(_) =>
    }
  }

  // Main result: in every reachable state at most one uninterrupted effect runs per priority.
  lemma {:induction false} AlwaysOneOwner(w: World, events: seq<Event>)
    requires OneOwner(w)
    ensures OneOwner(Run(w, events))
    decreases |events|
  {
    hide Apply, OneOwner;
    if events != [] {
      EventKeepsOneOwner(w, events[0]);
      AlwaysOneOwner(Apply(w, events[0]), events[1..]);
    }
  }

  // An effect that was replaced or cleared before finishing changes no channel when it finishes;
  // one that was not interrupted clears the channel it was started on.
  lemma FinishClearsIff(w: World, id: nat, now: int)
    requires OneOwner(w) && Find(w.effects, id) < |w.effects|
    requires WellKeyed(w.mux) && 0 <= w.effects[Find(w.effects, id)].priority < LOWEST_PRIORITY
    ensures var e := w.effects[Find(w.effects, id)]; var w' := Finish(w, id, now);
            && (e.interrupted ==> w'.mux == w.mux)
            && (!e.interrupted ==> e.priority !in w'.mux.inputs)
            && forall k :: 0 <= k < |w'.effects| ==> w'.effects[k].id != id
  {
    hide Lowest, TimeoutSignals;
  }

  // No effect with this identity is left that still runs.
  predicate Ended(w: World, id: nat) {
    id < w.nextId && forall k :: 0 <= k < |w.effects| && w.effects[k].id == id ==> w.effects[k].interrupted
  }

  // The four ways to end the effects of channel p: a new effect there, clearing the channel,
  // feeding it as somebody else, and clearing everything, which spares 254.
  predicate Ends(w: World, e: Event, p: int) {
    match e
    case Start(q, _, _, _) => q == p
    case ClearChannel(q, _) => q == p
    case Fed(q, _, _, clearEffect, _) => q == p && q in w.mux.inputs && clearEffect
    case ClearEverything(_, _) => p != 254
    case _ => false
  }

  lemma EndsEffect(w: World, e: Event, k: nat)
    requires OneOwner(w) && k < |w.effects| && Ends(w, e, w.effects[k].priority)
    ensures Ended(Apply(w, e), w.effects[k].id)
  {
    hide ClearInput, ClearAll, SetInput, RegisterInput, MuxerSpec.Apply;
    assert forall j :: 0 <= j < |w.effects| && w.effects[j].id == w.effects[k].id ==> j == k;
  }

  lemma EndedStays(w: World, e: Event, id: nat)
    requires Ended(w, id)
    ensures Ended(Apply(w, e), id)
  {
    hide ClearInput, ClearAll, SetInput, RegisterInput, MuxerSpec.Apply;
  }

  lemma {:induction false} EndedStaysRun(w: World, events: seq<Event>, id: nat)
    requires Ended(w, id)
    ensures Ended(Run(w, events), id)
    decreases |events|
  {
    hide Apply, Ended;
    if events != [] {
      EndedStays(w, events[0], id);
      EndedStaysRun(Apply(w, events[0]), events[1..], id);
    }
  }

  // Main result: whichever of the four ways ended an effect, and whatever happens until its thread
  // reports that it finished, the report changes no channel.
  lemma EndedNeverClears(w: World, e: Event, k: nat, events: seq<Event>, later: int)
    requires OneOwner(w) && k < |w.effects| && Ends(w, e, w.effects[k].priority)
    ensures var w' := Run(Apply(w, e), events);
            Finish(w', w.effects[k].id, later).mux == w'.mux
  {
    hide Apply, Run;
    EndsEffect(w, e, k);
    EndedStaysRun(Apply(w, e), events, w.effects[k].id);
  }

  // Clearing everything leaves no colour or effect channel below 254, or with force none but 255;
  // of the running effects exactly those on 254 go on.
  lemma ClearedEverything(w: World, force: bool, now: int)
    ensures var w' := ClearAllChannels(w, force, now);
            && (force ==> w'.mux.inputs.Keys == {255} && w'.mux.current == 255)
            && (!force ==> forall p :: p in w'.mux.inputs && p < 254 ==> w'.mux.inputs[p].component == OtherSource)
            && forall r: Running :: !r.interrupted ==> (r in w'.effects <==> r in w.effects && r.priority == 254)
  {
    hide Evaluate, ClearAll;
    ForcedClearLeaves(w.mux, now);
    ClearAllLeaves(w.mux, now);
    var left := ClearAll(w.mux, false, now);
    assert forall p :: p in left.inputs && p !in ColorsAndEffects(left) ==>
             p >= 254 || left.inputs[p].component == OtherSource;
    forall r: Running | r in w.effects && r.priority == 254
      ensures r in InterruptAll(w.effects)
    {
      NotInterruptedByAll(w.effects, r);
    }
  }

  // Clearing a priority ends its effects and removes the channel its low byte names.
  lemma ClearRemovesByte(w: World, p: int, now: int)
    requires p % 256 < 255
    ensures var w' := ClearChannelOf(w, p, now);
            && p % 256 !in w'.mux.inputs
            && forall r: Running :: !r.interrupted ==> (r in w'.effects <==> r in w.effects && r.priority != p)
  {
    hide Lowest, TimeoutSignals;
    forall r: Running | r in w.effects && r.priority != p
      ensures r in Interrupt(w.effects, p)
    {
      NotInterrupted(w.effects, r, p);
    }
  }

  // The effect `id` owns channel p, which no clock up to `limit` lets expire.
  ghost predicate Owns(w: World, id: nat, p: int, limit: int) {
    && Running(id, p, false) in w.effects
    && p in w.mux.inputs && (w.mux.inputs[p].timeoutTime <= 0 || limit <= w.mux.inputs[p].timeoutTime)
  }

  // Everything that may happen around the owner: other effects start, run, are cleared and
  // finish, everything is cleared around the background effect on 254, and the owner shows its
  // content with deadlines not before the limit.
  predicate Foreign(e: Event, id: nat, p: int, limit: int) {
    match e
    case Start(q, _, _, _) => q != p
    case Finished(other, now) => other != id && now < limit
    case ClearChannel(q, now) => 0 <= q < 256 && q != p && now < limit
    case ClearEverything(force, now) => !force && p == 254 && now < limit
    case Fed(q, _, timeout, clearEffect, now) =>
      now < limit && (q == p ==> !clearEffect && (timeout <= 0 || limit <= now + timeout))
    case Other(op) => !Touches(op, p, p == 254) && Before(op, limit)
  }

  predicate BytePriorities(w: World) {
    forall i :: 0 <= i < |w.effects| ==> 0 <= w.effects[i].priority < 256
  }

  lemma ClearOther(m: Mux, p: int, q: int, now: int, limit: int)
    requires p in m.inputs && q != p && now < limit
    requires m.inputs[p].timeoutTime <= 0 || limit <= m.inputs[p].timeoutTime
    ensures p in ClearInput(m, q, now).inputs && ClearInput(m, q, now).inputs[p] == m.inputs[p]
  {
    hide Lowest, TimeoutSignals;
  }

  lemma OtherOp(m: Mux, op: Op, p: int, limit: int)
    requires p in m.inputs && !Touches(op, p, p == 254) && Before(op, limit)
    requires m.inputs[p].timeoutTime <= 0 || limit <= m.inputs[p].timeoutTime
    ensures var m' := MuxerSpec.Apply(m, op);
            p in m'.inputs && m'.inputs[p].timeoutTime == m.inputs[p].timeoutTime
  {
    hide MuxerSpec.Apply;
    StepSpares(m, op, p, p == 254);
  }

  lemma ClearAllSpares(m: Mux, now: int, limit: int)
    requires 254 in m.inputs && now < limit
    requires m.inputs[254].timeoutTime <= 0 || limit <= m.inputs[254].timeoutTime
    ensures var m' := ClearAll(m, false, now);
            254 in m'.inputs && m'.inputs[254].timeoutTime == m.inputs[254].timeoutTime
  {
    hide ClearEach, Sorted;
    OtherOp(m, Op.ClearEverything(false, now), 254, limit);
  }

  lemma SetAround(m: Mux, p: int, q: int, content: Content, timeout: int, now: int, limit: int)
    requires p in m.inputs && now < limit
    requires m.inputs[p].timeoutTime <= 0 || limit <= m.inputs[p].timeoutTime
    requires q == p ==> timeout <= 0 || limit <= now + timeout
    ensures var m' := SetInput(m, q, content, timeout, now);
            p in m'.inputs && (m'.inputs[p].timeoutTime <= 0 || limit <= m'.inputs[p].timeoutTime)
  {
    hide Lowest, TimeoutSignals;
  }

  lemma StillListed(effects: seq<Running>, r: Running, k: nat)
    requires r in effects && k < |effects| && effects[k] != r
    ensures r in effects[..k] + effects[k + 1..]
  {
    var i :| 0 <= i < |effects| && effects[i] == r;
    assert (effects[..k] + effects[k + 1..])[if i < k then i else i - 1] == r;
  }

  lemma NotInterrupted(effects: seq<Running>, r: Running, p: int)
    requires r in effects && r.priority != p
    ensures r in Interrupt(effects, p)
  {
    var i :| 0 <= i < |effects| && effects[i] == r;
    assert Interrupt(effects, p)[i] == r;
  }

  lemma NotInterruptedByAll(effects: seq<Running>, r: Running)
    requires r in effects && r.priority == 254
    ensures r in InterruptAll(effects)
  {
    var i :| 0 <= i < |effects| && effects[i] == r;
    assert InterruptAll(effects)[i] == r;
  }

  lemma OtherPriority(effects: seq<Running>, nextId: nat, r: Running, k: nat)
    requires SingleOwners(effects, nextId) && r in effects && !r.interrupted
    requires k < |effects| && effects[k].id != r.id && !effects[k].interrupted
    ensures effects[k].priority != r.priority
  {
    var i :| 0 <= i < |effects| && effects[i] == r;
  }

  lemma FinishKeepsBytes(w: World, other: nat, now: int)
    requires BytePriorities(w)
    ensures BytePriorities(Finish(w, other, now))
  {
    hide ClearInput;
  }

  lemma FinishedAround(w: World, other: nat, now: int, id: nat, p: int, limit: int)
    requires OneOwner(w) && BytePriorities(w) && Owns(w, id, p, limit) && other != id && now < limit
    ensures Owns(Finish(w, other, now), id, p, limit)
  {
    hide ClearInput, SingleOwners, Interrupt;
    var r := Running(id, p, false);
    var k := Find(w.effects, other);
    if k < |w.effects| {
      var e := w.effects[k];
      if e.interrupted {
        StillListed(w.effects, r, k);
      } else {
        OtherPriority(w.effects, w.nextId, r, k);
        ClearOther(w.mux, p, U8(e.priority), now, limit);
        NotInterrupted(w.effects, r, e.priority);
        StillListed(Interrupt(w.effects, e.priority), r, k);
      }
    }
  }

  lemma ForeignKeepsBytes(w: World, e: Event)
    requires BytePriorities(w) && (e.Start? ==> 0 <= e.p < 256)
    ensures BytePriorities(Apply(w, e))
  {
    hide ClearInput, ClearAll, SetInput, RegisterInput, MuxerSpec.Apply, Finish;
    if e.Finished? {
      FinishKeepsBytes(w, e.id, e.now);
    }
  }

  lemma ForeignKeepsOwner(w: World, e: Event, id: nat, p: int, limit: int)
    requires OneOwner(w) && BytePriorities(w) && Owns(w, id, p, limit) && Foreign(e, id, p, limit)
    ensures Owns(Apply(w, e), id, p, limit)
  {
    hide ClearInput, ClearAll, SetInput, MuxerSpec.Apply, Touches, Before, Finish, BytePriorities, OneOwner, Interrupt;
    var r := Running(id, p, false);
    match e {
      case Start(q, _, _, _) => NotInterrupted(w.effects, r, q);
      case Finished(other, now) => FinishedAround(w, other, now, id, p, limit);
      case ClearChannel(q, now) =>
        ClearOther(w.mux, p, U8(q), now, limit);
        NotInterrupted(w.effects, r, q);
      case Fed(q, content, timeout, _, now) =>
        SetAround(w.mux, p, q, content, timeout, now, limit);
        if q != p { NotInterrupted(w.effects, r, q); }
      case ClearEverything(force, now) =>
        ClearAllSpares(w.mux, now, limit);
        NotInterruptedByAll(w.effects, r);
      case Other(op) => OtherOp(w.mux, op, p, limit);
    }
  }

  // Main result: once an effect owns a channel, whatever happens around it, earlier effects of
  // the same channel finishing included, leaves the channel registered and the effect running.
  lemma {:induction false} OwnerKeepsChannel(w: World, events: seq<Event>, id: nat, p: int, limit: int)
    requires OneOwner(w) && BytePriorities(w) && Owns(w, id, p, limit)
    requires forall e :: e in events ==> Foreign(e, id, p, limit) && (e.Start? ==> 0 <= e.p < 256)
    ensures Owns(Run(w, events), id, p, limit)
    decreases |events|
  {
    hide Apply, OneOwner, Owns, Foreign, BytePriorities;
    if events != [] {
      assert events[0] in events;
      EventKeepsOneOwner(w, events[0]);
      ForeignKeepsBytes(w, events[0]);
      ForeignKeepsOwner(w, events[0], id, p, limit);
      OwnerKeepsChannel(Apply(w, events[0]), events[1..], id, p, limit);
    }
  }

  // Starting an effect makes it the owner of its channel, which then bears its name.
  lemma StartOwns(w: World, p: int, origin: string, name: string, smoothCfg: nat, limit: int)
    requires p in w.mux.inputs ==> w.mux.inputs[p].timeoutTime <= 0 || limit <= w.mux.inputs[p].timeoutTime
    ensures var w' := RunScript(w, p, origin, name, smoothCfg);
            && Owns(w', w.nextId, p, limit)
            && var info := w'.mux.inputs[p];
               && info.component == EffectSource && info.origin == origin && info.owner == name
               && info.smoothCfg == smoothCfg
  {
    assert RunScript(w, p, origin, name, smoothCfg).effects[|w.effects|] == Running(w.nextId, p, false);
  }
}

module EffectControl {
  import opened MuxerSpec
  import opened PriorityMuxing
  import opened EffectSpec

  class Effect {
    const id: nat
    const priority: int
    var interrupt: bool

    constructor (id: nat, priority: int)
      ensures this.id == id && this.priority == priority && !interrupt
    {
      this.id, this.priority, interrupt := id, priority, false;
    }
  }

  ghost function Records(effects: seq<Effect>): (r: seq<Running>)
    reads effects
    ensures |r| == |effects|
    ensures forall i :: 0 <= i < |r| ==> r[i] == Running(effects[i].id, effects[i].priority, effects[i].interrupt)
  {
    if effects == [] then []
    else [Running(effects[0].id, effects[0].priority, effects[0].interrupt)] + Records(effects[1..])
  }

  lemma RecordOf(effects: seq<Effect>, nextId: nat, effect: Effect)
    requires DistinctIds(Records(effects), nextId) && effect in effects
    ensures var at := Find(Records(effects), effect.id);
            && at < |effects|
            && Records(effects)[at] == Running(effect.id, effect.priority, effect.interrupt)
  {
    hide Records, Find, DistinctIds;
    var i :| 0 <= i < |effects| && effects[i] == effect;
    FindAt(Records(effects), nextId, i);
  }

  class EffectEngine {
    var activeEffects: seq<Effect>
    const muxer: PriorityMuxer
    // The identity the next effect gets.
    var nextId: nat

    ghost function Model(): World
      reads this, activeEffects, muxer
    {
      World(Records(activeEffects), muxer.Model(), nextId)
    }

    ghost predicate Valid()
      reads this, activeEffects, muxer
    {
      muxer.Valid() && DistinctIds(Records(activeEffects), nextId)
    }

    constructor (muxer: PriorityMuxer)
      requires muxer.Valid()
      ensures Valid() && activeEffects == [] && this.muxer == muxer && nextId == 0
    {
      this.muxer := muxer;
      activeEffects, nextId := [], 0;
    }

    method ChannelCleared(priority: int)
      requires Valid()
      modifies activeEffects
      ensures Valid() && Model() == old(Model()).(effects := Interrupt(old(Model()).effects, priority))
    {
      hide Records, Interrupt, InterruptAll;
      var i := 0;
      while i < |activeEffects|
        invariant 0 <= i <= |activeEffects|
        invariant forall k :: 0 <= k < |activeEffects| ==>
                      (activeEffects[k].interrupt <==>
                       old(activeEffects[k].interrupt) || (k < i && activeEffects[k].priority == priority))
      {
        assert forall k :: 0 <= k < |activeEffects| && k != i ==>
                 Records(activeEffects)[k].id != Records(activeEffects)[i].id;
        if activeEffects[i].priority == priority {
          activeEffects[i].interrupt := true;
        }
        i := i + 1;
      }
      assert Records(activeEffects) == Interrupt(old(Records(activeEffects)), priority);
    }

    method AllChannelsCleared()
      requires Valid()
      modifies activeEffects
      ensures Valid() && Model() == old(Model()).(effects := InterruptAll(old(Model()).effects))
    {
      hide Records, Interrupt, InterruptAll;
      var i := 0;
      while i < |activeEffects|
        invariant 0 <= i <= |activeEffects|
        invariant forall k :: 0 <= k < |activeEffects| ==>
                      (activeEffects[k].interrupt <==>
                       old(activeEffects[k].interrupt) || (k < i && activeEffects[k].priority != 254))
      {
        assert forall k :: 0 <= k < |activeEffects| && k != i ==>
                 Records(activeEffects)[k].id != Records(activeEffects)[i].id;
        if activeEffects[i].priority != 254 {
          activeEffects[i].interrupt := true;
        }
        i := i + 1;
      }
      assert Records(activeEffects) == InterruptAll(old(Records(activeEffects)));
    }

    method RunEffectScript(priority: int, origin: string, name: string, smoothCfg: nat)
      requires Valid()
      modifies this, activeEffects, muxer
      ensures Valid() && Model() == RunScript(old(Model()), priority, origin, name, smoothCfg)
    {
      hide MuxerSpec.RegisterInput, Interrupt, WellKeyed, DistinctIds;
      ChannelCleared(priority);
      PushBack(priority);
      muxer.RegisterInput(priority, EffectSource, origin, name, smoothCfg);
    }

    method PushBack(priority: int)
      requires DistinctIds(Records(activeEffects), nextId)
      modifies this
      ensures Records(activeEffects) == old(Records(activeEffects)) + [Running(old(nextId), priority, false)]
      ensures nextId == old(nextId) + 1 && DistinctIds(Records(activeEffects), nextId)
    {
      var effect := new Effect(nextId, priority);
      hide Records;
      activeEffects := activeEffects + [effect];
      assert Records(activeEffects) == old(Records(activeEffects)) + [Running(nextId, priority, false)];
      nextId := nextId + 1;
    }

    // Hyperion::clear
    method HyperionClear(priority: int, now: int)
      requires Valid()
      modifies activeEffects, muxer
      ensures Valid() && Model() == ClearChannelOf(old(Model()), priority, now)
    {
      hide MuxerSpec.ClearInput, WellKeyed, Interrupt, DistinctIds;
      ChannelCleared(priority);
      var _ := muxer.ClearInput(priority % 256, now);
    }

    // Hyperion::clearall
    method HyperionClearAll(forceClearAll: bool, now: int)
      requires Valid()
      modifies activeEffects, muxer
      ensures Valid() && Model() == ClearAllChannels(old(Model()), forceClearAll, now)
    {
      muxer.ClearAll(forceClearAll, now);
      AllChannelsCleared();
    }

    // Hyperion::setInput and Hyperion::setInputImage
    method HyperionSetInput(priority: int, content: Content, timeout_ms: int, clearEffect: bool, now: int)
      returns (found: bool)
      requires Valid()
      modifies activeEffects, muxer
      ensures Valid() && Model() == SetContent(old(Model()), priority, content, timeout_ms, clearEffect, now)
    {
      hide MuxerSpec.SetInput, Interrupt, WellKeyed;
      found := muxer.Fill(priority, content, timeout_ms, now);
      if found && clearEffect {
        ChannelCleared(priority);
      }
    }

    method EffectFinished(effect: Effect, now: int)
      requires Valid() && effect in activeEffects
      modifies this, activeEffects, muxer
      ensures Valid() && Model() == Finish(old(Model()), effect.id, now)
    {
      hide MuxerSpec.ClearInput, WellKeyed, Interrupt, DistinctIds, Find, Records;
      ghost var before := Records(activeEffects);
      RecordOf(activeEffects, nextId, effect);
      FindAfterInterrupt(before, effect.priority, effect.id);
      if !effect.interrupt {
        HyperionClear(effect.priority, now);
      }
      Erase(effect);
    }

    // The search loop of effectFinished.
    method Erase(effect: Effect)
      requires DistinctIds(Records(activeEffects), nextId) && effect in activeEffects
      modifies `activeEffects
      ensures DistinctIds(Records(activeEffects), nextId)
      ensures var before := old(Records(activeEffects)); var at := Find(before, effect.id);
              at < |before| && Records(activeEffects) == before[..at] + before[at + 1..]
    {
      hide Records, DistinctIds, Find;
      ghost var before := Records(activeEffects);
      RecordOf(activeEffects, nextId, effect);
      DropKeepsIds(before, nextId, Find(before, effect.id));
      var i := 0;
      while i < |activeEffects|
        invariant 0 <= i <= |activeEffects|
        invariant effect !in activeEffects[..i]
      {
        if activeEffects[i] == effect {
          break;
        }
        i := i + 1;
      }
      FindAt(before, nextId, i);
      activeEffects := activeEffects[..i] + activeEffects[i + 1..];
      assert Records(activeEffects) == before[..i] + before[i + 1..];
    }
  }
}
