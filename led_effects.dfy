/** The effect scheduler: a bound topology, the current effect and the time
    of the last tick; each tick calls the effect's render function once. */
module LedEffects {
  import opened EspTypes
  import opened LedTopology

  /** A render callback, known by identity only. */
  datatype RenderFn = RenderFn(id: nat)

  /** led_effect_t. A NULL render pointer is `None`; user_ctx is an opaque
      pointer value handed back to the callback. */
  datatype Effect = Effect(name: string, render: Option<RenderFn>, userCtx: nat)

  /** effect_time_t, built afresh by every active tick. */
  datatype EffectTime = EffectTime(nowMs: U32, deltaMs: U32, brightness: U8)

  /** One invocation of a render callback and the arguments it received. */
  datatype RenderCall = RenderCall(render: RenderFn, topo: Strips, time: EffectTime, userCtx: nat)

  /** Brightness every tick passes. */
  const FULL_BRIGHTNESS: U8 := 255

  /** The delta_ms a tick reports: 0 right after init (last_ms still 0),
      otherwise the uint32_t difference, so that adding it to the previous
      tick's time gives the current time modulo 2^32. */
  function Delta(last: U32, now: U32): (d: U32)
    ensures last == 0 ==> d == 0
    ensures last != 0 ==> (last + d) % U32_LIMIT == now
    ensures last != 0 && last <= now ==> d == now - last
  {
    if last == 0 then 0 else (now - last) % U32_LIMIT
  }

  /** The module's static state s_topo, s_current and s_last_ms, plus the
      record of render calls made by tick. */
  class Engine {
    var topo: Option<Strips>
    var current: Option<Effect>
    var lastMs: U32
    var renders: seq<RenderCall>

    /** set only ever stores an effect with a render function. */
    ghost predicate Valid()
      reads this
    {
      current.Some? ==> current.value.render.Some?
    }

    /** The state at boot: nothing bound, last_ms 0. */
    constructor ()
      ensures topo.None? && current.None? && lastMs == 0 && renders == []
      ensures Valid()
    {
      topo := None;
      current := None;
      lastMs := 0;
      renders := [];
    }

    /** led_effects_init: refuse a NULL topology, otherwise bind it and
        restart the clock. The current effect is kept. */
    method Init(topology: Option<Strips>) returns (st: Status)
      requires Valid()
      modifies this
      ensures Valid()
      ensures current == old(current) && renders == old(renders)
      ensures topology.None? ==> st == ErrInvalidArg && topo == old(topo) && lastMs == old(lastMs)
      ensures topology.Some? ==> st == Ok && topo == topology && lastMs == 0
    {
      if topology.None? {
        return ErrInvalidArg;
      }
      topo := topology;
      lastMs := 0;
      return Ok;
    }

    /** led_effects_set: refuse a NULL effect or one without a render
        function, otherwise make it current. The clock is not restarted. */
    method Set(effect: Option<Effect>) returns (st: Status)
      requires Valid()
      modifies this
      ensures Valid()
      ensures topo == old(topo) && lastMs == old(lastMs) && renders == old(renders)
      ensures effect.None? || effect.value.render.None? ==> st == ErrInvalidArg && current == old(current)
      ensures effect.Some? && effect.value.render.Some? ==> st == Ok && current == effect
    {
      if effect.None? || effect.value.render.None? {
        return ErrInvalidArg;
      }
      current := effect;
      return Ok;
    }

    /** led_effects_tick: without a topology or an effect nothing happens;
        otherwise the clock moves to now and the current render function is
        called once with the topology, the time and the effect's context. */
    method Tick(now: U32)
      requires Valid()
      modifies this
      ensures Valid()
      ensures topo == old(topo) && current == old(current)
      ensures topo.None? || current.None? ==> lastMs == old(lastMs) && renders == old(renders)
      ensures topo.Some? && current.Some? ==>
        && lastMs == now
        && renders == old(renders) + [RenderCall(current.value.render.value, topo.value,
                                                 EffectTime(now, Delta(old(lastMs), now), FULL_BRIGHTNESS),
                                                 current.value.userCtx)]
    {
      if topo.None? || current.None? {
        return;
      }
      var t := EffectTime(now, if lastMs == 0 then 0 else (now - lastMs) % U32_LIMIT, FULL_BRIGHTNESS);
      lastMs := now;
      var e := current.value;
      renders := renders + [RenderCall(e.render.value, topo.value, t, e.userCtx)];
    }
  }

  /** The deltas reported by the render calls in a record. */
  function Deltas(calls: seq<RenderCall>): (ds: seq<U32>)
    ensures |ds| == |calls|
    ensures forall i :: 0 <= i < |calls| ==> ds[i] == calls[i].time.deltaMs
  {
    if calls == [] then [] else [calls[0].time.deltaMs] + Deltas(calls[1..])
  }

  /** The deltas a run of active ticks at the given times reports, starting
      from last_ms = last. */
  function TickRun(last: U32, times: seq<U32>): (ds: seq<U32>)
    ensures |ds| == |times|
    decreases |times|
  {
    if times == [] then [] else [Delta(last, times[0])] + TickRun(times[0], times[1..])
  }

  function Total(ds: seq<U32>): nat
  {
    if ds == [] then 0 else ds[0] + Total(ds[1..])
  }

  lemma ModShift(a: int, b: int)
    ensures (a + b) % U32_LIMIT == (a % U32_LIMIT + b) % U32_LIMIT
  {
    var q := a / U32_LIMIT;
    assert a == q * U32_LIMIT + a % U32_LIMIT;
    assert (a + b) == q * U32_LIMIT + (a % U32_LIMIT + b);
  }

  /** The k-th delta of a run is the delta between the tick before it (or
      the starting time) and the k-th tick. */
  lemma {:induction false} TickRunAt(last: U32, times: seq<U32>, k: nat)
    requires k < |times|
    ensures TickRun(last, times)[k] == Delta(if k == 0 then last else times[k - 1], times[k])
    decreases k
  {
    if k > 0 {
      TickRunAt(times[0], times[1..], k - 1);
      assert times[1..][k - 1] == times[k];
      if k > 1 {
        assert times[1..][k - 2] == times[k - 1];
      }
    }
  }

  /** Once the clock has started, the reported deltas add up, modulo 2^32,
      to the time elapsed since the tick before the run: no time is lost or
      counted twice across the uint32_t wrap-around. */
  lemma {:induction false} DeltasAddUp(last: U32, times: seq<U32>)
    requires last != 0 && |times| > 0
    requires forall i :: 0 <= i < |times| ==> times[i] != 0
    ensures (last + Total(TickRun(last, times))) % U32_LIMIT == times[|times| - 1]
    decreases |times|
  {
    var ds := TickRun(last, times);
    var d := Delta(last, times[0]);
    assert ds[0] == d && ds[1..] == TickRun(times[0], times[1..]);
    if |times| == 1 {
      assert Total(ds) == d;
    } else {
      DeltasAddUp(times[0], times[1..]);
      var rest := Total(ds[1..]);
      assert (times[0] + rest) % U32_LIMIT == times[|times| - 1];
      ModShift(last + d, rest);
      assert (last + d) % U32_LIMIT == times[0];
      assert last + Total(ds) == (last + d) + rest;
    }
  }

  /** Ticks an engine through a run of times: one render per tick, whose
      deltas are those of the run started from the engine's last time. */
  method TickAll(e: Engine, times: seq<U32>)
    requires e.Valid() && e.topo.Some? && e.current.Some?
    modifies e
    ensures e.Valid() && e.topo == old(e.topo) && e.current == old(e.current)
    ensures |e.renders| == |old(e.renders)| + |times|
    ensures e.renders[..|old(e.renders)|] == old(e.renders)
    ensures Deltas(e.renders[|old(e.renders)|..]) == TickRun(old(e.lastMs), times)
    ensures e.lastMs == if times == [] then old(e.lastMs) else times[|times| - 1]
    // once the clock runs, the reported deltas add up to the elapsed time modulo 2^32
    ensures old(e.lastMs) != 0 && times != [] && (forall i :: 0 <= i < |times| ==> times[i] != 0) ==>
      (old(e.lastMs) + Total(Deltas(e.renders[|old(e.renders)|..]))) % U32_LIMIT == e.lastMs
  {
    ghost var n0, last0 := |e.renders|, e.lastMs;
    var i := 0;
    while i < |times|
      invariant 0 <= i <= |times|
      invariant e.Valid() && e.topo == old(e.topo) && e.current == old(e.current)
      invariant |e.renders| == n0 + i && e.renders[..n0] == old(e.renders)
      invariant e.lastMs == if i == 0 then last0 else times[i - 1]
      invariant forall k :: 0 <= k < i ==> e.renders[n0 + k].time.deltaMs == TickRun(last0, times)[k]
    {
      TickRunAt(last0, times, i);
      e.Tick(times[i]);
      i := i + 1;
    }
    assert forall k :: 0 <= k < |times| ==> e.renders[n0..][k] == e.renders[n0 + k];
    if last0 != 0 && times != [] && (forall i :: 0 <= i < |times| ==> times[i] != 0) {
      DeltasAddUp(last0, times);
    }
  }

  const SAMPLE_TOPOLOGY: Strips := [Strip(10, false), Strip(5, true)]
  const SAMPLE_EFFECT: Effect := Effect("breathe", Some(RenderFn(1)), 7)

  /** tick(1000) then tick(1050) after init: deltas 0 and 50, each call
      with full brightness, the bound topology and the effect's context. */
  method TwoTicks() returns (ds: seq<U32>, calls: seq<RenderCall>)
    ensures ds == [0, 50] && ds == TickRun(0, [1000, 1050])
    ensures |calls| == 2 && calls[1] == RenderCall(RenderFn(1), SAMPLE_TOPOLOGY, EffectTime(1050, 50, 255), 7)
  {
    var e := new Engine();
    var st := e.Init(Some(SAMPLE_TOPOLOGY));
    st := e.Set(Some(SAMPLE_EFFECT));
    e.Tick(1000);
    e.Tick(1050);
    calls := e.renders;
    ds := Deltas(calls);
  }

  /** A tick at time 0 leaves the sentinel in place: the next tick also
      reports delta 0. */
  method TickAtZero() returns (ds: seq<U32>)
    ensures ds == [0, 0, 30]
  {
    var e := new Engine();
    var st := e.Init(Some(SAMPLE_TOPOLOGY));
    st := e.Set(Some(SAMPLE_EFFECT));
    e.Tick(0);
    e.Tick(20);
    e.Tick(50);
    ds := Deltas(e.renders);
  }

  /** The clock wraps: a tick 0x20 ms after 0xFFFF_FFF0 reports 0x20. */
  method TickAcrossWrap() returns (ds: seq<U32>)
    ensures ds == [0, 0x20]
  {
    var e := new Engine();
    var st := e.Init(Some(SAMPLE_TOPOLOGY));
    st := e.Set(Some(SAMPLE_EFFECT));
    e.Tick(0xFFFF_FFF0);
    e.Tick(0x10);
    ds := Deltas(e.renders);
  }

  /** Only init restarts the clock: swapping the effect keeps the delta
      running, a second init resets it; rejected calls change nothing. */
  method ClockResets() returns (ds: seq<U32>, renders: seq<RenderFn>)
    ensures ds == [0, 30, 0]
    ensures renders == [RenderFn(1), RenderFn(2), RenderFn(2)]
  {
    var e := new Engine();
    e.Tick(1000);
    var st := e.Init(Some(SAMPLE_TOPOLOGY));
    st := e.Set(Some(SAMPLE_EFFECT));
    e.Tick(1000);
    st := e.Set(Some(Effect("chase", Some(RenderFn(2)), 0)));
    st := e.Set(Some(Effect("broken", None, 0)));
    e.Tick(1030);
    st := e.Init(None);
    st := e.Init(Some(SAMPLE_TOPOLOGY));
    e.Tick(1060);
    ds := Deltas(e.renders);
    renders := [e.renders[0].render, e.renders[1].render, e.renders[2].render];
  }
}
