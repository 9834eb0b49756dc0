/** Logical-to-physical LED index mapping over a sequence of strips
    (components/led_topology). */
module LedTopology {
  import opened EspTypes

  /** led_strip_t: the length of one wired segment and its wiring direction. */
  datatype Strip = Strip(ledCount: U16, reversed: bool)

  /** led_topology_t: strip_count is a uint8_t, so there are at most 255 strips. */
  type Strips = s: seq<Strip> | |s| < 0x100

  /** Exact number of LEDs over all strips, in declared order. */
  function Sum(strips: seq<Strip>): nat
  {
    if strips == [] then 0 else strips[0].ledCount + Sum(strips[1..])
  }

  /** Index of the first physical LED of strip k. */
  function Offset(strips: seq<Strip>, k: nat): nat
    requires k <= |strips|
  {
    Sum(strips[..k])
  }

  /** What s_total_leds holds: the sum accumulated in a uint16_t. */
  function TotalLeds(strips: seq<Strip>): U16
  {
    Sum(strips) % U16_LIMIT
  }

  /** Physical position of the `local`-th logical LED of strip `s`, which
      starts at physical index `base`. */
  function Place(s: Strip, base: nat, local: nat): nat
    requires local < s.ledCount
  {
    if s.reversed then base + (s.ledCount - 1 - local) else base + local
  }

  /** The strip walk: the first strip whose range contains `index` places
      it; None when no strip does. Exact arithmetic. */
  function MapFrom(strips: seq<Strip>, index: nat, base: nat): Option<nat>
    requires base <= index
  {
    if strips == [] then None
    else if index < base + strips[0].ledCount then Some(Place(strips[0], base, index - base))
    else MapFrom(strips[1..], index, base + strips[0].ledCount)
  }

  /** led_topology_map: the strip walk's answer truncated to uint16_t, or
      total - 1 (also truncated) when no strip contains the index. */
  function PhysicalIndex(strips: seq<Strip>, index: U16): U16
  {
    match MapFrom(strips, index, 0)
    case Some(p) => p % U16_LIMIT
    case None => (TotalLeds(strips) - 1) % U16_LIMIT
  }

  /** Strips with at least one LED, in declared order. */
  function NonEmpty(strips: seq<Strip>): seq<Strip>
  {
    if strips == [] then []
    else if strips[0].ledCount == 0 then NonEmpty(strips[1..])
    else [strips[0]] + NonEmpty(strips[1..])
  }

  // ---------------------------------------------------------------------
  // Properties of the strip walk

  /** No strip contains the index exactly when it lies past the last LED. */
  lemma {:induction false} MapFromNoneIff(strips: seq<Strip>, index: nat, base: nat)
    requires base <= index
    ensures MapFrom(strips, index, base).None? <==> base + Sum(strips) <= index
  {
    if strips != [] && base + strips[0].ledCount <= index {
      MapFromNoneIff(strips[1..], index, base + strips[0].ledCount);
    }
  }

  /** An index inside the LEDs is placed inside the LEDs. */
  lemma {:induction false} MapFromInRange(strips: seq<Strip>, index: nat, base: nat)
    requires base <= index < base + Sum(strips)
    ensures MapFrom(strips, index, base).Some?
    ensures base <= MapFrom(strips, index, base).value < base + Sum(strips)
  {
    if base + strips[0].ledCount <= index {
      MapFromInRange(strips[1..], index, base + strips[0].ledCount);
    }
  }

  /** Placing twice gives back the logical index: within one strip a
      reversal is its own inverse, and placement never leaves the strip. */
  lemma {:induction false} MapFromInvolution(strips: seq<Strip>, index: nat, base: nat)
    requires base <= index < base + Sum(strips)
    ensures MapFrom(strips, index, base).Some?
    ensures base <= MapFrom(strips, index, base).value
    ensures MapFrom(strips, MapFrom(strips, index, base).value, base) == Some(index)
  {
    var c := strips[0].ledCount;
    if base + c <= index {
      MapFromInvolution(strips[1..], index, base + c);
    }
  }

  /** An index in strip k is placed by strip k, relative to the strip's offset. */
  lemma {:induction false} MapFromAtStrip(strips: seq<Strip>, k: nat, index: nat, base: nat)
    requires k < |strips|
    requires base + Offset(strips, k) <= index < base + Offset(strips, k) + strips[k].ledCount
    ensures MapFrom(strips, index, base)
         == Some(Place(strips[k], base + Offset(strips, k), index - base - Offset(strips, k)))
  {
    if k == 0 {
      assert strips[..0] == [];
    } else {
      assert strips[..k][1..] == strips[1..][..k - 1];
      MapFromAtStrip(strips[1..], k - 1, index, base + strips[0].ledCount);
    }
  }

  /** Dropping strips of length zero changes neither the walk nor the sum. */
  lemma {:induction false} MapFromIgnoresEmpty(strips: seq<Strip>, index: nat, base: nat)
    requires base <= index
    ensures Sum(NonEmpty(strips)) == Sum(strips)
    ensures MapFrom(NonEmpty(strips), index, base) == MapFrom(strips, index, base)
  {
    if strips != [] {
      var c := strips[0].ledCount;
      if index < base + c {
        MapFromIgnoresEmpty(strips[1..], base, base);
        assert NonEmpty(strips)[0] == strips[0];
      } else {
        MapFromIgnoresEmpty(strips[1..], index, base + c);
        if c != 0 {
          assert NonEmpty(strips)[1..] == NonEmpty(strips[1..]);
        }
      }
    }
  }

  // ---------------------------------------------------------------------
  // Properties of led_topology_map

  /** An index inside strip k is placed by strip k: identity for a strip
      wired forwards, base + (len - 1 - local) for a reversed one, and
      inside [base, base + len) whenever that range fits in uint16_t. */
  lemma MapWithinStrip(strips: seq<Strip>, k: nat, index: U16)
    requires k < |strips|
    requires Offset(strips, k) <= index < Offset(strips, k) + strips[k].ledCount
    ensures PhysicalIndex(strips, index)
         == Place(strips[k], Offset(strips, k), index - Offset(strips, k)) % U16_LIMIT
    ensures Offset(strips, k) + strips[k].ledCount <= U16_LIMIT ==>
      var base, r := Offset(strips, k), PhysicalIndex(strips, index);
      && base <= r < base + strips[k].ledCount
      && (strips[k].reversed ==> r == base + (strips[k].ledCount - 1 - (index - base)))
      && (!strips[k].reversed ==> r == index)
  {
    MapFromAtStrip(strips, k, index, 0);
  }

  /** An index at or past the last LED is clamped to total - 1 (in uint16_t
      arithmetic: 0xFFFF for a topology without LEDs). */
  lemma MapClamps(strips: seq<Strip>, index: U16)
    requires Sum(strips) <= index
    ensures PhysicalIndex(strips, index) == (TotalLeds(strips) - 1) % U16_LIMIT
    ensures 0 < Sum(strips) ==> PhysicalIndex(strips, index) == Sum(strips) - 1
    ensures Sum(strips) == 0 ==> PhysicalIndex(strips, index) == U16_LIMIT - 1
  {
    MapFromNoneIff(strips, index, 0);
  }

  /** The physical indices that led_topology_map gives the logical indices
      [0, total). */
  function Image(strips: seq<Strip>): set<U16>
  {
    set i: U16 | i < Sum(strips) :: PhysicalIndex(strips, i)
  }

  /** When the total fits in uint16_t the map restricted to [0, total) is a
      permutation of [0, total): it stays in range, is its own inverse, and
      is therefore one-to-one and onto. */
  lemma MapIsPermutation(strips: seq<Strip>)
    requires Sum(strips) < U16_LIMIT
    ensures forall i: U16 :: i < Sum(strips) ==>
      PhysicalIndex(strips, i) < Sum(strips) && PhysicalIndex(strips, PhysicalIndex(strips, i)) == i
    ensures forall i: U16, j: U16 ::
      (i < Sum(strips) && j < Sum(strips) && PhysicalIndex(strips, i) == PhysicalIndex(strips, j)) ==> i == j
    ensures forall p: U16 :: p in Image(strips) <==> p < Sum(strips)
  {
    forall i: U16 | i < Sum(strips)
      ensures PhysicalIndex(strips, i) < Sum(strips)
      ensures PhysicalIndex(strips, PhysicalIndex(strips, i)) == i
    {
      MapIsInvolution(strips, i);
    }
    forall i: U16, j: U16 |
      i < Sum(strips) && j < Sum(strips) && PhysicalIndex(strips, i) == PhysicalIndex(strips, j)
      ensures i == j
    {
      MapIsInvolution(strips, i);
      MapIsInvolution(strips, j);
    }
    forall p: U16 | p < Sum(strips)
      ensures p in Image(strips)
    {
      MapIsInvolution(strips, p);
    }
  }

  /** One logical index: it is placed inside [0, total) and placing the
      result again gives it back. */
  lemma MapIsInvolution(strips: seq<Strip>, i: U16)
    requires Sum(strips) < U16_LIMIT && i < Sum(strips)
    ensures PhysicalIndex(strips, i) < Sum(strips)
    ensures PhysicalIndex(strips, PhysicalIndex(strips, i)) == i
  {
    MapFromInRange(strips, i, 0);
    MapFromInvolution(strips, i, 0);
    var p := MapFrom(strips, i, 0).value;
    assert p % U16_LIMIT == p;
    assert PhysicalIndex(strips, i) == p;
    assert MapFrom(strips, p, 0) == Some(i as nat);
    assert i % U16_LIMIT == i;
  }

  /** Strips of length zero never match any index. */
  lemma EmptyStripsNeverMatch(strips: seq<Strip>, index: U16)
    ensures PhysicalIndex(NonEmpty(strips), index) == PhysicalIndex(strips, index)
  {
    MapFromIgnoresEmpty(strips, index, 0);
  }

  /** A reversed strip of 5 LEDs starting at physical index 10. */
  lemma ReversedStripExample()
    ensures var t := [Strip(10, false), Strip(5, true)];
      && PhysicalIndex(t, 10) == 14
      && PhysicalIndex(t, 14) == 10
      && PhysicalIndex(t, 12) == 12
      && PhysicalIndex(t, 15) == 14
  {
    var t := [Strip(10, false), Strip(5, true)];
    assert t[..1] == [Strip(10, false)];
    MapWithinStrip(t, 1, 10);
    MapWithinStrip(t, 1, 14);
    MapWithinStrip(t, 1, 12);
    MapClamps(t, 15);
  }

  /** One strip of the walk, as the loop of led_topology_map takes it. */
  lemma MapFromStep(strips: seq<Strip>, i: nat, index: nat, base: nat)
    requires i < |strips| && base <= index
    ensures MapFrom(strips[i..], index, base)
         == if index < base + strips[i].ledCount then Some(Place(strips[i], base, index - base))
            else MapFrom(strips[i + 1..], index, base + strips[i].ledCount)
  {
    assert strips[i..][0] == strips[i] && strips[i..][1..] == strips[i + 1..];
  }

  // ---------------------------------------------------------------------
  // The component's static state

  /** s_topology and s_total_leds. */
  class Mapper {
    var topology: Option<Strips>
    var totalLeds: U16

    ghost predicate Valid()
      reads this
    {
      totalLeds == (if topology.None? then 0 else TotalLeds(topology.value))
    }

    /** The state before led_topology_init has run. */
    constructor ()
      ensures topology == None && totalLeds == 0
      ensures Valid()
    {
      topology := None;
      totalLeds := 0;
    }

    /** led_topology_init: bind the topology and accumulate its LED count
        in uint16_t. */
    method Init(topo: Strips)
      modifies this
      ensures topology == Some(topo)
      ensures totalLeds == Sum(topo) % U16_LIMIT
      ensures Valid()
    {
      topology := Some(topo);
      totalLeds := 0;
      ghost var exact := 0;
      var i := 0;
      while i < |topo|
        invariant 0 <= i <= |topo|
        invariant topology == Some(topo)
        invariant exact + Sum(topo[i..]) == Sum(topo)
        invariant totalLeds == exact % U16_LIMIT
      {
        assert topo[i..][1..] == topo[i + 1..];
        totalLeds := (totalLeds + topo[i].ledCount) % U16_LIMIT;
        exact := exact + topo[i].ledCount;
        i := i + 1;
      }
    }

    /** led_topology_total_leds: the count computed by the last init, 0 before
        any init; equal to the exact LED count when that fits in uint16_t. */
    function Total(): (n: U16)
      reads this
      requires Valid()
      ensures topology.None? ==> n == 0
      ensures topology.Some? ==> n == Sum(topology.value) % U16_LIMIT
      ensures topology.Some? && Sum(topology.value) < U16_LIMIT ==> n == Sum(topology.value)
    {
      totalLeds
    }

    /** led_topology_map: the strip walk with a running base and early return. */
    method Map(index: U16) returns (physical: U16)
      requires Valid() && topology.Some?
      ensures physical == PhysicalIndex(topology.value, index)
    {
      var strips := topology.value;
      var base: U16 := 0;
      var i := 0;
      while i < |strips|
        invariant 0 <= i <= |strips|
        invariant base <= index
        invariant MapFrom(strips, index, 0) == MapFrom(strips[i..], index, base)
      {
        MapFromStep(strips, i, index, base);
        var s := strips[i];
        if index < base + s.ledCount {
          var local := index - base;
          if s.reversed {
            return (base + (s.ledCount - 1 - local)) % U16_LIMIT;
          } else {
            return (base + local) % U16_LIMIT;
          }
        }
        base := (base + s.ledCount) % U16_LIMIT;
        i := i + 1;
      }
      return (totalLeds - 1) % U16_LIMIT;
    }
  }
}
