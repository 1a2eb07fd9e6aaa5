/**
 Device ranges: admission, first-match routing, and the flat memory that routing gives
 (src/sysbus/sysbus.c).

 The code computes the end of a range modulo 2^64. A range whose end wraps covers its base address
 only, and the check admits anything beside it; such a range is also the only way to map the last
 address, 2^64 - 1.

 The admission check does not keep ranges disjoint (`AdmittedIff`, `DisjointIff`). It keeps them
 laminar: two accepted ranges cover no common address, or the later covers all that the earlier
 does. So the first match is an innermost match (`FirstMatchIsInnermost`).
 */
module DeviceMap {
  import opened Words
  import opened Isa

  datatype Range = Range(base: uint64, length: nat)

  /** The exclusive end of a range, as the code adds it up. */
  function Max(r: Range): uint64 { (r.base + r.length) % TWO64 }

  /** A device as the bus needs it: not empty, of a length that fits its `uint64_t`. */
  predicate Sound(r: Range) { 0 < r.length < TWO64 }

  predicate Wraps(r: Range) { r.base + r.length >= TWO64 }

  /** How many addresses a range covers. */
  function Extent(r: Range): nat { if Wraps(r) then 1 else r.length }

  /** `is_address_inbounds_exclusive`. */
  predicate InBounds(lower: uint64, upper: uint64, address: uint64) {
    (lower < address && address < upper) || lower == address
  }

  predicate Covers(r: Range, address: uint64) { InBounds(r.base, Max(r), address) }

  lemma CoversIsInterval(r: Range, address: uint64)
    requires Sound(r)
    ensures Covers(r, address) <==>
      if r.base + r.length < 0x1_0000_0000_0000_0000 then r.base <= address < r.base + r.length else address == r.base
    ensures Covers(r, address) <==> r.base <= address < r.base + Extent(r)
  {}

  // ---------- admission ----------

  /** The two comparisons of `sysbus_memory_map_iodev` against one mapped range: ends included. */
  predicate Conflicts(mapped: Range, dev: Range) {
    || (mapped.base <= dev.base && dev.base <= Max(mapped))
    || (mapped.base <= Max(dev) && Max(dev) <= Max(mapped))
  }

  predicate Admitted(ranges: seq<Range>, dev: Range) {
    forall i :: 0 <= i < |ranges| ==> !Conflicts(ranges[i], dev)
  }

  /** The ranges were mapped in this order, each admitted when it came. */
  predicate Accepted(ranges: seq<Range>) {
    && (forall i :: 0 <= i < |ranges| ==> Sound(ranges[i]))
    && (forall i, j :: 0 <= i < j < |ranges| ==> !Conflicts(ranges[i], ranges[j]))
  }

  /** At least one address lies between the two ranges. */
  predicate Separated(r: Range, s: Range) {
    r.base + r.length < s.base || s.base + s.length < r.base
  }

  predicate StrictlyContains(outer: Range, inner: Range) {
    outer.base < inner.base && inner.base + inner.length < outer.base + outer.length
  }

  /** `x` is neither in the range nor at its end. */
  predicate Clear(r: Range, x: int) { x < r.base || r.base + r.length < x }

  /** What admission asks of a mapped range and a new one. */
  predicate Compatible(mapped: Range, dev: Range) {
    if Wraps(mapped) then true
    else if Wraps(dev) then Clear(mapped, dev.base) && Clear(mapped, dev.base + dev.length - TWO64)
    else Separated(mapped, dev) || StrictlyContains(dev, mapped)
  }

  lemma AdmittedPair(r: Range, dev: Range)
    requires Sound(r) && Sound(dev)
    ensures !Conflicts(r, dev) <==> Compatible(r, dev)
  {}

  /** Exactly what the admission check lets through. */
  lemma AdmittedIff(ranges: seq<Range>, dev: Range)
    requires Accepted(ranges) && Sound(dev)
    ensures Admitted(ranges, dev) <==> forall i :: 0 <= i < |ranges| ==> Compatible(ranges[i], dev)
    ensures Admitted(ranges, dev) ==> Accepted(ranges + [dev])
  {
    forall i | 0 <= i < |ranges|
      ensures !Conflicts(ranges[i], dev) <==> Compatible(ranges[i], dev)
    {
      hide Conflicts, Compatible;
      AdmittedPair(ranges[i], dev);
    }
  }

  /** `outer` covers every address that `inner` covers. */
  predicate Contains(outer: Range, inner: Range) {
    outer.base <= inner.base && inner.base + Extent(inner) <= outer.base + Extent(outer)
  }

  /** Ranges that share an address are nested. */
  lemma SharedIsNested(r: Range, dev: Range, address: uint64)
    requires Sound(r) && Sound(dev) && Compatible(r, dev)
    requires Covers(r, address) && Covers(dev, address)
    ensures Contains(dev, r) && (!Wraps(r) ==> StrictlyContains(dev, r))
  {
    hide Covers;
    CoversIsInterval(r, address);
    CoversIsInterval(dev, address);
  }

  /** The admission check, end by end: neither end of the new range lies in a mapped one, its end included. */
  lemma AdmittedIsComparison(ranges: seq<Range>, dev: Range)
    ensures Admitted(ranges, dev) <==> forall i :: 0 <= i < |ranges| ==>
      var first, last := ranges[i].base, (ranges[i].base + ranges[i].length) % 0x1_0000_0000_0000_0000;
      && !(first <= dev.base <= last)
      && !(first <= (dev.base + dev.length) % 0x1_0000_0000_0000_0000 <= last)
  {
    forall i | 0 <= i < |ranges|
      ensures Conflicts(ranges[i], dev) <==>
        var first, last := ranges[i].base, (ranges[i].base + ranges[i].length) % 0x1_0000_0000_0000_0000;
        || first <= dev.base <= last
        || first <= (dev.base + dev.length) % 0x1_0000_0000_0000_0000 <= last
    {}
  }

  /** Accepted ranges need not be disjoint: a range may be mapped around an earlier one. */
  lemma AcceptedMayOverlap()
    ensures var inner, outer := Range(50, 50), Range(0, 200);
      Accepted([inner, outer]) && Covers(inner, 60) && Covers(outer, 60)
  {}

  /** They are pairwise disjoint exactly if no later range contains an earlier one. */
  lemma DisjointIff(ranges: seq<Range>)
    requires Accepted(ranges)
    ensures (forall i, j, a: uint64 :: 0 <= i < j < |ranges| ==> !(Covers(ranges[i], a) && Covers(ranges[j], a))) <==>
            (forall i, j :: 0 <= i < j < |ranges| ==> !Contains(ranges[j], ranges[i]))
  {
    forall i, j | 0 <= i < j < |ranges|
      ensures Contains(ranges[j], ranges[i]) ==>
        Covers(ranges[i], ranges[i].base) && Covers(ranges[j], ranges[i].base)
      ensures forall a: uint64 :: Covers(ranges[i], a) && Covers(ranges[j], a) ==> Contains(ranges[j], ranges[i])
    {
      hide Conflicts, Covers, Compatible;
      AdmittedPair(ranges[i], ranges[j]);
      CoversIsInterval(ranges[i], ranges[i].base);
      CoversIsInterval(ranges[j], ranges[i].base);
      forall a: uint64 | Covers(ranges[i], a) && Covers(ranges[j], a)
        ensures Contains(ranges[j], ranges[i])
      {
        SharedIsNested(ranges[i], ranges[j], a);
      }
    }
  }

  // ---------- routing ----------

  /** The first range that covers the address, or -1. */
  function Route(ranges: seq<Range>, address: uint64): (i: int)
    ensures -1 <= i < |ranges|
    ensures i >= 0 ==> Covers(ranges[i], address) && forall j :: 0 <= j < i ==> !Covers(ranges[j], address)
    ensures i < 0 ==> forall j :: 0 <= j < |ranges| ==> !Covers(ranges[j], address)
  {
    if ranges == [] then -1
    else if Covers(ranges[0], address) then 0
    else
      var i := Route(ranges[1..], address);
      assert forall j :: 0 < j < |ranges| ==> ranges[j] == ranges[1..][j - 1];
      if i < 0 then -1 else i + 1
  }

  /** First match is innermost: every other range that covers the address contains the one chosen. */
  lemma FirstMatchIsInnermost(ranges: seq<Range>, address: uint64, j: nat)
    requires Accepted(ranges) && j < |ranges| && Covers(ranges[j], address)
    ensures var i := Route(ranges, address);
      && 0 <= i <= j
      && (i != j ==> Contains(ranges[j], ranges[i]) && (!Wraps(ranges[i]) ==> StrictlyContains(ranges[j], ranges[i])))
  {
    var i := Route(ranges, address);
    if i < j {
      hide Conflicts, Covers, Compatible, Contains;
      AdmittedPair(ranges[i], ranges[j]);
      SharedIsNested(ranges[i], ranges[j], address);
    }
  }

  /** Mapping another device does not re-route an address that was mapped. */
  lemma RoutesAreStable(ranges: seq<Range>, dev: Range, address: uint64)
    requires Route(ranges, address) >= 0
    ensures Route(ranges + [dev], address) == Route(ranges, address)
  {
    assert forall j :: 0 <= j < |ranges| ==> (ranges + [dev])[j] == ranges[j];
  }

  // ---------- devices as values, and the flat memory ----------

  datatype Dev = Dev(base: uint64, mem: seq<uint8>)

  function RangeOf(d: Dev): Range { Range(d.base, |d.mem|) }

  function Ranges(devs: seq<Dev>): (r: seq<Range>)
    ensures |r| == |devs|
    ensures forall i :: 0 <= i < |devs| ==> r[i] == RangeOf(devs[i])
  {
    seq(|devs|, i requires 0 <= i < |devs| => RangeOf(devs[i]))
  }

  predicate SoundDevs(devs: seq<Dev>) {
    forall i :: 0 <= i < |devs| ==> Sound(RangeOf(devs[i]))
  }

  /** The offset into the device an address is routed to; it is inside the device's array. */
  function Offset(devs: seq<Dev>, a: uint64): (o: nat)
    requires SoundDevs(devs) && Route(Ranges(devs), a) >= 0
    ensures o < |devs[Route(Ranges(devs), a)].mem|
  {
    var i := Route(Ranges(devs), a);
    assert Sound(RangeOf(devs[i])) && Covers(RangeOf(devs[i]), a);
    (a - devs[i].base) % TWO64
  }

  predicate IsMapped(devs: seq<Dev>, a: uint64) { Route(Ranges(devs), a) >= 0 }

  function ByteAt(devs: seq<Dev>, a: uint64): uint8
    requires SoundDevs(devs) && IsMapped(devs, a)
  {
    devs[Route(Ranges(devs), a)].mem[Offset(devs, a)]
  }

  /** The memory the bus presents: every routed address with its byte. */
  ghost function Flat(devs: seq<Dev>): Memory
    requires SoundDevs(devs)
  {
    map a: uint64 | 0 <= a < TWO64 && IsMapped(devs, a) :: ByteAt(devs, a)
  }

  /** The flat memory without routing: device `k` is the first that covers the address, if `k` is a device. */
  lemma FlatIs(devs: seq<Dev>, a: uint64, k: nat)
    requires SoundDevs(devs) && k <= |devs|
    requires forall j :: 0 <= j < k ==>
      devs[j].base != a && !(devs[j].base < a < (devs[j].base + |devs[j].mem|) % 0x1_0000_0000_0000_0000)
    requires k < |devs| ==>
      devs[k].base == a || devs[k].base < a < (devs[k].base + |devs[k].mem|) % 0x1_0000_0000_0000_0000
    ensures k == |devs| ==> a !in Flat(devs)
    ensures k < |devs| ==> devs[k].base <= a < devs[k].base + |devs[k].mem|
    ensures k < |devs| ==> a in Flat(devs) && Flat(devs)[a] == devs[k].mem[a - devs[k].base]
  {
    hide Covers, Offset, RangeOf;
    forall j | 0 <= j < |devs|
      ensures Covers(Ranges(devs)[j], a) <==>
        (devs[j].base == a || devs[j].base < a < (devs[j].base + |devs[j].mem|) % 0x1_0000_0000_0000_0000)
    {
      CoversIsComparison(devs[j], a);
    }
    if k < |devs| {
      assert Covers(Ranges(devs)[k], a);
      assert Route(Ranges(devs), a) == k;
      OffsetIs(devs, a);
    }
  }

  lemma CoversIsComparison(d: Dev, a: uint64)
    ensures Covers(RangeOf(d), a) <==>
      (d.base == a || d.base < a < (d.base + |d.mem|) % 0x1_0000_0000_0000_0000)
  {}

  function WriteDev(devs: seq<Dev>, a: uint64, v: uint8): (devs': seq<Dev>)
    requires SoundDevs(devs) && IsMapped(devs, a)
    ensures |devs'| == |devs|
  {
    var i := Route(Ranges(devs), a);
    devs[i := Dev(devs[i].base, devs[i].mem[Offset(devs, a) := v])]
  }

  /** A byte write into the routed device is a write to exactly one address of the flat memory. */
  lemma WriteIsFlat(devs: seq<Dev>, a: uint64, v: uint8)
    requires SoundDevs(devs) && IsMapped(devs, a)
    ensures var devs' := WriteDev(devs, a, v);
      SoundDevs(devs') && Ranges(devs') == Ranges(devs) && Flat(devs') == Flat(devs)[a := v]
  {
    var devs' := WriteDev(devs, a, v);
    assert forall i :: 0 <= i < |devs| ==> RangeOf(devs'[i]) == RangeOf(devs[i]);
    assert Ranges(devs') == Ranges(devs);
    forall x: uint64 | IsMapped(devs, x)
      ensures ByteAt(devs', x) == if x == a then v else ByteAt(devs, x)
    {
      WriteElsewhere(devs, a, v, x);
    }
  }

  lemma WriteElsewhere(devs: seq<Dev>, a: uint64, v: uint8, x: uint64)
    requires SoundDevs(devs) && IsMapped(devs, a) && IsMapped(devs, x)
    requires SoundDevs(WriteDev(devs, a, v)) && Ranges(WriteDev(devs, a, v)) == Ranges(devs)
    ensures ByteAt(WriteDev(devs, a, v), x) == if x == a then v else ByteAt(devs, x)
  {
    hide Flat, Offset, Covers;
    OffsetIs(devs, a);
    OffsetIs(devs, x);
    OffsetIs(WriteDev(devs, a, v), x);
  }

  lemma OffsetIs(devs: seq<Dev>, a: uint64)
    requires SoundDevs(devs) && IsMapped(devs, a)
    ensures Offset(devs, a) == a - devs[Route(Ranges(devs), a)].base
  {
    var r := RangeOf(devs[Route(Ranges(devs), a)]);
    assert Sound(r);
    CoversIsInterval(r, a);
  }

  /** Mapping another device keeps every mapped byte where it was. */
  lemma MappingExtends(devs: seq<Dev>, dev: Dev)
    requires SoundDevs(devs) && Sound(RangeOf(dev))
    ensures SoundDevs(devs + [dev])
    ensures forall a :: a in Flat(devs) ==> a in Flat(devs + [dev]) && Flat(devs + [dev])[a] == Flat(devs)[a]
    ensures forall a: uint64 :: a in Flat(devs + [dev]) <==> a in Flat(devs) || Covers(RangeOf(dev), a)
  {
    var devs' := devs + [dev];
    assert Ranges(devs') == Ranges(devs) + [RangeOf(dev)];
    forall a: uint64
      ensures IsMapped(devs', a) <==> IsMapped(devs, a) || Covers(RangeOf(dev), a)
      ensures IsMapped(devs, a) ==> ByteAt(devs', a) == ByteAt(devs, a)
    {
      assert Ranges(devs')[|devs|] == RangeOf(dev);
      assert forall j :: 0 <= j < |devs| ==> Ranges(devs')[j] == Ranges(devs)[j];
      if IsMapped(devs, a) { RoutesAreStable(Ranges(devs), RangeOf(dev), a); }
    }
  }

  // ---------- the memories a bus can present ----------

  ghost predicate Presents(devs: seq<Dev>, mem: Memory) {
    SoundDevs(devs) && Accepted(Ranges(devs)) && mem == Flat(devs)
  }

  /** Some devices, each admitted when it was mapped, present `mem`. */
  ghost predicate Presentable(mem: Memory) { exists devs :: Presents(devs, mem) }

  lemma WritePresentable(mem: Memory, a: uint64, v: uint8)
    requires Presentable(mem) && a in mem
    ensures Presentable(mem[a := v])
  {
    hide Accepted, ByteAt;
    var devs :| Presents(devs, mem);
    WriteIsFlat(devs, a, v);
    assert Presents(WriteDev(devs, a, v), mem[a := v]);
  }

  /** The byte at an address some device covers is that of the first device that covers it. */
  lemma FlatAt(devs: seq<Dev>, k: nat, a: uint64) returns (j: nat)
    requires SoundDevs(devs) && k < |devs| && Covers(RangeOf(devs[k]), a)
    ensures j <= k && Covers(RangeOf(devs[j]), a) && 0 <= a - devs[j].base < |devs[j].mem|
    ensures a in Flat(devs) && Flat(devs)[a] == devs[j].mem[a - devs[j].base]
  {
    hide Covers, Offset;
    assert Covers(Ranges(devs)[k], a);
    j := Route(Ranges(devs), a);
    assert Covers(Ranges(devs)[j], a);
    OffsetIs(devs, a);
  }

  lemma FlatOff(devs: seq<Dev>, a: uint64)
    requires SoundDevs(devs) && forall k :: 0 <= k < |devs| ==> !Covers(RangeOf(devs[k]), a)
    ensures a !in Flat(devs)
  {
    hide Covers, Offset;
  }
}
