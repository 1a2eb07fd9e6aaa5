/**
 The system bus and its memory devices (src/sysbus/sysbus.c, src/io_devs/io_dev_memory).

 A bus step is proved to be `Machine.BusStep` on the flat memory; mapping a device is proved to
 accept exactly the admitted ranges and to leave everything else as it was.
 */
module SystemBus {
  import opened Words
  import opened Isa
  import opened Machine
  import opened DeviceMap
  import opened LinkedList

  const ENOMEM := 12

  /** A memory device: its metadata's base address and exposed memory. */
  class IoDev {
    const base: uint64
    const memory: array<uint8>

    constructor (base: uint64, memory: array<uint8>)
      ensures this.base == base && this.memory == memory
    {
      this.base, this.memory := base, memory;
    }

    /** `io_dev_memory_write`; the C code does not check the index. */
    method Write(address: uint64, value: uint8)
      requires address < memory.Length
      modifies memory
      ensures memory[..] == old(memory[..])[address := value]
    {
      memory[address] := value;
    }

    /** `io_dev_memory_read`. */
    method Read(address: uint64) returns (value: uint8)
      requires address < memory.Length
      ensures value == memory[address]
    {
      value := memory[address];
    }
  }

  ghost function Memories(devs: seq<IoDev>): set<object> {
    set d | d in devs :: d.memory
  }

  /** The devices as values. */
  ghost function Models(devs: seq<IoDev>): (r: seq<Dev>)
    reads Memories(devs)
    ensures |r| == |devs|
    ensures forall i :: 0 <= i < |devs| ==> r[i] == Dev(devs[i].base, devs[i].memory[..])
  {
    seq(|devs|, i requires 0 <= i < |devs| reads Memories(devs) => Dev(devs[i].base, devs[i].memory[..]))
  }

  function DevRange(d: IoDev): Range { Range(d.base, d.memory.Length) }

  ghost function DevRanges(devs: seq<IoDev>): (r: seq<Range>)
    ensures |r| == |devs|
    ensures forall i :: 0 <= i < |devs| ==> r[i] == DevRange(devs[i])
  {
    seq(|devs|, i requires 0 <= i < |devs| => DevRange(devs[i]))
  }

  lemma ModelRanges(devs: seq<IoDev>)
    ensures Ranges(Models(devs)) == DevRanges(devs)
  {}

  class Sysbus {
    var ioDevs: Node?<IoDev>
    var memwrite: bool
    var address: uint64
    var writedata: uint8
    var readdata: uint8

    /** The nodes of the device list, and the devices they hold. */
    ghost var spine: seq<Node<IoDev>>
    ghost var devs: seq<IoDev>

    ghost predicate Valid()
      reads this`ioDevs, this`spine, this`devs, spine
    {
      && IsList(ioDevs, spine) && |spine| == |devs|
      && (forall i :: 0 <= i < |devs| ==> spine[i].data == devs[i])
      && Accepted(DevRanges(devs))
      && (forall i, j :: 0 <= i < j < |devs| ==> devs[i].memory != devs[j].memory)
    }

    lemma ValidIsSound()
      requires Valid()
      ensures SoundDevs(Models(devs))
    {
      forall i | 0 <= i < |devs|
        ensures Sound(RangeOf(Models(devs)[i]))
      {
        assert Sound(DevRanges(devs)[i]);
      }
    }

    /** The memory the devices present. */
    ghost function FlatMemory(): Memory
      requires Valid()
      reads this`ioDevs, this`spine, this`devs, spine, Memories(devs)
    {
      ValidIsSound();
      Flat(Models(devs))
    }

    lemma MemoryIsPresentable()
      requires Valid()
      ensures Presentable(FlatMemory())
    {
      ValidIsSound();
      ModelRanges(devs);
      assert Presents(Models(devs), FlatMemory());
    }

    /** The flat view: that memory and the bus lines. */
    ghost function Model(): Bus
      requires Valid()
      reads this, spine, Memories(devs)
    {
      Bus(FlatMemory(), memwrite, address, writedata, readdata)
    }

    /** A bus without devices, all lines zero. */
    constructor ()
      ensures Valid() && devs == [] && Model() == Bus(map[], false, 0, 0, 0)
    {
      ioDevs := null;
      memwrite, address, writedata, readdata := false, 0, 0, 0;
      spine, devs := [], [];
      new;
      assert forall a: uint64 :: !IsMapped(Models(devs), a);
    }

    /** The bytes of the flat memory are those of the first device that covers the address. */
    lemma FlatMemoryIs(a: uint64, k: nat)
      requires Valid() && k <= |devs|
      requires forall j :: 0 <= j < k ==>
        devs[j].base != a && !(devs[j].base < a < (devs[j].base + devs[j].memory.Length) % 0x1_0000_0000_0000_0000)
      requires k < |devs| ==>
        devs[k].base == a || devs[k].base < a < (devs[k].base + devs[k].memory.Length) % 0x1_0000_0000_0000_0000
      ensures k == |devs| ==> a !in FlatMemory()
      ensures k < |devs| ==> devs[k].base <= a < devs[k].base + devs[k].memory.Length
      ensures k < |devs| ==> a in FlatMemory() && FlatMemory()[a] == devs[k].memory[a - devs[k].base]
    {
      hide Valid, Flat;
      ValidIsSound();
      FlatIs(Models(devs), a, k);
    }

    /** The write half of `sysbus_do_io_with_dev`. */
    method WriteToDev(dev: IoDev, offset: uint64, ghost k: nat)
      requires Valid() && k < |devs| && dev == devs[k] && offset < dev.memory.Length
      requires SoundDevs(Models(devs)) && IsMapped(Models(devs), address)
      requires Route(Ranges(Models(devs)), address) == k && Offset(Models(devs), address) == offset
      modifies dev.memory
      ensures Valid()
      ensures Models(devs) == if memwrite then WriteDev(old(Models(devs)), address, writedata) else old(Models(devs))
      ensures dev.memory[..] == if memwrite then old(dev.memory[..])[offset := writedata] else old(dev.memory[..])
    {
      hide Valid, WriteDev, Offset;
      ghost var before := Models(devs);
      if memwrite {
        assert forall i :: 0 <= i < |devs| && i != k ==> devs[i].memory != dev.memory by { Distinct(k); }
        dev.Write(offset, writedata);
        OneDeviceWritten(before, Models(devs), address, writedata, k);
      }
    }

    lemma Distinct(k: nat)
      requires Valid() && k < |devs|
      ensures forall i :: 0 <= i < |devs| && i != k ==> devs[i].memory != devs[k].memory
    {}

    lemma RoutedOffset(k: nat)
      requires Valid() && k < |devs| && Route(DevRanges(devs), address) == k
      ensures SoundDevs(Models(devs)) && IsMapped(Models(devs), address) && Route(Ranges(Models(devs)), address) == k
      ensures Offset(Models(devs), address) == (address - devs[k].base) % TWO64 < devs[k].memory.Length
    {
      ModelRanges(devs);
      ValidIsSound();
    }

    /** `sysbus_do_io_with_dev` with the device the address is routed to. */
    method DoIoWithDev(dev: IoDev, ghost k: nat)
      requires Valid() && k < |devs| && dev == devs[k] && Route(DevRanges(devs), address) == k
      modifies this`readdata, dev.memory
      ensures Valid() && Model() == BusStep(old(Model()))
      ensures !memwrite ==> dev.memory[..] == old(dev.memory[..])
    {
      hide Valid, Flat, ByteAt, WriteDev, BusStep, Offset;
      ghost var before, rd := Models(devs), readdata;
      RoutedOffset(k);
      var offset := (address - dev.base) % TWO64;
      WriteToDev(dev, offset, k);
      RoutedOffset(k);
      if memwrite { WriteIsFlat(before, address, writedata); }
      ghost var after := Models(devs);
      var value := dev.Read(offset);
      StepModel(before, after, memwrite, address, writedata, rd);
      readdata := value;
      assert Models(devs) == after;
    }

    /** Only the routed device's bytes differ. */
    static lemma OneDeviceWritten(before: seq<Dev>, after: seq<Dev>, a: uint64, v: uint8, k: nat)
      requires SoundDevs(before) && IsMapped(before, a) && Route(Ranges(before), a) == k
      requires |after| == |before| && after[k] == Dev(before[k].base, before[k].mem[Offset(before, a) := v])
      requires forall i :: 0 <= i < |before| && i != k ==> after[i] == before[i]
      ensures after == WriteDev(before, a, v)
    {}

    static lemma StepModel(before: seq<Dev>, after: seq<Dev>, memwrite: bool, a: uint64, v: uint8, rd: uint8)
      requires SoundDevs(before) && SoundDevs(after) && IsMapped(before, a) && IsMapped(after, a)
      requires Flat(after) == if memwrite then Flat(before)[a := v] else Flat(before)
      ensures BusStep(Bus(Flat(before), memwrite, a, v, rd)) ==
        Bus(Flat(after), memwrite, a, v, after[Route(Ranges(after), a)].mem[Offset(after, a)])
    {
      assert a in Flat(before) && Flat(after)[a] == ByteAt(after, a);
    }

    /** `sysbus_step`: I/O with the first device whose range covers the address, if any. */
    method Step()
      requires Valid()
      modifies this`readdata, Memories(devs)
      ensures Valid() && Model() == BusStep(old(Model()))
      ensures old(address !in FlatMemory()) ==> Model() == old(Model())
      ensures old(address in FlatMemory()) ==>
        && FlatMemory() == old(if memwrite then FlatMemory()[address := writedata] else FlatMemory())
        && address in FlatMemory() && readdata == FlatMemory()[address]
      ensures forall k :: 0 <= k < |devs| ==>
        devs[k].memory[..] == old(devs[k].memory[..]) || (old(memwrite) && k == old(Route(DevRanges(devs), address)))
    {
      hide BusStep, FlatMemory;
      ghost var before := Model();
      BusStepIs(before);
      var current := ioDevs;
      ghost var k := 0;
      while current != null
        invariant k <= |spine| && current == if k < |spine| then spine[k] else null
        invariant forall j :: 0 <= j < k ==> !Covers(DevRanges(devs)[j], address)
        decreases |spine| - k
      {
        assert Linked(spine, k);
        if Covers(DevRange(current.data), address) {
          assert devs[k] in devs;
          DoIoWithDev(current.data, k);
          return;
        }
        current := current.next;
        k := k + 1;
      }
      NotMapped();
    }

    lemma NotMapped()
      requires Valid() && forall j :: 0 <= j < |devs| ==> !Covers(DevRanges(devs)[j], address)
      ensures address !in FlatMemory()
    {
      ModelRanges(devs);
      ValidIsSound();
      assert !IsMapped(Models(devs), address);
    }

    /**
     `sysbus_memory_map_iodev`: 0 exactly if the device's range is admitted, and then the device is
     the last of the list and the caller's pointer is nulled; otherwise nothing changes.
     */
    method MemoryMap(dev: IoDev) returns (err: int, cleared: IoDev?)
      requires Valid() && Sound(DevRange(dev))
      requires forall d :: d in devs ==> d.memory != dev.memory
      modifies this`ioDevs, this`spine, this`devs, spine
      ensures Valid()
      ensures err == if old(Admitted(DevRanges(devs), DevRange(dev))) then 0 else ENOMEM
      ensures err in {0, 12}
      ensures err == 0 ==> devs == old(devs) + [dev] && cleared == null
      ensures err == 0 ==> old(spine) <= spine && |spine| == |old(spine)| + 1 && fresh(spine[|spine| - 1])
      ensures err != 0 ==> devs == old(devs) && spine == old(spine) && ioDevs == old(ioDevs) && cleared == dev
      ensures err != 0 ==> forall n :: n in spine ==> unchanged(n)
    {
      var current := ioDevs;
      var base, max := dev.base, Max(DevRange(dev));
      ghost var k := 0;
      while current != null
        invariant k <= |spine| && current == if k < |spine| then spine[k] else null
        invariant forall j :: 0 <= j < k ==> !Conflicts(DevRanges(devs)[j], DevRange(dev))
        decreases |spine| - k
      {
        assert Linked(spine, k);
        var currentBase, currentMax := current.data.base, Max(DevRange(current.data));
        assert DevRanges(devs)[k] == DevRange(current.data);
        if currentBase <= base && base <= currentMax {
          return ENOMEM, dev;
        }
        if currentBase <= max && max <= currentMax {
          return ENOMEM, dev;
        }
        current := current.next;
        k := k + 1;
      }
      var node := new Node(dev);
      AdmittedIff(DevRanges(devs), DevRange(dev));
      assert DevRanges(devs + [dev]) == DevRanges(devs) + [DevRange(dev)];
      assert Linked([node], 0);
      var head, nulled := Append(ioDevs, node, spine, [node]);
      ioDevs := head;
      spine, devs := spine + [node], devs + [dev];
      return 0, null;
    }

    /** What mapping a device does to the flat memory: mapped bytes stay, and its range joins. */
    lemma MappedBytesStay(before: seq<IoDev>, dev: IoDev)
      requires Accepted(DevRanges(before)) && Accepted(DevRanges(before + [dev]))
      ensures SoundDevs(Models(before)) && SoundDevs(Models(before + [dev]))
      ensures forall a :: a in Flat(Models(before)) ==>
        a in Flat(Models(before + [dev])) && Flat(Models(before + [dev]))[a] == Flat(Models(before))[a]
      ensures forall a: uint64 :: a in Flat(Models(before + [dev])) <==>
        a in Flat(Models(before)) || Covers(DevRange(dev), a)
    {
      assert DevRanges(before + [dev])[|before|] == DevRange(dev);
      assert Sound(DevRange(dev));
      forall i | 0 <= i < |before|
        ensures Sound(RangeOf(Models(before)[i]))
      {
        assert Sound(DevRanges(before)[i]);
      }
      var d := Dev(dev.base, dev.memory[..]);
      assert Models(before + [dev]) == Models(before) + [d];
      MappingExtends(Models(before), d);
    }
  }
}
