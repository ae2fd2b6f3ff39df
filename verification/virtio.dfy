/** The legacy virtio-mmio block driver of kernel/src/virtio.rs: the sanity
    checks of `new`, the split virtqueue's available ring and the three-part
    descriptor chain of a block request (sections 2.6.5 to 2.6.8 and 5.2.6
    of the VIRTIO 1.1 specification). The device is an oracle: it completes
    each request it is notified of, writing `Reply` into the request. */
module Virtio {
  import opened Bits
  import opened Wrappers

  const SECTOR_SIZE: nat := 512
  const VIRTQ_ENTRY_NUM: nat := 16
  const VIRTIO_MAGIC: nat := 0x74726976
  const VIRTIO_VERSION: nat := 1
  const VIRTIO_DEVICE_BLK: nat := 2
  const VIRTQ_DESC_F_NEXT: nat := 1
  const VIRTQ_DESC_F_WRITE: nat := 2
  const VIRTIO_BLK_T_IN: nat := 0
  const VIRTIO_BLK_T_OUT: nat := 1
  /** Request status values of section 5.2.6 of VIRTIO 1.1. */
  const VIRTIO_BLK_S_OK: nat := 0
  const VIRTIO_BLK_S_IOERR: nat := 1
  const VIRTIO_BLK_S_UNSUPP: nat := 2

  /** A ring index is a `u16`. */
  const INDEX_MODULUS: nat := 0x1_0000

  /** Layout of the packed `BlockRequest`: type, reserved and sector make a
      16-byte header, then 512 data bytes, then the status byte. */
  const REQUEST_HEADER_LEN: nat := 16
  const DATA_OFFSET: nat := 16
  const STATUS_OFFSET: nat := 528
  const REQUEST_SIZE: nat := 529

  datatype Descriptor = Descriptor(addr: uint64, len: uint32, flags: uint16, next: uint16)

  /** The driver's view of the queue: the descriptor table, the available
      ring and its index, the used index the device advances, the queue's
      number and the used index the driver expects. */
  datatype Virtq = Virtq(descriptors: seq<Descriptor>, availIndex: uint16, availRing: seq<uint16>,
                         usedIndex: uint16, queueIndex: uint32, lastUsedIndex: uint16)

  predicate ValidQueue(q: Virtq) {
    |q.descriptors| == VIRTQ_ENTRY_NUM && |q.availRing| == VIRTQ_ENTRY_NUM
  }

  datatype Driver = Driver(virtq: Virtq, capacity: uint64)

  datatype IOError =
    | InvalidSector(sector: uint64, capacity: uint64)
    | NotEnoughSpaceForRead(len: nat)
    | WriteFail(sector: uint64, status: uint8)
    | ReadFail(sector: uint64, status: uint8)

  /** A `BlockRequest` as the driver hands it to the device: its type
      (read or write), the sector, and the 512 bytes of its data field.
      The reserved word and the status byte go out as zero. */
  datatype Request = Request(kind: uint32, sector: uint64, data: seq<uint8>)

  /** What the device leaves in a completed request: the data field (the
      sector's bytes, for a read) and the status byte. */
  datatype Reply = Reply(data: seq<uint8>, status: uint8)

  /** The device: the reply it writes into each request it is notified of. */
  type Device = Request -> Reply

  /** The request `disk_read` sends: type `VIRTIO_BLK_T_IN`, the sector, and
      the zeroed data field of `BlockRequest::default`. */
  function ReadRequest(sector: uint64): (r: Request)
    ensures r.kind == VIRTIO_BLK_T_IN && r.sector == sector
    ensures |r.data| == SECTOR_SIZE && forall i | 0 <= i < SECTOR_SIZE :: r.data[i] == 0
  {
    Request(VIRTIO_BLK_T_IN, sector, WriteData([]))
  }

  /** The request `disk_write` sends: type `VIRTIO_BLK_T_OUT`, the sector,
      and `buf` copied over the zeroed data field. */
  function WriteRequest(buf: seq<uint8>, sector: uint64): (r: Request)
    ensures r.kind == VIRTIO_BLK_T_OUT && r.sector == sector && |r.data| == SECTOR_SIZE
    ensures forall i | 0 <= i < SECTOR_SIZE :: r.data[i] == if i < |buf| then buf[i] else 0
  {
    Request(VIRTIO_BLK_T_OUT, sector, WriteData(buf))
  }

  /** `BlockRequest::ok`: the device reported `VIRTIO_BLK_S_OK`; an I/O
      error or an unsupported request is a failure. */
  predicate RequestOk(status: uint8)
    ensures RequestOk(status) <==> status == VIRTIO_BLK_S_OK
    ensures status == VIRTIO_BLK_S_IOERR || status == VIRTIO_BLK_S_UNSUPP ==> !RequestOk(status)
  {
    status == 0
  }

  /** `Virtq::init` on zeroed pages: every field zero but the queue number. */
  function InitQueue(index: uint32): (r: Virtq)
    ensures ValidQueue(r) && r.queueIndex == index && r.availIndex == 0 && r.lastUsedIndex == r.usedIndex
  {
    Virtq(seq(VIRTQ_ENTRY_NUM, _ => Descriptor(0, 0, 0, 0)), 0, seq(VIRTQ_ENTRY_NUM, _ => 0), 0, index, 0)
  }

  /** `BlockDeviceDriver::new`: the magic value, version and device id read
      from the device must be those of a legacy virtio block device, or it
      panics; the capacity in bytes is the configured sector count times 512
      (a product past 64 bits panics). */
  function New(magic: uint32, version: uint32, deviceId: uint32, configSectors: uint64): (r: Outcome<Driver>)
    ensures r.Done? <==>
      magic == VIRTIO_MAGIC && version == VIRTIO_VERSION && deviceId == VIRTIO_DEVICE_BLK
      && configSectors * SECTOR_SIZE < WORD_MODULUS
    ensures magic != VIRTIO_MAGIC ==> r == Panic("virtio: Invalid magic")
    ensures r.Done? ==>
      && r.value.capacity % SECTOR_SIZE == 0 && r.value.capacity / SECTOR_SIZE == configSectors
      && r.value.virtq == InitQueue(0) && !IsBusy(r.value.virtq)
  {
    if magic != VIRTIO_MAGIC then Panic("virtio: Invalid magic")
    else if version != VIRTIO_VERSION then Panic("virtio: Invalid version")
    else if deviceId != VIRTIO_DEVICE_BLK then Panic("virtio: Invalid device")
    else if configSectors * SECTOR_SIZE >= WORD_MODULUS then Panic("attempt to multiply with overflow")
    else Done(Driver(InitQueue(0), configSectors * SECTOR_SIZE))
  }

  /** The requests kicked but not yet completed by the device, counted
      modulo 2^16 as the ring indices are. */
  function Outstanding(q: Virtq): (r: nat)
    ensures r < INDEX_MODULUS
  {
    if q.lastUsedIndex >= q.usedIndex then q.lastUsedIndex - q.usedIndex
    else q.lastUsedIndex + INDEX_MODULUS - q.usedIndex
  }

  /** `is_busy`: some request is still being processed device side. */
  predicate IsBusy(q: Virtq)
    ensures IsBusy(q) <==> Outstanding(q) != 0
  {
    q.lastUsedIndex != q.usedIndex
  }

  /** A kick adds one outstanding request and a completion takes one away
      (both modulo 2^16), so the queue is idle again exactly when the device
      has completed as many requests as were kicked. */
  lemma KickCounts(q: Virtq, desc: uint16)
    requires ValidQueue(q)
    ensures Outstanding(Kick(q, desc)) == (Outstanding(q) + 1) % INDEX_MODULUS
    ensures Outstanding(Complete(q)) == (Outstanding(q) + INDEX_MODULUS - 1) % INDEX_MODULUS
    ensures Outstanding(Complete(Kick(q, desc))) == Outstanding(q)
  {
  }

  /** `kick` as written: the descriptor goes into the available ring at
      `index mod 16`, then the available index and the expected used index
      are incremented with overflow-checked `u16` additions. */
  function KickAsWritten(q: Virtq, desc: uint16): (r: Outcome<Virtq>)
    requires ValidQueue(q)
    ensures r.Panic? <==> q.availIndex == INDEX_MODULUS - 1 || q.lastUsedIndex == INDEX_MODULUS - 1
    ensures r.Done? ==> r.value == Kick(q, desc)
  {
    var q1 := q.(availRing := q.availRing[q.availIndex % VIRTQ_ENTRY_NUM := desc]);
    if q.availIndex + 1 >= INDEX_MODULUS then Panic("attempt to add with overflow")
    else
      var q2 := q1.(availIndex := q.availIndex + 1);
      if q.lastUsedIndex + 1 >= INDEX_MODULUS then Panic("attempt to add with overflow")
      else Done(q2.(lastUsedIndex := q.lastUsedIndex + 1))
  }

  /** `kick` with the ring indices wrapping at 2^16, as section 2.6.6 of
      VIRTIO 1.1 has them. */
  function Kick(q: Virtq, desc: uint16): (r: Virtq)
    requires ValidQueue(q)
    ensures ValidQueue(r)
    ensures r.descriptors == q.descriptors && r.usedIndex == q.usedIndex && r.queueIndex == q.queueIndex
  {
    q.(availRing := q.availRing[q.availIndex % VIRTQ_ENTRY_NUM := desc],
       availIndex := (q.availIndex + 1) % INDEX_MODULUS,
       lastUsedIndex := (q.lastUsedIndex + 1) % INDEX_MODULUS)
  }

  /** The device consumes one request and publishes it in the used ring. */
  function Complete(q: Virtq): Virtq {
    q.(usedIndex := (q.usedIndex + 1) % INDEX_MODULUS)
  }

  /** The ring entry the device reads for the newest request: the one at
      `avail.idx - 1`, taken modulo 2^16 and then modulo the queue size. */
  function NewestEntry(q: Virtq): uint16
    requires ValidQueue(q)
  {
    q.availRing[((q.availIndex + INDEX_MODULUS - 1) % INDEX_MODULUS) % VIRTQ_ENTRY_NUM]
  }

  /** A kick publishes `desc` as the newest available entry, changes no other
      ring slot, and makes an idle queue busy until the device completes
      exactly one request. */
  lemma KickPublishes(q: Virtq, desc: uint16)
    requires ValidQueue(q)
    ensures var r := Kick(q, desc);
      && NewestEntry(r) == desc
      && (forall j | 0 <= j < VIRTQ_ENTRY_NUM && j != q.availIndex % VIRTQ_ENTRY_NUM :: r.availRing[j] == q.availRing[j])
      && (!IsBusy(q) ==> IsBusy(r) && !IsBusy(Complete(r)))
  {
    var r := Kick(q, desc);
    var i := q.availIndex;
    if i + 1 < INDEX_MODULUS {
      assert (r.availIndex + INDEX_MODULUS - 1) % INDEX_MODULUS == i;
    } else {
      assert r.availIndex == 0;
      assert (r.availIndex + INDEX_MODULUS - 1) % INDEX_MODULUS == i;
    }
  }

  /** The overflow-checked `kick` stops the kernel at the 65536th request,
      where the ring index should wrap to 0. */
  lemma KickAsWrittenPanicsAtWrap(q: Virtq, desc: uint16)
    requires ValidQueue(q) && q.availIndex == INDEX_MODULUS - 1
    ensures KickAsWritten(q, desc).Panic?
    ensures Kick(q, desc).availIndex == 0 && NewestEntry(Kick(q, desc)) == desc
  {
    KickPublishes(q, desc);
  }

  /** `assert_sector_in_range` */
  function AssertSectorInRange(d: Driver, sector: uint64): (r: Result<(), IOError>)
    ensures r.Ok? <==> (sector + 1) * SECTOR_SIZE <= d.capacity
    ensures r.Err? ==> r.error == InvalidSector(sector, d.capacity)
  {
    if sector < d.capacity / SECTOR_SIZE then Ok(()) else Err(InvalidSector(sector, d.capacity))
  }

  /** The three descriptors of a block request at `address`; the data
      descriptor is device-writable for a read. The status descriptor's
      `next` field is left as it was. */
  function SetChain(q: Virtq, address: uint64, read: bool): (r: Virtq)
    requires ValidQueue(q) && address + REQUEST_SIZE <= WORD_MODULUS
    ensures ValidQueue(r) && r.availRing == q.availRing && r.availIndex == q.availIndex
    ensures r.usedIndex == q.usedIndex && r.lastUsedIndex == q.lastUsedIndex && r.queueIndex == q.queueIndex
    ensures forall j | 3 <= j < VIRTQ_ENTRY_NUM :: r.descriptors[j] == q.descriptors[j]
  {
    var d0 := Descriptor(address, REQUEST_HEADER_LEN, VIRTQ_DESC_F_NEXT, 1);
    var d1 := Descriptor(address + DATA_OFFSET, SECTOR_SIZE as uint32,
                         if read then Or(VIRTQ_DESC_F_NEXT, VIRTQ_DESC_F_WRITE) as uint16 else VIRTQ_DESC_F_NEXT, 2);
    var d2 := q.descriptors[2].(addr := address + STATUS_OFFSET, len := 1, flags := VIRTQ_DESC_F_WRITE);
    q.(descriptors := q.descriptors[0 := d0][1 := d1][2 := d2])
  }

  /** The descriptor chain starting at slot 0 lays out one block request at
      `address` as section 5.2.6 of VIRTIO 1.1 prescribes: a device-readable
      16-byte header, 512 data bytes (device-writable exactly for a read)
      and a device-writable status byte, each part right after the previous
      one, linked 0 → 1 → 2 and ending there. */
  predicate RequestChain(q: Virtq, address: uint64, read: bool)
    requires ValidQueue(q)
  {
    var d0, d1, d2 := q.descriptors[0], q.descriptors[1], q.descriptors[2];
    && d0.addr == address && d0.len == REQUEST_HEADER_LEN
    && d1.addr == d0.addr + d0.len && d1.len == SECTOR_SIZE
    && d2.addr == d1.addr + d1.len && d2.len == 1
    && d2.addr + d2.len == address + REQUEST_SIZE
    && Bit(d0.flags, 0) && d0.next == 1 && !Bit(d0.flags, 1)
    && Bit(d1.flags, 0) && d1.next == 2 && (Bit(d1.flags, 1) <==> read)
    && !Bit(d2.flags, 0) && Bit(d2.flags, 1)
  }

  lemma SetChainDescribes(q: Virtq, address: uint64, read: bool)
    requires ValidQueue(q) && address + REQUEST_SIZE <= WORD_MODULUS
    ensures RequestChain(SetChain(q, address, read), address, read)
  {
    assert Or(VIRTQ_DESC_F_NEXT, VIRTQ_DESC_F_WRITE) == 3;
  }

  /** `disk_read` into `buf` from `sector`, with the request at `address`
      and `device` answering it: a buffer shorter than a sector and a sector
      past the end are refused untouched, with nothing sent; otherwise the
      read request for `sector` goes out through the chain and the ring, the
      driver waits for the device, and a status other than `VIRTIO_BLK_S_OK`
      is a failure, while success copies the sector the device returned into
      the front of `buf`. */
  function DiskRead(d: Driver, buf: seq<uint8>, sector: uint64, address: uint64, device: Device)
    : (r: (Driver, Option<Request>, seq<uint8>, Result<(), IOError>))
    requires ValidQueue(d.virtq) && address + REQUEST_SIZE <= WORD_MODULUS
    requires |device(ReadRequest(sector)).data| == SECTOR_SIZE
    ensures |buf| < SECTOR_SIZE ==> r == (d, None, buf, Err(NotEnoughSpaceForRead(|buf|)))
    ensures |buf| >= SECTOR_SIZE && (sector + 1) * SECTOR_SIZE > d.capacity ==>
      r == (d, None, buf, Err(InvalidSector(sector, d.capacity)))
    ensures |buf| >= SECTOR_SIZE && (sector + 1) * SECTOR_SIZE <= d.capacity ==>
      && var (d', sent, buf', res) := r;
      && d'.capacity == d.capacity && ValidQueue(d'.virtq)
      && RequestChain(d'.virtq, address, true) && NewestEntry(d'.virtq) == 0 && !IsBusy(d'.virtq)
      && sent.Some? && sent.value.kind == VIRTIO_BLK_T_IN && sent.value.sector == sector
      && sent.value == ReadRequest(sector)
      && var reply := device(sent.value);
      && (RequestOk(reply.status) ==> res.Ok? && buf' == reply.data + buf[SECTOR_SIZE..])
      && (!RequestOk(reply.status) ==> res == Err(ReadFail(sector, reply.status)) && buf' == buf)
  {
    if |buf| < SECTOR_SIZE then (d, None, buf, Err(NotEnoughSpaceForRead(|buf|)))
    else match AssertSectorInRange(d, sector)
      case Err(e) => (d, None, buf, Err(e))
      case Ok(_) =>
        var request := ReadRequest(sector);
        var q := Submit(d.virtq, address, true);
        var reply := device(request);
        if !RequestOk(reply.status) then (d.(virtq := q), Some(request), buf, Err(ReadFail(sector, reply.status)))
        else (d.(virtq := q), Some(request), reply.data + buf[SECTOR_SIZE..], Ok(()))
  }

  /** Sets up the chain, kicks descriptor 0 and waits until the device has
      completed the request. */
  function Submit(q: Virtq, address: uint64, read: bool): (r: Virtq)
    requires ValidQueue(q) && address + REQUEST_SIZE <= WORD_MODULUS
    ensures ValidQueue(r) && RequestChain(r, address, read) && NewestEntry(r) == 0 && !IsBusy(r)
    ensures r.queueIndex == q.queueIndex
  {
    var q1 := SetChain(q, address, read);
    SetChainDescribes(q, address, read);
    var q2 := Kick(q1, 0);
    KickPublishes(q1, 0);
    q2.(usedIndex := q2.lastUsedIndex)
  }

  /** The span of the request that `disk_write` as written copies `buf`
      over: `buf.len()` bytes from the data field on. */
  function WriteSpanAsWritten(buf: seq<uint8>): (r: (nat, nat))
    ensures r.0 == DATA_OFFSET && r.1 - r.0 == |buf|
  {
    (DATA_OFFSET, DATA_OFFSET + |buf|)
  }

  /** A buffer longer than a sector overruns the 512-byte data field: by one
      byte it overwrites the status byte, by two it leaves the request. */
  lemma WriteOverrunsRequest(buf: seq<uint8>)
    requires |buf| > SECTOR_SIZE
    ensures WriteSpanAsWritten(buf).1 > STATUS_OFFSET
    ensures |buf| > SECTOR_SIZE + 1 ==> WriteSpanAsWritten(buf).1 > REQUEST_SIZE
  {
  }

  /** The data field of a write request: the first bytes of `buf`, at most
      a sector of them, then zeros from `BlockRequest::default`. */
  function WriteData(buf: seq<uint8>): (r: seq<uint8>)
    ensures |r| == SECTOR_SIZE
    ensures forall i | 0 <= i < SECTOR_SIZE :: r[i] == if i < |buf| then buf[i] else 0
  {
    if |buf| >= SECTOR_SIZE then buf[..SECTOR_SIZE] else buf + seq(SECTOR_SIZE - |buf|, _ => 0)
  }

  /** `disk_write` of `buf` to `sector`, with the request at `address` and
      `device` answering it: a sector past the end is refused untouched,
      with nothing sent; otherwise the write request carrying at most a
      sector of `buf` goes out with a device-readable data part, and a
      status other than `VIRTIO_BLK_S_OK` is a failure. */
  function DiskWrite(d: Driver, buf: seq<uint8>, sector: uint64, address: uint64, device: Device)
    : (r: (Driver, Option<Request>, Result<(), IOError>))
    requires ValidQueue(d.virtq) && address + REQUEST_SIZE <= WORD_MODULUS
    ensures (sector + 1) * SECTOR_SIZE > d.capacity ==> r == (d, None, Err(InvalidSector(sector, d.capacity)))
    ensures (sector + 1) * SECTOR_SIZE <= d.capacity ==>
      && var (d', sent, res) := r;
      && d'.capacity == d.capacity && ValidQueue(d'.virtq)
      && RequestChain(d'.virtq, address, false) && NewestEntry(d'.virtq) == 0 && !IsBusy(d'.virtq)
      && sent.Some? && sent.value.kind == VIRTIO_BLK_T_OUT && sent.value.sector == sector
      && sent.value.data == WriteData(buf)
      && var reply := device(sent.value);
      && (res.Ok? <==> RequestOk(reply.status))
      && (res.Err? ==> res.error == WriteFail(sector, reply.status))
  {
    match AssertSectorInRange(d, sector)
    case Err(e) => (d, None, Err(e))
    case Ok(_) =>
      var request := WriteRequest(buf, sector);
      var q := Submit(d.virtq, address, false);
      var reply := device(request);
      (d.(virtq := q), Some(request), if RequestOk(reply.status) then Ok(()) else Err(WriteFail(sector, reply.status)))
  }
}
