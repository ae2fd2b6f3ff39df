/** The kernel's consumer of the archive parser, kernel/src/tar.rs: the
    disk image read sector by sector through the virtio driver, the archive
    parsed from it, and the kernel's own file records. */
module KernelTar {
  import opened Bits
  import opened Wrappers
  import opened Virtio
  import opened Ustar

  /** A file as the kernel keeps it. Names stay bytes. */
  datatype File = File(inUse: bool, name: seq<uint8>, data: seq<uint8>)

  datatype FSError = IOFailure(io: IOError) | Parsing

  /** `File::from`: an archive entry becomes a file in use. */
  function FromRef(f: FileRef): (r: File)
    ensures r.inUse && r.name == f.header.name && r.data == f.data
  {
    File(true, f.header.name, f.data)
  }

  /** `File::size` */
  function Size(f: File): nat {
    |f.data|
  }

  /** `strcpy`: copies `src` up to its first NUL. */
  method Strcpy(src: seq<uint8>) returns (v: seq<uint8>)
    ensures |v| <= |src| && v == src[..|v|]
    ensures NulFree(v)
    ensures |v| < |src| ==> src[|v|] == 0
  {
    v := [];
    var i := 0;
    while i < |src|
      invariant 0 <= i <= |src| && v == src[..i] && NulFree(v)
    {
      if src[i] == 0 {
        return;
      }
      v := v + [src[i]];
      i := i + 1;
    }
  }

  /** The copy is the longest NUL-free prefix: it ends at the first NUL,
      and is the whole of a source without one. */
  lemma StrcpyIsFirstNulPrefix(src: seq<uint8>, v: seq<uint8>)
    requires |v| <= |src| && v == src[..|v|] && NulFree(v)
    requires |v| < |src| ==> src[|v|] == 0
    ensures v == src[..FirstNul(src)]
    ensures NulFree(src) ==> v == src
  {
    if |v| < |src| {
      assert src == v + src[|v|..];
      FirstNulOf(v, src[|v|..]);
    } else {
      assert v == src;
      FirstNulNone(src);
    }
  }

  lemma {:induction false} FirstNulNone(s: seq<uint8>)
    requires NulFree(s)
    ensures FirstNul(s) == |s|
  {
    if |s| > 0 {
      assert NulFree(s[1..]);
      FirstNulNone(s[1..]);
    }
  }

  /** The device's replies to the read requests for sectors `0..n`, in
      order. */
  function ReadReplies(device: Device, n: nat): (r: seq<Reply>)
    requires n <= WORD_MODULUS
    ensures |r| == n && forall k | 0 <= k < n :: r[k] == device(ReadRequest(k))
  {
    seq(n, k requires 0 <= k < n => device(ReadRequest(k)))
  }

  /** Replies that each carry one sector's bytes. */
  predicate SectorReplies(replies: seq<Reply>) {
    forall k | 0 <= k < |replies| :: |replies[k].data| == SECTOR_SIZE
  }

  /** The sectors' bytes one after another. */
  function Sectors(replies: seq<Reply>): (r: seq<uint8>)
    requires SectorReplies(replies)
    ensures |r| == SECTOR_SIZE * |replies|
  {
    if |replies| == 0 then []
    else Sectors(replies[..|replies| - 1]) + replies[|replies| - 1].data
  }

  /** Sector `k` of the image is the device's reply for sector `k`. */
  lemma {:induction false} SectorsAt(replies: seq<Reply>, k: nat)
    requires SectorReplies(replies) && k < |replies|
    ensures Sectors(replies)[SECTOR_SIZE * k..SECTOR_SIZE * (k + 1)] == replies[k].data
  {
    var n := |replies| - 1;
    if k < n {
      SectorsAt(replies[..n], k);
      assert replies[..n][k] == replies[k];
    }
  }

  /** The failure of the first sector the device refuses, if any. */
  predicate FirstFailure(replies: seq<Reply>, n: nat, e: IOError)
    requires n <= |replies|
  {
    && e.ReadFail? && e.sector < n
    && e.status == replies[e.sector].status && !RequestOk(e.status)
    && forall k | 0 <= k < e.sector :: RequestOk(replies[k].status)
  }

  /** `BlockDevice::init`: a zeroed disk of the driver's capacity, whose
      whole sectors are read in order; the first failed read ends it with
      its error. `device` answers the read requests, and the request lives
      at `address`. */
  method InitBlockDevice(d: Driver, address: uint64, device: Device)
    returns (d': Driver, r: Result<seq<uint8>, IOError>)
    requires ValidQueue(d.virtq) && address + REQUEST_SIZE <= WORD_MODULUS
    requires SectorReplies(ReadReplies(device, d.capacity / SECTOR_SIZE))
    ensures d'.capacity == d.capacity
    ensures r.Ok? <==>
      forall k | 0 <= k < d.capacity / SECTOR_SIZE :: RequestOk(device(ReadRequest(k)).status)
    ensures r.Ok? ==>
      r.value == Sectors(ReadReplies(device, d.capacity / SECTOR_SIZE)) + Zeros(d.capacity % SECTOR_SIZE)
    ensures r.Err? ==>
      FirstFailure(ReadReplies(device, d.capacity / SECTOR_SIZE), d.capacity / SECTOR_SIZE, r.error)
  {
    var n := d.capacity / SECTOR_SIZE;
    var replies := ReadReplies(device, n);
    var disk := Zeros(d.capacity);
    d' := d;
    var sector := 0;
    while sector < n
      invariant sector <= n && d'.capacity == d.capacity && ValidQueue(d'.virtq)
      invariant SectorReplies(replies[..sector])
      invariant disk == Sectors(replies[..sector]) + Zeros(d.capacity - SECTOR_SIZE * sector)
      invariant forall k | 0 <= k < sector :: RequestOk(replies[k].status)
    {
      var (d1, _, buf, res) := DiskRead(d', disk[SECTOR_SIZE * sector..], sector, address, device);
      d' := d1;
      if res.Err? {
        r := Err(res.error);
        return;
      }
      disk := disk[..SECTOR_SIZE * sector] + buf;
      SectorsStep(replies, sector, d.capacity);
      sector := sector + 1;
    }
    assert replies[..sector] == replies;
    assert d.capacity - SECTOR_SIZE * sector == d.capacity % SECTOR_SIZE;
    r := Ok(disk);
  }

  /** One more sector read into the zeroed tail of the image. */
  lemma SectorsStep(replies: seq<Reply>, sector: nat, capacity: nat)
    requires SectorReplies(replies) && sector < |replies|
    requires SECTOR_SIZE * (sector + 1) <= capacity
    ensures SectorReplies(replies[..sector + 1])
    ensures var zeros := Zeros(capacity - SECTOR_SIZE * sector);
      (Sectors(replies[..sector]) + zeros)[..SECTOR_SIZE * sector]
        + (replies[sector].data + zeros[SECTOR_SIZE..])
      == Sectors(replies[..sector + 1]) + Zeros(capacity - SECTOR_SIZE * (sector + 1))
  {
    var rs := replies[..sector + 1];
    assert rs[..|rs| - 1] == replies[..sector];
    var zeros := Zeros(capacity - SECTOR_SIZE * sector);
    assert zeros[SECTOR_SIZE..] == Zeros(capacity - SECTOR_SIZE * (sector + 1));
  }

  /** `FileSystem::init`: the archive parsed from the whole disk, its
      entries kept in order; a parse failure becomes `FSError::Parsing`,
      and a panic inside the parser halts the kernel. */
  function InitFileSystem(disk: seq<uint8>, oct: Oct2Int): (r: Outcome<Result<seq<FileRef>, FSError>>)
    ensures r.Panic? <==> TarFile(disk, oct).Crash?
    ensures r == Done(Err(Parsing)) <==> TarFile(disk, oct).Failure?
    ensures r.Done? && r.value.Ok? <==> TarFile(disk, oct).Parsed?
    ensures r.Done? && r.value.Ok? ==> r.value.value == TarFile(disk, oct).value
  {
    match TarFile(disk, oct)
    case Parsed(files, _) => Done(Ok(files))
    case Failure => Done(Err(Parsing))
    case Crash(msg) => Panic(msg)
  }

  /** `From<IOError> for FSError` */
  function FromIOError(e: IOError): (r: FSError)
    ensures r.IOFailure? && r.io == e
  {
    IOFailure(e)
  }

  /** The conversion keeps the device error: distinct errors stay distinct. */
  lemma FromIOErrorInjective(a: IOError, b: IOError)
    ensures FromIOError(a) == FromIOError(b) <==> a == b
  {
  }

  /** Every entry the parser returns holds exactly its header's size in
      bytes, so a kernel file's size is the size its header declares. */
  lemma {:induction false} ParsedSizes(s: seq<uint8>, oct: Oct2Int)
    requires TarFile(s, oct).Parsed?
    ensures forall k | 0 <= k < |TarFile(s, oct).value| ::
      Size(FromRef(TarFile(s, oct).value[k])) == TarFile(s, oct).value[k].header.fileSize
    decreases |s|
  {
    if !EndMarker(s) {
      var e := Entry(s, oct);
      ParsedSizes(s[e.used..], oct);
    }
  }

  /** A disk image that starts with an archive written from writable
      members mounts as those members' files, in order. */
  lemma MountArchive(disk: seq<uint8>, ms: seq<Member>, rest: seq<uint8>, oct: Oct2Int)
    requires forall k | 0 <= k < |ms| :: Encodable(ms[k])
    requires forall k | 0 <= k < |ms| :: Writable(ms[k], oct)
    requires disk == Archive(ms) + rest
    ensures InitFileSystem(disk, oct) == Done(Ok(Files(ms, oct)))
  {
    ArchiveRoundTrip(ms, rest, oct);
  }
}
