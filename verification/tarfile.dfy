/** The ustar archive parser of tarfile/src/lib.rs, after the ustar
    interchange format of the pax utility in IEEE Std 1003.1-2017: entries
    of one 512-byte header block followed by the data blocks, up to a run of
    two zero blocks. The nom combinators are re-expressed as functions from
    the input to what they parse and how many bytes they consume. */
module Ustar {
  import opened Bits
  import opened Wrappers

  const BLOCK_SIZE: nat := 512
  /** The header fields the parser reads: the name at 0 (100 bytes), the
      octal size at 124 (12 bytes) and the magic at 257 (6 bytes). */
  const NAME_LEN: nat := 100
  const SIZE_OFFSET: nat := 124
  const SIZE_LEN: nat := 12
  const MAGIC_OFFSET: nat := 257
  /** The field parsers of `header_block` read this much of the block. */
  const HEADER_READ_LEN: nat := 498

  /** "ustar" and a NUL. */
  const MAGIC: seq<uint8> := [0x75, 0x73, 0x74, 0x61, 0x72, 0]

  datatype TarHeader = TarHeader(name: seq<uint8>, fileSize: uint64)
  datatype FileRef = FileRef(header: TarHeader, data: seq<uint8>)

  /** What a parser does with its input: parses a value consuming `used`
      bytes (nom's `Ok`), fails (nom's `Err`), or panics. */
  datatype Parse<T> = Parsed(value: T, used: nat) | Failure | Crash(msg: string)

  /** The decoder of the octal size field, `common::oct2int`, is a
      parameter: only its value on the field matters here. */
  type Oct2Int = seq<uint8> -> uint64

  /** The length in bytes of `String::from_utf8_lossy` of a byte string,
      also a parameter. Each maximal invalid subsequence (one to three
      bytes) becomes the three bytes of U+FFFD, so the decoding is never
      shorter than the bytes, and longer exactly when some invalid
      subsequence has fewer than three bytes. */
  type LossyLen = seq<uint8> -> nat

  function Zeros(n: nat): (r: seq<uint8>)
    ensures |r| == n && forall i | 0 <= i < n :: r[i] == 0
  {
    seq(n, _ => 0)
  }

  predicate NulFree(s: seq<uint8>) {
    forall i | 0 <= i < |s| :: s[i] != 0
  }

  /** Index of the first NUL of `s`, or `|s|` if there is none. */
  function FirstNul(s: seq<uint8>): (r: nat)
    ensures r <= |s| && NulFree(s[..r]) && (r < |s| ==> s[r] == 0)
  {
    if |s| == 0 || s[0] == 0 then 0
    else
      var r := 1 + FirstNul(s[1..]);
      assert s[..r] == [s[0]] + s[1..][..r - 1];
      r
  }

  /** The first NUL is the end of a NUL-free prefix followed by a NUL. */
  lemma {:induction false} FirstNulOf(a: seq<uint8>, b: seq<uint8>)
    requires NulFree(a) && |b| > 0 && b[0] == 0
    ensures FirstNul(a + b) == |a|
  {
    if |a| > 0 {
      assert (a + b)[1..] == a[1..] + b;
      FirstNulOf(a[1..], b);
    }
  }

  /** `null_terminated`: one or more non-NUL bytes, then a NUL, which is
      consumed but not part of the result. */
  function NullTerminated(s: seq<uint8>): (r: Parse<seq<uint8>>)
    ensures !r.Crash?
    ensures r.Parsed? <==> |s| > 0 && s[0] != 0 && FirstNul(s) < |s|
    ensures r.Parsed? ==> r.used == |r.value| + 1 <= |s| && r.value == s[..r.used - 1] && NulFree(r.value) && s[|r.value|] == 0
  {
    var n := FirstNul(s);
    if n == 0 || n == |s| then Failure else Parsed(s[..n], n + 1)
  }

  /** `null_terminated_padded(max_len)` as written: after the name and its
      NUL it skips `max_len - (len + 1)` more bytes, where `len` is the
      length of the name decoded by `from_utf8_lossy`; the `usize`
      subtraction panics once that length reaches `max_len`. */
  function NullTerminatedPaddedAsWritten(s: seq<uint8>, maxLen: nat, lossyLen: LossyLen): (r: Parse<seq<uint8>>)
    ensures r.Crash? <==> NullTerminated(s).Parsed? && lossyLen(NullTerminated(s).value) + 1 > maxLen
    ensures r.Parsed? ==>
      && NullTerminated(s).Parsed? && r.value == NullTerminated(s).value
      && r.used == NullTerminated(s).used + maxLen - (lossyLen(r.value) + 1)
      && (r.used == maxLen <==> lossyLen(r.value) == |r.value|)
  {
    match NullTerminated(s)
    case Parsed(name, used) =>
      if maxLen < lossyLen(name) + 1 then Crash("attempt to subtract with overflow")
      else
        var skip := maxLen - (lossyLen(name) + 1);
        if |s| - used < skip then Failure
        else Parsed(name, used + skip)
    case _ => Failure
  }

  /** A name field padded to `maxLen`: the bytes before the field's first
      NUL, the whole field when it has none, as the ustar format allows. */
  function NullTerminatedPadded(s: seq<uint8>, maxLen: nat): (r: Parse<seq<uint8>>)
    ensures !r.Crash?
    ensures r.Parsed? <==> |s| >= maxLen && maxLen > 0 && s[0] != 0
    ensures r.Parsed? ==> r.used == maxLen && 0 < |r.value| <= maxLen && r.value == s[..|r.value|] && NulFree(r.value)
    ensures r.Parsed? && |r.value| < maxLen ==> s[|r.value|] == 0
  {
    if |s| < maxLen then Failure
    else
      var n := FirstNul(s[..maxLen]);
      if n == 0 then Failure else Parsed(s[..n], maxLen)
  }

  /** For every name shorter than the field the two agree. */
  lemma PaddedAgreesOnShortNames(s: seq<uint8>, maxLen: nat, lossyLen: LossyLen)
    requires |s| >= maxLen && FirstNul(s) < maxLen
    requires lossyLen(s[..FirstNul(s)]) == FirstNul(s)
    ensures NullTerminatedPaddedAsWritten(s, maxLen, lossyLen) == NullTerminatedPadded(s, maxLen)
  {
    var n := FirstNul(s);
    assert s[..maxLen] == s[..n] + s[n..maxLen];
    FirstNulOf(s[..n], s[n..maxLen]);
  }

  /** `header_block`: the padded name, the size decoded from its field, and
      the magic, which must be "ustar" and a NUL. */
  function HeaderBlock(b: seq<uint8>, oct: Oct2Int): (r: Parse<TarHeader>)
    ensures !r.Crash?
    ensures r.Parsed? <==> |b| >= HEADER_READ_LEN && b[0] != 0 && b[MAGIC_OFFSET..MAGIC_OFFSET + 6] == MAGIC
    ensures r.Parsed? ==>
      && r.used == HEADER_READ_LEN
      && r.value.fileSize == oct(b[SIZE_OFFSET..SIZE_OFFSET + SIZE_LEN])
      && 0 < |r.value.name| <= NAME_LEN && r.value.name == b[..|r.value.name|] && NulFree(r.value.name)
      && (|r.value.name| < NAME_LEN ==> b[|r.value.name|] == 0)
  {
    match NullTerminatedPadded(b, NAME_LEN)
    case Parsed(name, _) =>
      if |b| < HEADER_READ_LEN || b[MAGIC_OFFSET..MAGIC_OFFSET + 6] != MAGIC then Failure
      else Parsed(TarHeader(name, oct(b[SIZE_OFFSET..SIZE_OFFSET + SIZE_LEN])), HEADER_READ_LEN)
    case _ => Failure
  }

  /** `TarHeader::parser`: `header_block` on one whole block, which is
      consumed entirely although the fields end at byte 498. */
  function Header(s: seq<uint8>, oct: Oct2Int): (r: Parse<TarHeader>)
    ensures !r.Crash?
    ensures r.Parsed? <==> |s| >= BLOCK_SIZE && HeaderBlock(s[..BLOCK_SIZE], oct).Parsed?
    ensures r.Parsed? ==> r.used == BLOCK_SIZE && r.value == HeaderBlock(s[..BLOCK_SIZE], oct).value
  {
    if |s| < BLOCK_SIZE then Failure
    else match HeaderBlock(s[..BLOCK_SIZE], oct)
      case Parsed(h, _) => Parsed(h, BLOCK_SIZE)
      case _ => Failure
  }

  /** Number of data blocks of a file: its size divided by 512, rounded up. */
  function DataBlocks(size: nat): (r: nat)
    ensures BLOCK_SIZE * r >= size && BLOCK_SIZE * r < size + BLOCK_SIZE
  {
    size / BLOCK_SIZE + if size % BLOCK_SIZE != 0 then 1 else 0
  }

  /** `FileRef::file_data`: takes the file's whole blocks (the `usize`
      product `num * 512` panics past 64 bits) and keeps the first
      `file_size` bytes of them. */
  function FileData(s: seq<uint8>, h: TarHeader): (r: Parse<FileRef>)
    ensures r.Crash? <==> BLOCK_SIZE * DataBlocks(h.fileSize) >= WORD_MODULUS
    ensures r.Parsed? <==> !r.Crash? && |s| >= BLOCK_SIZE * DataBlocks(h.fileSize)
    ensures r.Parsed? ==>
      && r.used == BLOCK_SIZE * DataBlocks(h.fileSize)
      && r.value == FileRef(h, s[..h.fileSize])
  {
    var num := DataBlocks(h.fileSize);
    if num * BLOCK_SIZE >= WORD_MODULUS then Crash("attempt to multiply with overflow")
    else if |s| < num * BLOCK_SIZE then Failure
    else Parsed(FileRef(h, s[..num * BLOCK_SIZE][..h.fileSize]), num * BLOCK_SIZE)
  }

  /** `FileRef::parser`: a header, then the file's data blocks. */
  function Entry(s: seq<uint8>, oct: Oct2Int): (r: Parse<FileRef>)
    ensures r.Parsed? ==>
      && r.used == BLOCK_SIZE * (1 + DataBlocks(r.value.header.fileSize))
      && r.used % BLOCK_SIZE == 0 && r.used <= |s|
      && Header(s, oct) == Parsed(r.value.header, BLOCK_SIZE)
      && r.value.data == s[BLOCK_SIZE..BLOCK_SIZE + r.value.header.fileSize]
  {
    match Header(s, oct)
    case Parsed(h, n) =>
      (match FileData(s[n..], h)
       case Parsed(f, m) =>
         assert s[n..][..h.fileSize] == s[BLOCK_SIZE..BLOCK_SIZE + h.fileSize];
         Parsed(f, n + m)
       case Failure => Failure
       case Crash(msg) => Crash(msg))
    case _ => Failure
  }

  /** A parser's failure or panic, passed on unchanged to the enclosing
      parser. */
  function Propagate<T, U>(p: Parse<T>): (r: Parse<U>)
    requires !p.Parsed?
    ensures r.Failure? <==> p.Failure?
    ensures r.Crash? ==> p.Crash? && r.msg == p.msg
  {
    if p.Failure? then Failure else Crash(p.msg)
  }

  /** `zero_block`: the end-of-archive marker, two blocks of zeros. */
  predicate EndMarker(s: seq<uint8>) {
    |s| >= 2 * BLOCK_SIZE && forall i | 0 <= i < 2 * BLOCK_SIZE :: s[i] == 0
  }

  /** `tar_file`: before each entry the end marker is tried, and ends the
      archive when it matches; otherwise an entry must parse. Entries come
      back in archive order. */
  function TarFile(s: seq<uint8>, oct: Oct2Int): (r: Parse<seq<FileRef>>)
    decreases |s|
    ensures r.Parsed? ==> r.used % BLOCK_SIZE == 0 && 2 * BLOCK_SIZE <= r.used <= |s|
  {
    if EndMarker(s) then Parsed([], 2 * BLOCK_SIZE)
    else
      var e := Entry(s, oct);
      if !e.Parsed? then Propagate(e)
      else
        var rest := TarFile(s[e.used..], oct);
        if !rest.Parsed? then Propagate(rest)
        else Parsed([e.value] + rest.value, e.used + rest.used)
  }

  // ---------------------------------------------------------------------------
  // Writing archives
  // ---------------------------------------------------------------------------

  /** An archive member as a writer produces it: a name, the 12-byte octal
      size field and the file's bytes. */
  datatype Member = Member(name: seq<uint8>, sizeField: seq<uint8>, data: seq<uint8>)

  /** A member the parser can read back: a non-empty NUL-free name that fits
      the field, a size field that decodes to the data's length, and a
      length whose block count does not overflow. */
  predicate Writable(m: Member, oct: Oct2Int) {
    && Encodable(m) && 0 < |m.name| && NulFree(m.name)
    && oct(m.sizeField) as nat == |m.data|
    && BLOCK_SIZE * DataBlocks(|m.data|) < WORD_MODULUS
  }

  /** A member whose fields fit the header block. */
  predicate Encodable(m: Member) {
    |m.name| <= NAME_LEN && |m.sizeField| == SIZE_LEN
  }

  /** A minimal header block: the fields the parser reads, zeros elsewhere. */
  function HeaderBytes(m: Member): (r: seq<uint8>)
    requires Encodable(m)
    ensures |r| == BLOCK_SIZE
  {
    m.name + Zeros(NAME_LEN - |m.name|) + Zeros(SIZE_OFFSET - NAME_LEN) + m.sizeField
      + Zeros(MAGIC_OFFSET - SIZE_OFFSET - SIZE_LEN) + MAGIC + Zeros(BLOCK_SIZE - MAGIC_OFFSET - 6)
  }

  /** A member's header followed by its data, zero-padded to whole blocks. */
  function MemberBytes(m: Member): (r: seq<uint8>)
    requires Encodable(m)
    ensures |r| == BLOCK_SIZE * (1 + DataBlocks(|m.data|))
  {
    HeaderBytes(m) + m.data + Zeros(BLOCK_SIZE * DataBlocks(|m.data|) - |m.data|)
  }

  /** The members one after another, then the end marker. */
  function Archive(ms: seq<Member>): (r: seq<uint8>)
    requires forall k | 0 <= k < |ms| :: Encodable(ms[k])
  {
    if |ms| == 0 then Zeros(2 * BLOCK_SIZE) else MemberBytes(ms[0]) + Archive(ms[1..])
  }

  /** What the parser should give back for a member. */
  function FileOf(m: Member, oct: Oct2Int): FileRef {
    FileRef(TarHeader(m.name, oct(m.sizeField)), m.data)
  }

  /** What the parser should give back for each member, in order. */
  function Files(ms: seq<Member>, oct: Oct2Int): (r: seq<FileRef>)
    ensures |r| == |ms| && forall k | 0 <= k < |ms| :: r[k] == FileOf(ms[k], oct)
  {
    if |ms| == 0 then [] else [FileOf(ms[0], oct)] + Files(ms[1..], oct)
  }

  lemma HeaderBytesFields(m: Member)
    requires Encodable(m)
    ensures var b := HeaderBytes(m);
      && b[..|m.name|] == m.name
      && (|m.name| < NAME_LEN ==> b[|m.name|] == 0)
      && b[SIZE_OFFSET..SIZE_OFFSET + SIZE_LEN] == m.sizeField
      && b[MAGIC_OFFSET..MAGIC_OFFSET + 6] == MAGIC
  {
    var b := HeaderBytes(m);
    var p1 := m.name + Zeros(NAME_LEN - |m.name|);
    var p2 := p1 + Zeros(SIZE_OFFSET - NAME_LEN);
    var p3 := p2 + m.sizeField;
    var p4 := p3 + Zeros(MAGIC_OFFSET - SIZE_OFFSET - SIZE_LEN);
    var p5 := p4 + MAGIC;
    assert b == p5 + Zeros(BLOCK_SIZE - MAGIC_OFFSET - 6);
    assert b[..|m.name|] == p1[..|m.name|];
    assert b[SIZE_OFFSET..SIZE_OFFSET + SIZE_LEN] == p3[|p2|..];
    assert b[MAGIC_OFFSET..MAGIC_OFFSET + 6] == p5[|p4|..];
  }

  /** A writable member reads back as itself, whatever follows it. */
  lemma EntryRoundTrip(m: Member, rest: seq<uint8>, oct: Oct2Int)
    requires Writable(m, oct)
    ensures Entry(MemberBytes(m) + rest, oct) == Parsed(FileOf(m, oct), |MemberBytes(m)|)
  {
    var s := MemberBytes(m) + rest;
    var b := HeaderBytes(m);
    HeaderBytesFields(m);
    assert s[..BLOCK_SIZE] == b;
    var h := HeaderBlock(b, oct);
    assert b[0] == m.name[0];
    assert h.Parsed?;
    assert h.value == TarHeader(m.name, |m.data|);
    assert s[BLOCK_SIZE..][..|m.data|] == m.data;
  }

  /** A writable member in front of any input is read as that member, and
      the parse goes on with what follows it. */
  lemma TarFileCons(m: Member, t: seq<uint8>, oct: Oct2Int)
    requires Writable(m, oct)
    ensures var r := TarFile(t, oct);
      TarFile(MemberBytes(m) + t, oct)
        == if r.Parsed? then Parsed([FileOf(m, oct)] + r.value, |MemberBytes(m)| + r.used) else Propagate(r)
  {
    var s := MemberBytes(m) + t;
    assert s[0] == m.name[0] by { HeaderBytesFields(m); }
    assert !EndMarker(s);
    EntryRoundTrip(m, t, oct);
    assert s[|MemberBytes(m)|..] == t;
  }

  /** The end marker alone ends the archive, whatever follows it. */
  lemma EmptyArchive(rest: seq<uint8>, oct: Oct2Int)
    ensures TarFile(Archive([]) + rest, oct) == Parsed([], |Archive([])|)
  {
    assert EndMarker(Archive([]) + rest);
  }

  lemma ArchiveCons(ms: seq<Member>, rest: seq<uint8>)
    requires |ms| > 0 && forall k | 0 <= k < |ms| :: Encodable(ms[k])
    ensures Archive(ms) + rest == MemberBytes(ms[0]) + (Archive(ms[1..]) + rest)
  {
    var a, b := MemberBytes(ms[0]), Archive(ms[1..]);
    assert Archive(ms) == a + b;
    ConcatAssoc(a, b, rest);
  }

  lemma ConcatAssoc(a: seq<uint8>, b: seq<uint8>, c: seq<uint8>)
    ensures (a + b) + c == a + (b + c)
  {
  }

  /** An archive written from writable members parses back to their files,
      in order, consuming exactly the archive. */
  lemma {:induction false} ArchiveRoundTrip(ms: seq<Member>, rest: seq<uint8>, oct: Oct2Int)
    requires forall k | 0 <= k < |ms| :: Encodable(ms[k])
    requires forall k | 0 <= k < |ms| :: Writable(ms[k], oct)
    ensures TarFile(Archive(ms) + rest, oct) == Parsed(Files(ms, oct), |Archive(ms)|)
  {
    if |ms| == 0 {
      EmptyArchive(rest, oct);
      assert ms == [];
    } else {
      var t := Archive(ms[1..]) + rest;
      ArchiveCons(ms, rest);
      TarFileCons(ms[0], t, oct);
      ArchiveRoundTrip(ms[1..], rest, oct);
    }
  }

  /** The shape of the repository's two-file test archive: "./hello.txt"
      holding "Hello!\n", then "./meow.txt" holding "Meow!\n"; the one-file
      archive holds only the first. */
  lemma TestArchives(oct: Oct2Int, size7: seq<uint8>, size6: seq<uint8>)
    requires |size7| == SIZE_LEN && oct(size7) == 7 && |size6| == SIZE_LEN && oct(size6) == 6
    ensures var hello := Member(HELLO_NAME, size7, HELLO_DATA);
      var meow := Member(MEOW_NAME, size6, MEOW_DATA);
      && TarFile(Archive([hello, meow]), oct) == Parsed([FileRef(TarHeader(HELLO_NAME, 7), HELLO_DATA),
                                                        FileRef(TarHeader(MEOW_NAME, 6), MEOW_DATA)], 3072)
      && TarFile(Archive([hello]), oct) == Parsed([FileRef(TarHeader(HELLO_NAME, 7), HELLO_DATA)], 2048)
  {
    var hello := Member(HELLO_NAME, size7, HELLO_DATA);
    var meow := Member(MEOW_NAME, size6, MEOW_DATA);
    assert Writable(hello, oct) && Writable(meow, oct);
    assert DataBlocks(7) == 1 && DataBlocks(6) == 1;
    var one, two := [hello], [hello, meow];
    ArchiveRoundTrip(one, [], oct);
    ArchiveRoundTrip(two, [], oct);
    assert Archive(one) + [] == Archive(one);
    assert Archive(two) + [] == Archive(two);
    assert one[1..] == [] && two[1..] == [meow] && [meow][1..] == [];
    assert |Archive(one)| == 2048;
    assert |Archive(two)| == 3072;
    assert Files(one, oct) == [FileOf(hello, oct)];
    assert Files(two, oct) == [FileOf(hello, oct), FileOf(meow, oct)];
  }

  /** "./hello.txt", "Hello!\n", "./meow.txt" and "Meow!\n" as bytes. */
  const HELLO_NAME: seq<uint8> := [0x2e, 0x2f, 0x68, 0x65, 0x6c, 0x6c, 0x6f, 0x2e, 0x74, 0x78, 0x74]
  const HELLO_DATA: seq<uint8> := [0x48, 0x65, 0x6c, 0x6c, 0x6f, 0x21, 0x0a]
  const MEOW_NAME: seq<uint8> := [0x2e, 0x2f, 0x6d, 0x65, 0x6f, 0x77, 0x2e, 0x74, 0x78, 0x74]
  const MEOW_DATA: seq<uint8> := [0x4d, 0x65, 0x6f, 0x77, 0x21, 0x0a]

  /** With the name field full, the parser as written panics where the
      format has a valid 100-byte name, which the padded parser reads. */
  lemma FullNameAsWrittenPanics(m: Member, lossyLen: LossyLen)
    requires |m.name| == NAME_LEN && NulFree(m.name) && |m.sizeField| == SIZE_LEN
    requires lossyLen(m.name) >= |m.name|
    ensures NullTerminatedPaddedAsWritten(HeaderBytes(m), NAME_LEN, lossyLen).Crash?
    ensures NullTerminatedPadded(HeaderBytes(m), NAME_LEN) == Parsed(m.name, NAME_LEN)
  {
    var b := HeaderBytes(m);
    assert b == m.name + (Zeros(NAME_LEN - |m.name|) + Zeros(SIZE_OFFSET - NAME_LEN) + m.sizeField
      + Zeros(MAGIC_OFFSET - SIZE_OFFSET - SIZE_LEN) + MAGIC + Zeros(BLOCK_SIZE - MAGIC_OFFSET - 6));
    FirstNulOf(m.name, b[NAME_LEN..]);
    assert b[..NAME_LEN] == m.name + [];
    assert b[..NAME_LEN] == m.name;
  }

  /** A name whose decoding is longer than its bytes makes the parser as
      written skip too few bytes after it, and the fields after
      the name are read from inside the name field; once the decoded name
      reaches the field's length it panics instead. The padded parser reads
      the name and the whole field. */
  lemma LossyNameAsWrittenMisreads(m: Member, lossyLen: LossyLen)
    requires Encodable(m) && 0 < |m.name| < NAME_LEN && NulFree(m.name)
    requires lossyLen(m.name) > |m.name|
    ensures var r := NullTerminatedPaddedAsWritten(HeaderBytes(m), NAME_LEN, lossyLen);
      && (r.Crash? <==> lossyLen(m.name) >= NAME_LEN)
      && (!r.Crash? ==> r.Parsed? && r.value == m.name && r.used < NAME_LEN)
    ensures NullTerminatedPadded(HeaderBytes(m), NAME_LEN) == Parsed(m.name, NAME_LEN)
  {
    var b := HeaderBytes(m);
    var tail := Zeros(NAME_LEN - |m.name|) + Zeros(SIZE_OFFSET - NAME_LEN) + m.sizeField
      + Zeros(MAGIC_OFFSET - SIZE_OFFSET - SIZE_LEN) + MAGIC + Zeros(BLOCK_SIZE - MAGIC_OFFSET - 6);
    assert b == m.name + tail;
    assert tail[0] == 0;
    FirstNulOf(m.name, tail);
    assert b[..NAME_LEN] == m.name + tail[..NAME_LEN - |m.name|];
    FirstNulOf(m.name, tail[..NAME_LEN - |m.name|]);
  }
}
