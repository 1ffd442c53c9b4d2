/** RIFF::AVI::Properties: the length of an AVI file, read from the AVI main
    header (the `avih` block at the front of the `hdrl` LIST chunk), and the
    repair of the RIFF file's validity that the header's index flag permits.

    The RIFF chunk list is an input: RIFF::File's chunk accessors are not part
    of this model, so the file appears as the sequence of (chunkName(i),
    chunkData(i)) pairs together with its valid flag and lastError status. */
module AviProperties {
  import opened Bytes

  /** RIFF::File::ParseStatus. Only the two values readAVIHeader compares
      with or assigns are named; every other status is OtherError. */
  datatype ParseStatus = NoError | InvalidChunkName | OtherError(code: nat)

  /** One top-level chunk: chunkName(i) and chunkData(i). */
  datatype Chunk = Chunk(name: seq<byte>, data: seq<byte>)

  const LIST: seq<byte> := [0x4C, 0x49, 0x53, 0x54]
  const HDRL: seq<byte> := [0x68, 0x64, 0x72, 0x6C]
  const AVIH: seq<byte> := [0x61, 0x76, 0x69, 0x68]

  /** The offset of the avih block inside the hdrl LIST data. */
  const AVIH_BLOCK_OFFSET: nat := 4
  /** The only avih block size the reader accepts (sizeof AVIMAINHEADER - 8). */
  const AVIH_SIZE: nat := 0x38
  /** dwFlags bit saying that the file carries an idx1 index chunk. */
  const AVIF_HASINDEX: nat := 0x10

  const TWO31: int := 0x8000_0000

  /** ByteVector::startsWith. */
  predicate StartsWith(s: seq<byte>, p: seq<byte>) {
    |p| <= |s| && s[..|p|] == p
  }

  /** `data.mid(offset, 4).toUInt(false)`: a little-endian 32-bit field, built
      from the bytes that exist when data is short. */
  function Field(data: seq<byte>, offset: nat): (v: nat)
    ensures v < TWO32
    ensures offset + 4 <= |data| ==> v == LittleEndian(data[offset..offset + 4])
  {
    ToUIntLE(Take(data, offset, 4))
  }

  /** `static_cast<int>` of an unsigned value on a 32-bit int: the value of
      the int range that is congruent to x modulo 2^32. */
  function Int32(x: int): (r: int)
    ensures -TWO31 <= r < TWO31
    ensures (x - r) % TWO32 == 0
    ensures 0 <= x < TWO31 ==> r == x
  {
    var w := x % TWO32;
    if w < TWO31 then w else w - TWO32
  }

  /** C++ `int / 1000`: the quotient truncated toward zero. */
  function Seconds(ms: int): (s: int)
    ensures (if s < 0 then -s else s) * 1000 <= (if ms < 0 then -ms else ms)
    ensures (if ms < 0 then -ms else ms) < ((if s < 0 then -s else s) + 1) * 1000
    ensures s * ms >= 0
  {
    if ms >= 0 then ms / 1000 else -((-ms) / 1000)
  }

  /** The three AVIMAINHEADER fields the reader uses. */
  datatype MainHeader = MainHeader(microSecPerFrame: nat, flags: nat, totalFrames: nat)

  /** readAVIHeader's acceptance test: the block at blockOffset is named
      `avih` and declares the size 0x38. The fields then come from the fixed
      offsets 12 (dwMicroSecPerFrame), 24 (dwFlags) and 28 (dwTotalFrames) of
      the LIST data. */
  function AcceptedHeader(data: seq<byte>, blockOffset: nat): (h: Option<MainHeader>)
    ensures h.Some? <==> Take(data, blockOffset, 4) == AVIH && Field(data, blockOffset + 4) == AVIH_SIZE
    ensures h.Some? ==> h.value.microSecPerFrame < TWO32 && h.value.flags < TWO32 && h.value.totalFrames < TWO32
  {
    if Take(data, blockOffset, 4) == AVIH && Field(data, blockOffset + 4) == AVIH_SIZE then
      Some(MainHeader(Field(data, 12), Field(data, 24), Field(data, 28)))
    else
      None
  }

  /** `flags & AVIF_HASINDEX` is non-zero: bit 4 of dwFlags. */
  predicate HasIndex(flags: nat) {
    (flags / AVIF_HASINDEX) % 2 == 1
  }

  /** `totalFrames * microSecondsPerFrame / 1000` in size_t arithmetic: the
      product of two 32-bit fields never wraps in 64 bits (HeaderProductFits). */
  function Millis(frames: nat, microSeconds: nat): nat {
    frames * microSeconds / 1000
  }

  /** d->length: the header's duration in milliseconds, cast to int. */
  function LengthMs(h: MainHeader): int {
    Int32(Millis(h.totalFrames, h.microSecPerFrame))
  }

  /** The state readAVIHeader reads and writes: d->length and the RIFF
      file's valid flag and lastError. */
  datatype HeaderState = HeaderState(lengthMs: int, valid: bool, lastError: ParseStatus)

  /** Whether an accepted header repairs the file's state. */
  predicate Repairs(s: HeaderState, h: MainHeader) {
    HasIndex(h.flags) && s.lastError == InvalidChunkName
  }

  /** The state after readAVIHeader(file, data, blockOffset). */
  function AfterHeader(s: HeaderState, data: seq<byte>, blockOffset: nat): HeaderState {
    match AcceptedHeader(data, blockOffset)
    case None => s
    case Some(h) =>
      if Repairs(s, h) then HeaderState(LengthMs(h), true, NoError)
      else s.(lengthMs := LengthMs(h))
  }

  /** read() hands a chunk to readAVIHeader when it is a LIST whose data
      starts with `hdrl`. */
  predicate Selected(c: Chunk) {
    c.name == LIST && StartsWith(c.data, HDRL)
  }

  /** One iteration of read()'s loop. */
  function Visit(s: HeaderState, c: Chunk): HeaderState {
    if Selected(c) then AfterHeader(s, c.data, AVIH_BLOCK_OFFSET) else s
  }

  /** The state after read() has visited the chunks cs in order. */
  function AfterChunks(s: HeaderState, cs: seq<Chunk>): HeaderState
    decreases |cs|
  {
    if cs == [] then s else Visit(AfterChunks(s, cs[..|cs| - 1]), cs[|cs| - 1])
  }

  /** A chunk whose header read() accepts. */
  predicate Counts(c: Chunk) {
    Selected(c) && AcceptedHeader(c.data, AVIH_BLOCK_OFFSET).Some?
  }

  /** The index of the last chunk of cs whose header read() accepts. */
  function LastCounted(cs: seq<Chunk>): (k: Option<nat>)
    ensures k.None? ==> forall i :: 0 <= i < |cs| ==> !Counts(cs[i])
    ensures k.Some? ==> k.value < |cs| && Counts(cs[k.value]) && forall j :: k.value < j < |cs| ==> !Counts(cs[j])
    decreases |cs|
  {
    if cs == [] then None
    else if Counts(cs[|cs| - 1]) then Some(|cs| - 1)
    else
      var k := LastCounted(cs[..|cs| - 1]);
      assert forall i :: 0 <= i < |cs| - 1 ==> cs[..|cs| - 1][i] == cs[i];
      k
  }

  /** The accepted header of a chunk that counts. */
  function HeaderOf(c: Chunk): MainHeader
    requires Counts(c)
  {
    AcceptedHeader(c.data, AVIH_BLOCK_OFFSET).value
  }

  /** A chunk whose accepted header carries the index flag. */
  predicate Indexed(c: Chunk) {
    Counts(c) && HasIndex(HeaderOf(c).flags)
  }

  /** Some accepted header of cs carries the index flag. */
  predicate AnyIndexed(cs: seq<Chunk>) {
    exists i :: 0 <= i < |cs| && Indexed(cs[i])
  }

  /** A header that fails the avih test changes nothing. */
  lemma RejectedHeaderChangesNothing(s: HeaderState, data: seq<byte>, blockOffset: nat)
    requires Take(data, blockOffset, 4) != AVIH || Field(data, blockOffset + 4) != AVIH_SIZE
    ensures AfterHeader(s, data, blockOffset) == s
  {
  }

  /** An accepted header sets the length from its own frame count and frame
      duration alone; it makes the file valid and clears lastError exactly
      when the index flag is set and the file failed on an invalid chunk
      name, and otherwise leaves both as they were. */
  lemma AcceptedHeaderEffect(s: HeaderState, data: seq<byte>, blockOffset: nat)
    requires AcceptedHeader(data, blockOffset).Some?
    ensures var r := AfterHeader(s, data, blockOffset);
      var repaired := HasIndex(Field(data, 24)) && s.lastError == InvalidChunkName;
      r.lengthMs == Int32(Field(data, 28) * Field(data, 12) / 1000) &&
      r.valid == (s.valid || repaired) &&
      r.lastError == (if repaired then NoError else s.lastError)
  {
  }

  /** The length read() leaves is that of the last accepted header, or the
      initial one when no header is accepted: a later header overwrites an
      earlier one. */
  lemma {:induction false} LastHeaderWins(s: HeaderState, cs: seq<Chunk>)
    ensures AfterChunks(s, cs).lengthMs == match LastCounted(cs) case None => s.lengthMs case Some(k) => LengthMs(HeaderOf(cs[k]))
    decreases |cs|
  {
    if cs != [] {
      LastHeaderWins(s, cs[..|cs| - 1]);
    }
  }

  /** Only chunks read() selects affect the result. */
  lemma {:induction false} UnselectedIgnored(s: HeaderState, cs: seq<Chunk>, c: Chunk)
    requires !Selected(c)
    ensures AfterChunks(s, cs + [c]) == AfterChunks(s, cs)
  {
    assert (cs + [c])[..|cs|] == cs;
  }

  /** One chunk repairs the state exactly when it carries an accepted header
      with the index flag and the file failed on an invalid chunk name. */
  lemma VisitRepair(s: HeaderState, c: Chunk)
    ensures var repaired := s.lastError == InvalidChunkName && Indexed(c);
      Visit(s, c).valid == (s.valid || repaired) &&
      Visit(s, c).lastError == (if repaired then NoError else s.lastError)
  {
  }

  /** read() leaves the file valid exactly when it was valid already or when
      it had failed on an invalid chunk name and some accepted header carries
      the index flag; in the second case, and only then, lastError becomes
      NO_ERROR. */
  lemma {:induction false} ValidityRepair(s: HeaderState, cs: seq<Chunk>)
    ensures var repaired := s.lastError == InvalidChunkName && AnyIndexed(cs);
      AfterChunks(s, cs).valid == (s.valid || repaired) &&
      AfterChunks(s, cs).lastError == (if repaired then NoError else s.lastError)
    decreases |cs|
  {
    if cs != [] {
      ValidityRepair(s, cs[..|cs| - 1]);
      VisitRepair(AfterChunks(s, cs[..|cs| - 1]), cs[|cs| - 1]);
      AnyIndexedSnoc(cs);
    }
  }

  lemma AnyIndexedSnoc(cs: seq<Chunk>)
    requires cs != []
    ensures AnyIndexed(cs) <==> AnyIndexed(cs[..|cs| - 1]) || Indexed(cs[|cs| - 1])
  {
    forall i | 0 <= i < |cs| - 1
      ensures cs[..|cs| - 1][i] == cs[i]
    {
    }
  }

  /** For a duration below 2^31 milliseconds the int cast is exact and
      length() is the duration in whole seconds, rounded down. */
  lemma ShortHeaderSeconds(h: MainHeader)
    requires h.totalFrames * h.microSecPerFrame < 1000 * TWO31
    ensures LengthMs(h) == h.totalFrames * h.microSecPerFrame / 1000
    ensures Seconds(LengthMs(h)) == h.totalFrames * h.microSecPerFrame / 1_000_000
  {
    var p := h.totalFrames * h.microSecPerFrame;
    DivDiv(p);
  }

  lemma DivDiv(p: nat)
    ensures p / 1000 / 1000 == p / 1_000_000
  {
    var q := p / 1_000_000;
    var r := p % 1_000_000;
    assert p == q * 1000 * 1000 + (r / 1000) * 1000 + r % 1000;
  }

  /** The product of two 32-bit fields fits in the 64-bit size_t the source
      computes it in, so only the final int cast loses information: here a
      header of 2^31 + 1000 frames of one millisecond each yields a negative
      length. */
  lemma LongHeaderWraps()
    ensures var h := MainHeader(1000, 0, TWO31 + 1000);
      h.totalFrames * h.microSecPerFrame < TWO64 && LengthMs(h) == -TWO31 + 1000 && Seconds(LengthMs(h)) < 0
  {
  }

  /** The size_t product `totalFrames * microSecondsPerFrame` of an accepted
      header never wraps, so Millis may compute it without reduction. */
  lemma HeaderProductFits(data: seq<byte>, blockOffset: nat)
    requires AcceptedHeader(data, blockOffset).Some?
    ensures var h := AcceptedHeader(data, blockOffset).value;
      h.totalFrames * h.microSecPerFrame < TWO64
  {
    var h := AcceptedHeader(data, blockOffset).value;
    ProductFits(h.totalFrames, h.microSecPerFrame);
  }

  /** The product of two 32-bit fields never wraps in 64 bits. */
  lemma ProductFits(a: nat, b: nat)
    requires a < TWO32 && b < TWO32
    ensures a * b < TWO64
  {
    MulMonotone(a, b, TWO32 - 1);
    MulMonotone(TWO32 - 1, a, TWO32 - 1);
  }

  lemma MulMonotone(a: nat, b: nat, c: nat)
    requires b <= c
    ensures a * b <= a * c
  {
    assert a * c - a * b == a * (c - b);
  }

  /** The part of RIFF::File that the AVI reader reads and repairs. */
  class RiffFile {
    const chunks: seq<Chunk>
    var valid: bool
    var lastError: ParseStatus

    constructor(chunks: seq<Chunk>, valid: bool, lastError: ParseStatus)
      ensures this.chunks == chunks && this.valid == valid && this.lastError == lastError
    {
      this.chunks := chunks;
      this.valid := valid;
      this.lastError := lastError;
    }
  }

  class Properties {
    var lengthMs: int
    var bitrate: int
    var sampleRate: int
    var channels: int

    function State(file: RiffFile): HeaderState
      reads this, file
    {
      HeaderState(lengthMs, file.valid, file.lastError)
    }

    /** Properties(file): every field starts at 0, then read(file). */
    constructor(file: RiffFile)
      modifies file
      ensures State(file) == AfterChunks(HeaderState(0, old(file.valid), old(file.lastError)), file.chunks)
      ensures bitrate == 0 && sampleRate == 0 && channels == 0
    {
      lengthMs := 0;
      bitrate := 0;
      sampleRate := 0;
      channels := 0;
      new;
      Read(file);
    }

    /** length(): whole seconds, truncated toward zero. */
    function Length(): int
      reads this
    {
      Seconds(lengthMs)
    }

    function Bitrate(): int reads this { bitrate }
    function SampleRate(): int reads this { sampleRate }
    function Channels(): int reads this { channels }

    /** read(file): readAVIHeader on every selected chunk, in order. */
    method Read(file: RiffFile)
      modifies this, file
      ensures State(file) == AfterChunks(old(State(file)), file.chunks)
      ensures bitrate == old(bitrate) && sampleRate == old(sampleRate) && channels == old(channels)
    {
      ghost var s0 := State(file);
      var i := 0;
      while i < |file.chunks|
        invariant 0 <= i <= |file.chunks|
        invariant State(file) == AfterChunks(s0, file.chunks[..i])
        invariant bitrate == old(bitrate) && sampleRate == old(sampleRate) && channels == old(channels)
      {
        var name := file.chunks[i].name;
        if name == LIST {
          var data := file.chunks[i].data;
          if StartsWith(data, HDRL) {
            ReadAviHeader(file, data, AVIH_BLOCK_OFFSET);
          }
        }
        assert file.chunks[..i + 1][..i] == file.chunks[..i];
        i := i + 1;
      }
      assert file.chunks[..i] == file.chunks;
    }

    /** readAVIHeader(file, data, blockOffset). */
    method ReadAviHeader(file: RiffFile, data: seq<byte>, blockOffset: nat)
      modifies this, file
      ensures State(file) == AfterHeader(old(State(file)), data, blockOffset)
      ensures bitrate == old(bitrate) && sampleRate == old(sampleRate) && channels == old(channels)
    {
      var blockName := Take(data, blockOffset, 4);
      if blockName == AVIH {
        var blockSize := ToUIntLE(Take(data, blockOffset + 4, 4));
        if blockSize != AVIH_SIZE {
          return;
        }
        var flags := ToUIntLE(Take(data, 24, 4));
        if HasIndex(flags) && file.lastError == InvalidChunkName {
          file.valid := true;
          file.lastError := NoError;
        }
        var microSeconds := ToUIntLE(Take(data, 12, 4));
        var totalFrames := ToUIntLE(Take(data, 28, 4));
        lengthMs := Int32(Millis(totalFrames, microSeconds));
      }
    }
  }
}
