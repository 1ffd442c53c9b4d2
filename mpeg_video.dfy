/** MPEG_VIDEO::File: the integer parts of the MPEG program-stream reader.
    The start time comes from the system clock reference (SCR) of the first
    pack header that the walk of readSystemFile decodes, and the average bit
    rate from the bit_rate field of the first video sequence header.

    The file is an immutable byte image: seek followed by readBlock is a
    slice, find is a forward search. Times are kept in 90 kHz clock ticks;
    the division by 90000.0 that turns them into seconds is not part of this
    model. It preserves the sign, so every `startTime < 0` test of the source
    reads the same on ticks. */
module MpegVideo {
  import opened Bytes

  datatype Version = Version1 | Version2

  /** The three bytes every start code begins with. */
  const MARKER_START: seq<byte> := [0x00, 0x00, 0x01]

  const SYSTEM_SYNC_PACKET: byte := 0xBA
  const VIDEO_SYNC_PACKET: byte := 0xB3
  const SYSTEM_PACKET: byte := 0xBB
  const PADDING_PACKET: byte := 0xBE
  const AUDIO_PACKET: byte := 0xC0
  const VIDEO_PACKET: byte := 0xE0
  const END_OF_STREAM: byte := 0xB9
  /** Marker Corrupt (-1) after the `static_cast<unsigned char>` of the switch. */
  const CORRUPT: byte := 0xFF

  /** readSystemFile's bound on the number of markers it visits. */
  const SANITY_LIMIT: nat := 100

  const TWO30: nat := 0x4000_0000
  const TWO33: nat := 0x2_0000_0000

  /** The four-byte start code of a marker. */
  function StartCode(marker: byte): seq<byte> {
    MARKER_START + [marker]
  }

  /** The pattern occurs in file at q. */
  predicate OccursAt(file: seq<byte>, pattern: seq<byte>, q: int) {
    0 <= q && q + |pattern| <= |file| && file[q..q + |pattern|] == pattern
  }

  /** File::find(pattern, from): the first occurrence at or after from, or -1. */
  function Find(file: seq<byte>, pattern: seq<byte>, from: nat): (r: int)
    ensures r == -1 || (from <= r && OccursAt(file, pattern, r))
    ensures forall q :: from <= q && (r == -1 || q < r) ==> !OccursAt(file, pattern, q)
    decreases |file| - from
  {
    if from + |pattern| > |file| then -1
    else if file[from..from + |pattern|] == pattern then from
    else Find(file, pattern, from + 1)
  }

  /** The byte at i. `readBlock(n)[k]` past the end of the file is undefined
      in the source; the model reads a zero byte there. */
  function ByteAt(file: seq<byte>, i: int): byte {
    if 0 <= i < |file| then file[i] else 0
  }

  /** readBlock(n) at pos, indexed as the source indexes it. */
  function Block(file: seq<byte>, pos: int, n: nat): (d: seq<byte>)
    ensures |d| == n && forall k :: 0 <= k < n ==> d[k] == ByteAt(file, pos + k)
  {
    seq(n, k requires 0 <= k < n => ByteAt(file, pos + k))
  }

  /** getMarker(position): the fourth byte of a start code at position, or
      Corrupt. A position of -1 (a failed find) is taken to read no start
      code. */
  function MarkerCode(file: seq<byte>, position: int): (code: byte)
    ensures position < 0 ==> code == CORRUPT
    ensures position >= 0 && OccursAt(file, MARKER_START, position) && position + 4 <= |file| ==>
      code == file[position + 3]
  {
    if position < 0 then CORRUPT
    else
      var id := Take(file, position, 4);
      if |id| == 4 && id[..3] == MARKER_START then id[3] else CORRUPT
  }

  // ----- SCR assembly of readTimeStamp -----

  /** Bit 32 of an MPEG-1 SCR: bit 3 of the first byte. */
  function TicksHighV1(d: seq<byte>): nat
    requires |d| >= 5
  {
    ((d[0] / 8) % 2) as nat
  }

  /** Bits 31..0 of an MPEG-1 SCR. The source ORs shifted fields whose bit
      ranges are disjoint (31..30, 29..22, 21..15, 14..7 and 6..0), so the OR
      is their sum. */
  function TicksLowV1(d: seq<byte>): (v: nat)
    requires |d| >= 5
    ensures v < TWO32
  {
    ((d[0] / 2) % 4) as nat * TWO30 + d[1] as nat * 0x40_0000 + (d[2] / 2) as nat * 0x8000
      + d[3] as nat * 0x80 + (d[4] / 2) as nat
  }

  /** Bit 32 of an MPEG-2 SCR: bit 5 of the first byte. */
  function TicksHighV2(d: seq<byte>): nat
    requires |d| >= 5
  {
    ((d[0] / 0x20) % 2) as nat
  }

  /** Bits 31..0 of an MPEG-2 SCR, from the disjoint fields 31..30, 29..28,
      27..20, 19..15, 14..13, 12..5 and 4..0. */
  function TicksLowV2(d: seq<byte>): (v: nat)
    requires |d| >= 5
    ensures v < TWO32
  {
    ((d[0] / 8) % 4) as nat * TWO30 + (d[0] % 4) as nat * 0x1000_0000 + d[1] as nat * 0x10_0000
      + (d[2] / 8) as nat * 0x8000 + (d[2] % 4) as nat * 0x2000 + d[3] as nat * 0x20 + (d[4] / 8) as nat
  }

  /** The integer part of readTimeStamp: `high * 2^32 + low` in ticks. */
  function Ticks(d: seq<byte>, version: Version): (t: nat)
    requires |d| >= 5
    ensures t < TWO33
  {
    match version
    case Version1 => TicksHighV1(d) * TWO32 + TicksLowV1(d)
    case Version2 => TicksHighV2(d) * TWO32 + TicksLowV2(d)
  }

  /** readTimeStamp(position), in ticks. */
  function TimeStamp(file: seq<byte>, position: int, version: Version): (t: nat)
    ensures t < TWO33
  {
    Ticks(Block(file, position, 5), version)
  }

  /** The five SCR bytes of an MPEG-1 pack header (ISO/IEC 11172-1 section
      2.4.3.2): `0010`, SCR[32..30], marker; SCR[29..22]; SCR[21..15],
      marker; SCR[14..7]; SCR[6..0], marker. */
  function EncodeScrV1(scr: nat): (d: seq<byte>)
    requires scr < TWO33
    ensures |d| == 5
  {
    var r30 := scr % TWO30;
    var r22 := r30 % 0x40_0000;
    var r15 := r22 % 0x8000;
    [(0x21 + (scr / TWO30) * 2) as byte, (r30 / 0x40_0000) as byte,
     ((r22 / 0x8000) * 2 + 1) as byte, (r15 / 0x80) as byte, ((r15 % 0x80) * 2 + 1) as byte]
  }

  /** The six SCR bytes of an MPEG-2 pack header (ISO/IEC 13818-1 section
      2.5.3.3): `01`, SCR[32..30], marker, SCR[29..28]; SCR[27..20];
      SCR[19..15], marker, SCR[14..13]; SCR[12..5]; SCR[4..0], marker,
      SCR_ext[8..7]; SCR_ext[6..0], marker. */
  function EncodeScrV2(scr: nat, ext: nat): (d: seq<byte>)
    requires scr < TWO33 && ext < 512
    ensures |d| == 6
  {
    var r30 := scr % TWO30;
    var r28 := r30 % 0x1000_0000;
    var r20 := r28 % 0x10_0000;
    var r15 := r20 % 0x8000;
    var r13 := r15 % 0x2000;
    assert scr / TWO30 < 8 && r30 / 0x1000_0000 < 4 && r28 / 0x10_0000 < 256;
    assert r20 / 0x8000 < 32 && r15 / 0x2000 < 4 && r13 / 0x20 < 256 && ext / 128 < 4;
    [(0x44 + (scr / TWO30) * 8 + r30 / 0x1000_0000) as byte, (r28 / 0x10_0000) as byte,
     ((r20 / 0x8000) * 8 + 4 + r15 / 0x2000) as byte, (r13 / 0x20) as byte,
     ((r13 % 0x20) * 8 + 4 + ext / 128) as byte, ((ext % 128) * 2 + 1) as byte]
  }

  /** The first byte of an MPEG-1 SCR holds bits 32..30 at bits 3..1. */
  lemma FirstByteV1(a: nat)
    requires a < 8
    ensures (((0x21 + a * 2) / 8) % 2) * 4 + ((0x21 + a * 2) / 2) % 4 == a
  {
  }

  /** The first byte of an MPEG-2 SCR holds bits 32..30 at bits 5..3. */
  lemma FirstByteV2(a: nat, b: nat)
    requires a < 8 && b < 4
    ensures var v := 0x44 + a * 8 + b; ((v / 0x20) % 2) * 4 + (v / 8) % 4 == a && v % 4 == b
  {
  }

  /** readTimeStamp recovers the SCR that an MPEG-1 multiplexer wrote. */
  lemma ScrRoundTripV1(scr: nat)
    requires scr < TWO33
    ensures Ticks(EncodeScrV1(scr), Version1) == scr
  {
    var d := EncodeScrV1(scr);
    FirstByteV1(scr / TWO30);
    assert TicksHighV1(d) * TWO32 + ((d[0] / 2) % 4) as nat * TWO30 == (scr / TWO30) * TWO30;
  }

  /** readTimeStamp recovers the SCR that an MPEG-2 multiplexer wrote, whatever
      the SCR extension. */
  lemma ScrRoundTripV2(scr: nat, ext: nat)
    requires scr < TWO33 && ext < 512
    ensures Ticks(EncodeScrV2(scr, ext), Version2) == scr
  {
    var d := EncodeScrV2(scr, ext);
    var r30 := scr % TWO30;
    var r28 := r30 % 0x1000_0000;
    var r20 := r28 % 0x10_0000;
    var r15 := r20 % 0x8000;
    var r13 := r15 % 0x2000;
    FirstByteV2(scr / TWO30, r30 / 0x1000_0000);
    MarkedByte(r20 / 0x8000, r15 / 0x2000);
    MarkedByte(r13 % 0x20, ext / 128);
    assert TicksHighV2(d) * TWO32 + ((d[0] / 8) % 4) as nat * TWO30 + (d[0] % 4) as nat * 0x1000_0000
      == (scr / TWO30) * TWO30 + (r30 / 0x1000_0000) * 0x1000_0000;
  }

  /** A byte of five high bits, a marker bit and two low bits. */
  lemma MarkedByte(high: nat, low: nat)
    requires high < 32 && low < 4
    ensures (high * 8 + 4 + low) / 8 == high && (high * 8 + 4 + low) % 4 == low
  {
  }

  // ----- readSystemSyncPacket and readSystemFile -----

  /** The part of the file's private state the system walk reads and writes,
      with the walk's local position. */
  datatype SysState = SysState(position: int, version: Version, startTime: int)

  /** Version byte `(v & 0xF0) == 0x20`: an MPEG-1 pack. */
  predicate IsVersion1(v: byte) {
    v / 16 == 2
  }

  /** Version byte `(v & 0xC0) == 0x40`: an MPEG-2 pack. */
  predicate IsVersion2(v: byte) {
    v / 64 == 1
  }

  /** The pack header's length as readSystemSyncPacket counts it from the
      start code: 12 bytes for MPEG-1, 14 plus the pack stuffing length (the
      low three bits of byte 13) for MPEG-2. */
  function PackSize(file: seq<byte>, position: int, version: Version): nat {
    match version
    case Version1 => 12
    case Version2 => 14 + (ByteAt(file, position + 13) % 8) as nat
  }

  /** readSystemSyncPacket(position) on a pack header at s.position. */
  function SyncPacket(file: seq<byte>, s: SysState): SysState {
    var v := ByteAt(file, s.position + 4);
    if IsVersion1(v) || IsVersion2(v) then
      var version := if IsVersion1(v) then Version1 else Version2;
      SysState(s.position + PackSize(file, s.position, version), version,
        if s.startTime < 0 then TimeStamp(file, s.position + 4, version) else s.startTime)
    else
      s
  }

  /** `readBlock(2).toUShort()` at position + 4: a packet's length field. */
  function PacketLength(file: seq<byte>, position: nat): nat {
    ToUShort(Take(file, position + 4, 2))
  }

  /** One iteration of readSystemFile's loop: the next start code at or after
      the position, and the advance its marker prescribes. None stands for
      EndOfStream, which ends the walk. */
  function Step(file: seq<byte>, s: SysState): Option<SysState>
    requires s.position >= 0
  {
    var p := Find(file, MARKER_START, s.position);
    var code := MarkerCode(file, p);
    if code == SYSTEM_SYNC_PACKET then Some(SyncPacket(file, s.(position := p)))
    else if code == SYSTEM_PACKET || code == PADDING_PACKET then Some(s.(position := p + PacketLength(file, p) + 6))
    else if code == VIDEO_PACKET || code == AUDIO_PACKET then Some(s.(position := p + PacketLength(file, p)))
    else if code == END_OF_STREAM then None
    else Some(s.(position := p + 4))
  }

  /** A step never leaves a negative position behind. */
  lemma StepPosition(file: seq<byte>, s: SysState)
    requires s.position >= 0
    ensures Step(file, s).Some? ==> Step(file, s).value.position >= 0
  {
  }

  /** readSystemFile with `fuel` iterations left: it stops when they run out,
      once a start time is set, and at EndOfStream. */
  function Walk(file: seq<byte>, s: SysState, fuel: nat): SysState
    requires s.position >= 0
    decreases fuel
  {
    if fuel == 0 || s.startTime >= 0 then s
    else
      StepPosition(file, s);
      match Step(file, s)
      case None => s
      case Some(t) => Walk(file, t, fuel - 1)
  }

  /** A pack header of an unknown version changes nothing, not even the
      position, so the next iteration finds the same pack again. */
  lemma UnknownVersionStays(file: seq<byte>, s: SysState)
    requires !IsVersion1(ByteAt(file, s.position + 4)) && !IsVersion2(ByteAt(file, s.position + 4))
    ensures SyncPacket(file, s) == s
  {
  }

  /** A start time once set is never replaced: later packs keep it and the
      walk does not even start. */
  lemma FirstPackWins(file: seq<byte>, s: SysState, fuel: nat)
    requires s.position >= 0 && s.startTime >= 0
    ensures SyncPacket(file, s).startTime == s.startTime
    ensures Walk(file, s, fuel) == s
  {
  }

  /** readBlock(k) inside bytes the file is known to hold. */
  lemma BlockOfSlice(file: seq<byte>, p: nat, d: seq<byte>, k: nat)
    requires p + |d| <= |file| && file[p..p + |d|] == d && k <= |d|
    ensures Block(file, p, k) == d[..k]
  {
    forall j | 0 <= j < k ensures Block(file, p, k)[j] == d[..k][j] {
      assert file[p + j] == file[p..p + |d|][j];
    }
  }

  /** The first byte of an MPEG-1 pack header selects version 1. */
  lemma VersionByteV1(scr: nat)
    requires scr < TWO33
    ensures IsVersion1(EncodeScrV1(scr)[0])
  {
  }

  /** The first byte of an MPEG-2 pack header selects version 2. */
  lemma VersionByteV2(scr: nat, ext: nat)
    requires scr < TWO33 && ext < 512
    ensures !IsVersion1(EncodeScrV2(scr, ext)[0]) && IsVersion2(EncodeScrV2(scr, ext)[0])
  {
  }

  /** An MPEG-1 pack header decodes to version 1, its SCR (when no start time
      is set yet) and the position 12 bytes on. */
  lemma PackHeaderV1(file: seq<byte>, s: SysState, scr: nat)
    requires s.position >= 0 && scr < TWO33 && s.position + 9 <= |file|
    requires file[s.position + 4..s.position + 9] == EncodeScrV1(scr)
    ensures SyncPacket(file, s) == SysState(s.position + 12, Version1, if s.startTime < 0 then scr else s.startTime)
  {
    var d := EncodeScrV1(scr);
    BlockOfSlice(file, s.position + 4, d, 5);
    assert d[..5] == d;
    assert ByteAt(file, s.position + 4) == d[0];
    VersionByteV1(scr);
    ScrRoundTripV1(scr);
  }

  /** An MPEG-2 pack header decodes to version 2, its SCR (when no start time
      is set yet) and the position past the header and its stuffing bytes. */
  lemma PackHeaderV2(file: seq<byte>, s: SysState, scr: nat, ext: nat)
    requires s.position >= 0 && scr < TWO33 && ext < 512 && s.position + 14 <= |file|
    requires file[s.position + 4..s.position + 10] == EncodeScrV2(scr, ext)
    ensures SyncPacket(file, s) ==
      SysState(s.position + 14 + (file[s.position + 13] % 8) as nat, Version2, if s.startTime < 0 then scr else s.startTime)
  {
    var d := EncodeScrV2(scr, ext);
    BlockOfSlice(file, s.position + 4, d, 5);
    assert ByteAt(file, s.position + 4) == d[0];
    VersionByteV2(scr, ext);
    ScrRoundTripV2(scr, ext);
    assert Ticks(d[..5], Version2) == Ticks(d, Version2);
  }

  /** A video or audio packet whose length field is zero leaves the position
      on its own start code: the next iteration finds it again, so the walk
      spends its iterations there. */
  lemma EmptyMediaPacketStays(file: seq<byte>, s: SysState)
    requires s.position >= 0 && s.startTime < 0
    requires OccursAt(file, MARKER_START, s.position) && s.position + 6 <= |file|
    requires file[s.position + 3] == VIDEO_PACKET || file[s.position + 3] == AUDIO_PACKET
    requires file[s.position + 4] == 0 && file[s.position + 5] == 0
    ensures Step(file, s) == Some(s)
  {
    var p := s.position;
    assert Find(file, MARKER_START, p) == p;
    assert Take(file, p + 4, 2) == [0, 0];
    assert [0 as byte, 0][..1] == [0] && [0 as byte][..0] == [];
  }

  /** A step that sets the start time decoded a pack start code. */
  lemma StepSetsStart(file: seq<byte>, s: SysState)
    requires s.position >= 0 && s.startTime < 0
    requires Step(file, s).Some? && Step(file, s).value.startTime >= 0
    ensures var p := Find(file, MARKER_START, s.position); var t := Step(file, s).value;
      p >= 0 && OccursAt(file, StartCode(SYSTEM_SYNC_PACKET), p) && t.startTime == TimeStamp(file, p + 4, t.version)
  {
    var p := Find(file, MARKER_START, s.position);
    OnlySyncSetsStart(file, s);
    SyncCodeOccurs(file, p);
  }

  /** Every marker other than SystemSyncPacket moves only the position. */
  lemma OnlySyncSetsStart(file: seq<byte>, s: SysState)
    requires s.position >= 0
    ensures MarkerCode(file, Find(file, MARKER_START, s.position)) != SYSTEM_SYNC_PACKET && Step(file, s).Some? ==>
      Step(file, s).value == s.(position := Step(file, s).value.position)
  {
  }

  /** A start time the walk sets is the SCR of a genuine pack header: a pack
      start code at some position q, with the version the walk ends with. */
  lemma {:induction false} StartTimeFromPack(file: seq<byte>, s: SysState, fuel: nat)
    requires s.position >= 0 && s.startTime < 0
    ensures var r := Walk(file, s, fuel);
      r.startTime < 0 ||
      exists q: nat :: OccursAt(file, StartCode(SYSTEM_SYNC_PACKET), q) && r.startTime == TimeStamp(file, q + 4, r.version)
    decreases fuel
  {
    if fuel > 0 {
      StepPosition(file, s);
      match Step(file, s)
      case None =>
      case Some(t) =>
        if t.startTime < 0 {
          StartTimeFromPack(file, t, fuel - 1);
        } else {
          StepSetsStart(file, s);
          assert Walk(file, t, fuel - 1) == t;
        }
    }
  }

  /** A marker code of SystemSyncPacket is read from a whole pack start code. */
  lemma SyncCodeOccurs(file: seq<byte>, p: int)
    requires MarkerCode(file, p) == SYSTEM_SYNC_PACKET
    ensures OccursAt(file, StartCode(SYSTEM_SYNC_PACKET), p)
  {
    var id := Take(file, p, 4);
    assert id == id[..3] + [id[3]];
  }

  // ----- readVideoHeader's bit rate -----

  /** `(static_cast<int>(data.mid(4, 3).toUInt() >> 6) & 0x3FFFF) * 400`: the
      18-bit bit_rate field of a sequence header in units of 400 bit/s. */
  function AverageBitrate(data: seq<byte>): (r: nat)
    ensures r <= 0x3FFFF * 400 < 0x8000_0000
    ensures r % 400 == 0
  {
    ((ToUInt(Take(data, 4, 3)) / 64) % 0x4_0000) * 400
  }

  /** Bytes 4..6 of a sequence header (ISO/IEC 11172-2 section 2.4.2.3):
      bit_rate (18 bits), marker bit, then the top five bits of
      vbv_buffer_size. */
  function EncodeRate(bitRate: nat, vbvHigh: nat): (d: seq<byte>)
    requires bitRate < 0x4_0000 && vbvHigh < 32
    ensures |d| == 3
  {
    [(bitRate / 0x400) as byte, ((bitRate % 0x400) / 4) as byte, ((bitRate % 4) * 64 + 32 + vbvHigh) as byte]
  }

  lemma BigEndian3(s: seq<byte>)
    requires |s| == 3
    ensures BigEndian(s) == s[0] as nat * 0x1_0000 + s[1] as nat * 0x100 + s[2] as nat
  {
    assert s[..2][..1] == s[..1] && s[..1][..0] == [];
    assert BigEndian(s[..1]) == s[0] as nat;
    assert BigEndian(s[..2]) == s[0] as nat * 0x100 + s[1] as nat;
  }

  /** The bit rate decodes the bit_rate field a multiplexer wrote, whatever
      follows it. */
  lemma BitrateRoundTrip(data: seq<byte>, bitRate: nat, vbvHigh: nat)
    requires bitRate < 0x4_0000 && vbvHigh < 32
    requires |data| >= 7 && data[4..7] == EncodeRate(bitRate, vbvHigh)
    ensures AverageBitrate(data) == bitRate * 400
  {
    assert Take(data, 4, 3) == EncodeRate(bitRate, vbvHigh);
    RateValue(bitRate, vbvHigh);
    assert (bitRate * 64 + 32 + vbvHigh) / 64 == bitRate;
  }

  /** The three rate bytes read as bit_rate followed by six more bits. */
  lemma RateValue(bitRate: nat, vbvHigh: nat)
    requires bitRate < 0x4_0000 && vbvHigh < 32
    ensures BigEndian(EncodeRate(bitRate, vbvHigh)) == bitRate * 64 + 32 + vbvHigh
  {
    var d := EncodeRate(bitRate, vbvHigh);
    BigEndian3(d);
  }

  // ----- the start-time clamp of read -----

  /** read() sets a start time that is still negative to zero. */
  function ClampStart(startTime: int): (r: nat)
    ensures startTime >= 0 ==> r == startTime
    ensures startTime < 0 ==> r == 0
  {
    if startTime < 0 then 0 else startTime
  }

  /** The system part of readStart: the walk from the first pack start code,
      if the file has one. */
  function SystemStart(file: seq<byte>, s: SysState): SysState {
    var start := Find(file, StartCode(SYSTEM_SYNC_PACKET), 0);
    if start >= 0 then Walk(file, s.(position := start), SANITY_LIMIT) else s
  }

  /** The start time read() leaves is zero or the SCR of a pack header. */
  lemma ReadStartTime(file: seq<byte>, s: SysState)
    requires s.startTime < 0
    ensures var r := SystemStart(file, s);
      ClampStart(r.startTime) == 0 ||
      exists q: nat :: OccursAt(file, StartCode(SYSTEM_SYNC_PACKET), q) && ClampStart(r.startTime) == TimeStamp(file, q + 4, r.version)
  {
    var start := Find(file, StartCode(SYSTEM_SYNC_PACKET), 0);
    if start >= 0 {
      StartTimeFromPack(file, s.(position := start), SANITY_LIMIT);
    }
  }

  class File {
    const file: seq<byte>
    var version: Version
    var startTime: int
    var averageBitrate: int
    var valid: bool
    var hasTag: bool

    function Sys(position: int): SysState
      reads this
    {
      SysState(position, version, startTime)
    }

    /** FilePrivate(): no start time (-1), bit rate 0, no tag. The private
        version is left uninitialised by the source; the model takes its
        initial value as a parameter. */
    constructor(file: seq<byte>, version: Version)
      ensures this.file == file && this.version == version
      ensures startTime == -1 && averageBitrate == 0 && valid && !hasTag
    {
      this.file := file;
      this.version := version;
      startTime := -1;
      averageBitrate := 0;
      valid := true;
      hasTag := false;
    }

    /** readSystemSyncPacket(position): position is passed by reference and
        comes back as newPosition. */
    method ReadSystemSyncPacket(position: nat) returns (newPosition: int)
      modifies this
      ensures Sys(newPosition) == SyncPacket(file, old(Sys(position)))
      ensures averageBitrate == old(averageBitrate) && valid == old(valid) && hasTag == old(hasTag)
    {
      newPosition := position;
      var packetSize := 0;
      var versionInfo := ByteAt(file, position + 4);
      if IsVersion1(versionInfo) {
        version := Version1;
        packetSize := 12;
      } else if IsVersion2(versionInfo) {
        version := Version2;
        packetSize := 14 + (ByteAt(file, position + 13) % 8) as nat;
      } else {
        return;
      }
      if startTime < 0 {
        startTime := Ticks(Block(file, position + 4, 5), version);
      }
      newPosition := position + packetSize;
    }

    /** readSystemFile(position): position is a value parameter, so only the
        version and the start time survive the walk. */
    method ReadSystemFile(position: nat)
      modifies this
      ensures var r := Walk(file, old(Sys(position)), SANITY_LIMIT);
        version == r.version && startTime == r.startTime
      ensures averageBitrate == old(averageBitrate) && valid == old(valid) && hasTag == old(hasTag)
    {
      ghost var s0 := Sys(position);
      var pos: int := position;
      var i := 0;
      while i < SANITY_LIMIT && startTime < 0
        invariant 0 <= i <= SANITY_LIMIT && pos >= 0
        invariant Walk(file, s0, SANITY_LIMIT) == Walk(file, Sys(pos), SANITY_LIMIT - i)
        invariant averageBitrate == old(averageBitrate) && valid == old(valid) && hasTag == old(hasTag)
      {
        var endOfStream;
        endOfStream, pos := NextMarker(pos);
        if endOfStream {
          return;
        }
        i := i + 1;
      }
    }

    /** One iteration of readSystemFile's loop: findMarker(position) and the
        switch on its marker. */
    method NextMarker(position: nat) returns (endOfStream: bool, newPosition: int)
      modifies this
      ensures endOfStream <==> Step(file, old(Sys(position))).None?
      ensures endOfStream ==> Sys(position) == old(Sys(position))
      ensures !endOfStream ==> newPosition >= 0 && Step(file, old(Sys(position))) == Some(Sys(newPosition))
      ensures averageBitrate == old(averageBitrate) && valid == old(valid) && hasTag == old(hasTag)
    {
      endOfStream := false;
      var p := Find(file, MARKER_START, position);
      newPosition := p;
      var marker := MarkerCode(file, p);
      if marker == SYSTEM_SYNC_PACKET {
        newPosition := ReadSystemSyncPacket(p);
      } else if marker == SYSTEM_PACKET || marker == PADDING_PACKET {
        newPosition := p + ToUShort(Take(file, p + 4, 2)) + 6;
      } else if marker == VIDEO_PACKET || marker == AUDIO_PACKET {
        newPosition := p + ToUShort(Take(file, p + 4, 2));
      } else if marker == END_OF_STREAM {
        endOfStream := true;
      } else {
        newPosition := p + 4;
      }
    }

    /** readVideoHeader(position): the average bit rate of the sequence
        header at position, and the file marked invalid when fewer than seven
        header bytes follow the start code. The advance of position is not
        modelled: readStart discards it. */
    method ReadVideoHeader(position: nat)
      modifies this
      ensures averageBitrate == AverageBitrate(Take(file, position + 4, 7))
      ensures valid == (old(valid) && |Take(file, position + 4, 7)| >= 7)
      ensures version == old(version) && startTime == old(startTime) && hasTag == old(hasTag)
    {
      var data := Take(file, position + 4, 7);
      if |data| < 7 {
        valid := false;
      }
      averageBitrate := ((ToUInt(Take(data, 4, 3)) / 64) % 0x4_0000) * 400;
    }

    /** The first half of readStart(): readVideoHeader at the first sequence
        start code, when there is one. */
    method ReadFirstVideoHeader()
      modifies this
      ensures var v := Find(file, StartCode(VIDEO_SYNC_PACKET), 0);
        v >= 0 ==> averageBitrate == AverageBitrate(Take(file, v + 4, 7)) && valid == (old(valid) && |Take(file, v + 4, 7)| >= 7)
      ensures Find(file, StartCode(VIDEO_SYNC_PACKET), 0) < 0 ==> averageBitrate == old(averageBitrate) && valid == old(valid)
      ensures version == old(version) && startTime == old(startTime) && hasTag == old(hasTag)
    {
      var position := Find(file, StartCode(VIDEO_SYNC_PACKET), 0);
      if position >= 0 {
        ReadVideoHeader(position);
      }
    }

    /** readStart(): the video header at the first sequence start code, then
        the system walk from the first pack start code. */
    method ReadStart()
      modifies this
      ensures var r := SystemStart(file, old(Sys(0)));
        version == r.version && startTime == r.startTime
      ensures var v := Find(file, StartCode(VIDEO_SYNC_PACKET), 0);
        v >= 0 ==> averageBitrate == AverageBitrate(Take(file, v + 4, 7)) && valid == (old(valid) && |Take(file, v + 4, 7)| >= 7)
      ensures Find(file, StartCode(VIDEO_SYNC_PACKET), 0) < 0 ==> averageBitrate == old(averageBitrate) && valid == old(valid)
      ensures hasTag == old(hasTag)
    {
      ReadFirstVideoHeader();
      var start := Find(file, StartCode(SYSTEM_SYNC_PACKET), 0);
      if start >= 0 {
        ReadSystemFile(start);
      }
    }

    /** read(): readStart, the clamp of a start time that is still negative,
        and an ID3v1 tag for a valid file. readEnd only computes the end time,
        which this model leaves out. */
    method Read()
      modifies this
      ensures startTime == ClampStart(SystemStart(file, old(Sys(0))).startTime)
      ensures version == SystemStart(file, old(Sys(0))).version
      ensures var v := Find(file, StartCode(VIDEO_SYNC_PACKET), 0);
        v >= 0 ==> averageBitrate == AverageBitrate(Take(file, v + 4, 7)) && valid == (old(valid) && |Take(file, v + 4, 7)| >= 7)
      ensures Find(file, StartCode(VIDEO_SYNC_PACKET), 0) < 0 ==> averageBitrate == old(averageBitrate) && valid == old(valid)
      ensures hasTag == (valid || old(hasTag))
    {
      ReadStart();
      if startTime < 0 {
        startTime := 0;
      }
      if valid {
        hasTag := true;
      }
    }
  }
}
