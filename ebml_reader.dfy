/** The EBML element header decoder (EBMLReader): variable-length integers for
    the element ID and the data size (RFC 8794 sections 4, 5 and 6), the empty
    and unknown-size special cases (RFC 8794 section 6.2), the consistency check
    against an index-declared ID or size, and the guarded payload readers.

    EBMLReader is a value type in the source (readers are copied into vectors),
    so a reader is the datatype Element; `read()` is the function Read, which
    returns the updated reader together with its verdict, and ReadHeader is the
    same procedure written step by step. */
module EbmlReader {
  import opened Bytes
  import opened EbmlElement

  /** The fields of one EBMLReader. `bound` is where an unknown-size element
      ends: the parent's offset + size(), or the file length for a top-level
      reader. `valid` is isSuccessRead, the verdict of the constructor's read. */
  datatype Element = Element(offset: nat, ebmlId: nat, dataOffset: nat, dataSize: nat, bound: nat, valid: bool)

  datatype ReadOutcome = ReadOutcome(elem: Element, ok: bool)

  /** size(): header bytes plus data bytes, in unsigned 64-bit arithmetic. */
  function Size(e: Element): (n: nat)
    ensures n < TWO64
    ensures e.dataOffset >= e.offset && e.dataOffset - e.offset + e.dataSize < TWO64 ==>
              n == e.dataOffset - e.offset + e.dataSize
  {
    Wrap64(e.dataOffset - e.offset + e.dataSize)
  }

  /** offset() + size(): where the element after this one starts. */
  function End(e: Element): nat {
    e.offset + Size(e)
  }

  /** isAbstract(): the header has not been decoded yet. */
  predicate IsAbstract(e: Element) {
    e.offset == e.dataOffset
  }

  /** `file->length() - 1` as an unsigned 64-bit value (it wraps for an empty file). */
  function OffsetLimit(fileLength: nat): nat {
    if fileLength == 0 then TWO64 - 1 else fileLength - 1
  }

  /** The VINT marker mask for a field of `len` bytes: 0x80 >> (len - 1), and 0 past 8. */
  function Mask(len: int): (m: nat)
    ensures 1 <= len <= 8 ==> 1 <= m <= 128
  {
    if len == 1 then 0x80 else if len == 2 then 0x40 else if len == 3 then 0x20
    else if len == 4 then 0x10 else if len == 5 then 0x08 else if len == 6 then 0x04
    else if len == 7 then 0x02 else if len == 8 then 0x01 else 0
  }

  /** `b & Mask(len)` is non-zero: the marker bit of width len is set. */
  predicate HasBit(b: byte, len: nat)
    requires 1 <= len <= 8
  {
    (b as nat / Mask(len)) % 2 == 1
  }

  /** 1-based position of the most significant set bit, 9 for a zero byte. */
  function FirstSetBit(b: byte): (k: nat)
    ensures 1 <= k <= 9
    ensures k == 9 <==> b == 0
    ensures k <= 8 ==> Mask(k) <= b as nat < 2 * Mask(k)
  {
    if b >= 0x80 then 1 else if b >= 0x40 then 2 else if b >= 0x20 then 3
    else if b >= 0x10 then 4 else if b >= 0x08 then 5 else if b >= 0x04 then 6
    else if b >= 0x02 then 7 else if b >= 0x01 then 8 else 9
  }

  /** The scan of getVINTLength: when every marker bit before len is clear,
      bit len is set exactly when len is the first set bit. */
  lemma ScanStep(b: byte, len: nat)
    requires 1 <= len <= 8 && FirstSetBit(b) >= len
    ensures HasBit(b, len) <==> FirstSetBit(b) == len
  {
    var m := Mask(len);
    if len == 1 {} else if len == 2 {} else if len == 3 {} else if len == 4 {}
    else if len == 5 {} else if len == 6 {} else if len == 7 {} else {}
    assert b as nat < 2 * m && (FirstSetBit(b) == len <==> b as nat >= m);
    BitBelow(b as nat, m);
  }

  /** Below 2m, bit m is set exactly from m on. */
  lemma BitBelow(b: nat, m: nat)
    requires 0 < m && b < 2 * m
    ensures (b / m) % 2 == 1 <==> b >= m
  {
    if b >= m {
      assert b / m == 1;
    } else {
      assert b / m == 0;
    }
  }

  /** getVINTLength: -1 without data, else the marker position capped at maxSize + 1. */
  function VintLength(maxSize: nat, data: seq<byte>): int {
    if data == [] then -1 else Min(FirstSetBit(data[0]), maxSize + 1)
  }

  /** getVINTLength as written: scan the mask down from the most significant bit. */
  method GetVintLength(maxSize: int, data: seq<byte>) returns (length: int, mask: nat)
    requires 1 <= maxSize <= 8
    ensures length == VintLength(maxSize, data)
    ensures data != [] ==> mask == Mask(length)
  {
    if |data| == 0 {
      return -1, 0x80;
    }
    var headerByte := data[0];
    length, mask := 1, 0x80;
    while length <= maxSize && !HasBit(headerByte, length)
      invariant 1 <= length <= maxSize + 1
      invariant mask == Mask(length)
      invariant FirstSetBit(headerByte) >= length
      decreases maxSize + 1 - length
    {
      ScanStep(headerByte, length);
      length := length + 1;
      mask := mask / 2;
    }
    if length <= maxSize {
      ScanStep(headerByte, length);
    }
  }

  /** One decoded VINT field: the width its marker declares, the number of bytes
      that were actually there to read, and the decoded value. */
  datatype Vint = Vint(width: nat, read: nat, value: nat)

  /** The element ID field at pos: at most four bytes, marker kept (toUInt).
      None when the header byte is missing or declares more than four bytes. */
  function IdVint(file: seq<byte>, pos: nat): (r: Option<Vint>)
    ensures r.Some? ==> 1 <= r.value.width <= 4 && r.value.read <= r.value.width && r.value.value < TWO32
    ensures pos < |file| && file[pos] < 0x10 ==> r.None?
  {
    var idLength := VintLength(4, Take(file, pos, 1));
    if idLength < 1 || idLength > 4 then None
    else
      var idData := Take(file, pos, idLength);
      Some(Vint(idLength, |idData|, ToUInt(idData)))
  }

  /** The width of a size field from its first byte: a zero byte (no marker
      within eight bytes) is taken as a one-byte field. */
  function SizeWidth(b: byte): (w: nat)
    ensures 1 <= w <= 8
    ensures b != 0 ==> w == FirstSetBit(b)
    ensures b == 0 ==> w == 1
  {
    var n := VintLength(8, [b]);
    if n > 8 then 1 else n
  }

  /** The first byte of a size field with its marker bit cleared: the marker
      bit's value is taken off, and a zero byte (no marker) stays zero. */
  function ClearMarker(b: byte): (c: byte)
    ensures b == 0 ==> c == 0
    ensures b != 0 ==> c as nat == b as nat - Mask(FirstSetBit(b))
    ensures c <= b
  {
    var n := VintLength(8, [b]);
    if n > 8 then b else Unmarked(b, n)
  }

  /** `b & (Mask(w) - 1)`: the bits of b below the marker of width w. */
  function Unmarked(b: byte, w: nat): (c: byte)
    requires 1 <= w <= 8
    ensures c as nat < Mask(w)
  {
    (b as nat % Mask(w)) as byte
  }

  /** The data size field at pos: at most eight bytes with the marker bit cleared
      (toLongLong). None when there is no byte at pos, that is when reading the
      first size byte yields nothing. */
  function SizeVint(file: seq<byte>, pos: nat): (r: Option<Vint>)
    ensures r.Some? ==> 1 <= r.value.width <= 8 && 1 <= r.value.read <= r.value.width && r.value.value < TWO64
    ensures r.None? <==> pos >= |file|
  {
    if pos >= |file| then None
    else
      var width := SizeWidth(file[pos]);
      var rest := if width > 1 then Take(file, pos + 1, width - 1) else [];
      Some(Vint(width, 1 + |rest|, ToLongLong([ClearMarker(file[pos])] + rest)))
  }

  /** The reader after a decoded header: an all-ones one-byte size (0x7F once
      the marker is cleared) means "unknown", and the element then extends to
      `bound` (unsigned 64-bit subtraction). The verdict checks the declared ID
      and size, each only when it is non-zero. */
  function Decoded(e: Element, id: Vint, size: Vint): (r: ReadOutcome)
    ensures r.elem.offset == e.offset && r.elem.bound == e.bound && r.elem.valid == e.valid
    ensures r.elem.dataOffset == e.offset + id.width + size.width
  {
    var next := DecodedElem(e, id, size);
    ReadOutcome(next, Consistent(e, next))
  }

  function DecodedElem(e: Element, id: Vint, size: Vint): (r: Element)
    ensures r.offset == e.offset && r.bound == e.bound && r.valid == e.valid
    ensures r.dataOffset == e.offset + id.width + size.width
  {
    var header := id.width + size.width;
    var dataSize := if size.width == 1 && size.value == 0x7F then Wrap64(e.bound - e.offset - header) else size.value;
    e.(ebmlId := id.value, dataSize := dataSize, dataOffset := e.offset + header)
  }

  predicate Consistent(e: Element, next: Element) {
    (e.ebmlId == 0 || e.ebmlId == next.ebmlId) && (Size(e) == 0 || Size(e) == Size(next))
  }

  /** read(): decode the header at e.offset unless it is already decoded.
      A size field whose first byte lies past the end of the file is a failure
      here; the source indexes an empty buffer at that point. */
  function Read(file: seq<byte>, e: Element): (r: ReadOutcome)
    ensures r.elem.offset == e.offset && r.elem.bound == e.bound && r.elem.valid == e.valid
    ensures !IsAbstract(e) ==> r == ReadOutcome(e, true)
    ensures IsAbstract(e) && e.offset >= OffsetLimit(|file|) ==> r == ReadOutcome(e, false)
    ensures IsAbstract(e) && e.offset < |file| && file[e.offset] < 0x10 ==> r == ReadOutcome(e, false)
    ensures IsAbstract(e) && r.elem != e ==> e.offset + 2 <= r.elem.dataOffset <= e.offset + 12 && e.offset + 1 < |file|
    ensures IsAbstract(e) && r.ok ==> r.elem != e
    ensures IsAbstract(e) && r.ok ==> (e.ebmlId == 0 || r.elem.ebmlId == e.ebmlId) && (Size(e) == 0 || Size(r.elem) == Size(e))
  {
    if !IsAbstract(e) then ReadOutcome(e, true)
    else if e.offset >= OffsetLimit(|file|) then ReadOutcome(e, false)
    else match IdVint(file, e.offset)
      case None => ReadOutcome(e, false)
      case Some(id) =>
        match SizeVint(file, e.offset + id.read)
        case None => ReadOutcome(e, false)
        case Some(size) => Decoded(e, id, size)
  }

  /** The ID part of read(): the header byte, then the remaining bytes of the field. */
  method ReadIdField(file: seq<byte>, pos: nat) returns (r: Option<Vint>)
    ensures r == IdVint(file, pos)
  {
    var headerBytes := Take(file, pos, 1);
    var idLength, mask := GetVintLength(4, headerBytes);
    if idLength < 1 || idLength > 4 {
      return None;
    }
    var idData := headerBytes;
    if idLength > 1 {
      idData := idData + Take(file, pos + 1, idLength - 1);
    }
    assert idData == Take(file, pos, idLength);
    r := Some(Vint(idLength, |idData|, ToUInt(idData)));
  }

  /** The size part of read(): the first byte with its marker bit cleared,
      then the remaining bytes of the field. */
  method ReadSizeField(file: seq<byte>, pos: nat) returns (r: Option<Vint>)
    ensures r == SizeVint(file, pos)
  {
    var sizeBytes := Take(file, pos, 1);
    if sizeBytes == [] {
      return None;
    }
    assert sizeBytes == [file[pos]];
    var sizeLength, mask := GetVintLength(8, sizeBytes);
    if sizeLength > 8 {
      sizeLength := 1;
    } else {
      sizeBytes := [(sizeBytes[0] as nat % mask) as byte];
    }
    assert sizeLength == SizeWidth(file[pos]) && sizeBytes == [ClearMarker(file[pos])];
    var read := 1;
    if sizeLength > 1 {
      var rest := Take(file, pos + 1, sizeLength - 1);
      sizeBytes := sizeBytes + rest;
      read := 1 + |rest|;
    }
    r := Some(Vint(sizeLength, read, ToLongLong(sizeBytes)));
  }

  /** read() as the source writes it: an already decoded reader and an offset
      at or past the last byte are answered at once, otherwise the header is
      decoded field by field. */
  method ReadHeader(file: seq<byte>, e: Element) returns (r: Element, ok: bool)
    ensures ReadOutcome(r, ok) == Read(file, e)
  {
    if !IsAbstract(e) {
      return e, true;
    }
    if e.offset >= OffsetLimit(|file|) {
      return e, false;
    }
    r, ok := DecodeHeader(file, e);
  }

  /** The decoding part of read(): the declared ID and size are saved, the two
      fields decoded in turn, and the fields assigned one after the other. */
  method DecodeHeader(file: seq<byte>, e: Element) returns (r: Element, ok: bool)
    requires IsAbstract(e) && e.offset < OffsetLimit(|file|)
    ensures ReadOutcome(r, ok) == Read(file, e)
  {
    var id := ReadIdField(file, e.offset);
    if id.None? {
      return e, false;
    }
    var size := ReadSizeField(file, e.offset + id.value.read);
    if size.None? {
      return e, false;
    }
    ReadIsDecoded(file, e, id.value, size.value);
    r, ok := AssignFields(e, id.value, size.value);
  }

  /** The assignments that end read(): the declared ID and size are saved, the
      decoded fields stored, an unknown size resolved against the bound, and the
      saved values compared with the new ones. */
  method AssignFields(e: Element, id: Vint, size: Vint) returns (r: Element, ok: bool)
    ensures ReadOutcome(r, ok) == Decoded(e, id, size)
  {
    var idCheck, sizeCheck := e.ebmlId, Size(e);
    var dataSize := size.value;
    var header := id.width + size.width;
    if size.width == 1 && dataSize == 0x7F {
      dataSize := Wrap64(e.bound - e.offset - header);
    }
    r := e.(ebmlId := id.value, dataSize := dataSize, dataOffset := e.offset + header);
    ok := (idCheck == 0 || idCheck == r.ebmlId) && (sizeCheck == 0 || sizeCheck == Size(r));
  }

  /** When both fields decode, read() is Decoded of them. */
  lemma ReadIsDecoded(file: seq<byte>, e: Element, id: Vint, size: Vint)
    requires IsAbstract(e) && e.offset < OffsetLimit(|file|)
    requires IdVint(file, e.offset) == Some(id) && SizeVint(file, e.offset + id.read) == Some(size)
    ensures Read(file, e) == Decoded(e, id, size)
  {
  }

  /** The scanning constructor: a top-level reader at `position`, read at once. */
  function Open(file: seq<byte>, position: nat): (e: Element)
    ensures e.offset == position && e.bound == |file|
  {
    var r := Read(file, Element(position, 0, position, 0, |file|, false));
    r.elem.(valid := r.ok)
  }

  /** The child constructor: a reader at `position` inside `parent`, optionally
      with a declared ID and size (an index entry), read at once. */
  function Child(file: seq<byte>, parent: Element, position: nat, id: nat, size: nat): (e: Element)
    ensures e.offset == position && e.bound == parent.offset + Size(parent)
  {
    var r := Read(file, Element(position, id, position, size, parent.offset + Size(parent), false));
    r.elem.(valid := r.ok)
  }

  /** readBytes(): nothing for an empty element, else dataSize bytes at dataOffset. */
  function ReadBytes(file: seq<byte>, e: Element): (b: seq<byte>)
    ensures e.dataSize == 0 ==> b == []
    ensures e.dataSize > 0 && e.dataOffset + e.dataSize <= |file| ==>
              b == file[e.dataOffset..e.dataOffset + e.dataSize]
    ensures |b| <= e.dataSize
  {
    if e.dataSize == 0 then [] else Take(file, e.dataOffset, e.dataSize)
  }

  /** readUInt(): 0 for an empty element, else getUInt of the payload. */
  function ReadUInt(file: seq<byte>, e: Element): (v: nat)
    ensures e.dataSize == 0 ==> v == 0
    ensures 0 < e.dataSize <= 4 && e.dataOffset + e.dataSize <= |file| ==>
              v == BigEndian(file[e.dataOffset..e.dataOffset + e.dataSize])
    ensures v < TWO32
  {
    if e.dataSize == 0 then 0 else GetUInt(ReadBytes(file, e))
  }

  /** readString(): "" for an empty element, else getString of the payload. */
  function ReadString(file: seq<byte>, e: Element): (s: string)
    ensures e.dataSize == 0 ==> s == ""
    ensures e.dataSize > 0 ==> s == GetString(ReadBytes(file, e))
    ensures e.dataSize > 0 && e.dataOffset + e.dataSize <= |file| && 0 !in file[e.dataOffset..e.dataOffset + e.dataSize] ==>
              s == Decode(file[e.dataOffset..e.dataOffset + e.dataSize])
  {
    if e.dataSize == 0 then "" else GetString(ReadBytes(file, e))
  }

  /** A payload that holds a NUL is cut at its first one. */
  lemma ReadStringCutsAtNul(file: seq<byte>, e: Element, k: nat)
    requires e.dataOffset + e.dataSize <= |file| && k < e.dataSize
    requires file[e.dataOffset + k] == 0 && 0 !in file[e.dataOffset..e.dataOffset + k]
    ensures ReadString(file, e) == Decode(file[e.dataOffset..e.dataOffset + k])
  {
    var b := ReadBytes(file, e);
    assert b == file[e.dataOffset..e.dataOffset + e.dataSize];
    var s := GetString(b);
    assert b[k] == 0;
    assert |s| == k;
    assert b[..k] == file[e.dataOffset..e.dataOffset + k];
  }

  /** 2^(7w): one more than the largest value a size field of width w holds. */
  function VintCapacity(w: nat): (c: nat)
    requires 1 <= w <= 8
    ensures c <= Pow256(7)
  {
    Pow256Monotone(w - 1, 7);
    if w == 8 then Pow256(7) else
      Pow256Monotone(w, 7);
      Mask(w) * Pow256(w - 1)
  }

  lemma DivBelow(v: nat, m: nat, p: nat)
    requires p > 0 && v < m * p
    ensures v / p < m
  {
  }

  /** The first byte of a field of width w whose value has high bits hi:
      the marker bit plus hi. */
  function MarkerByte(w: nat, hi: nat): (b: byte)
    requires 1 <= w <= 8 && hi < Mask(w)
    ensures FirstSetBit(b) == w && Unmarked(b, w) as nat == hi
  {
    MarkerPlus(w, hi);
    (Mask(w) + hi) as byte
  }

  lemma MarkerPlus(w: nat, hi: nat)
    requires 1 <= w <= 8 && hi < Mask(w)
    ensures Mask(w) + hi < 256
    ensures FirstSetBit((Mask(w) + hi) as byte) == w && (Mask(w) + hi) % Mask(w) == hi
  {
    if w == 1 {} else if w == 2 {} else if w == 3 {} else if w == 4 {}
    else if w == 5 {} else if w == 6 {} else if w == 7 {} else {}
  }

  /** The size field of width w that encodes v (the partner of SizeVint):
      the marker bit of position w with the high bits of v, then w - 1 bytes. */
  function EncodeSize(v: nat, w: nat): (b: seq<byte>)
    requires 1 <= w <= 8 && v < VintCapacity(w)
    ensures |b| == w && FirstSetBit(b[0]) == w
  {
    var p := Pow256(w - 1);
    DivBelow(v, Mask(w), p);
    [MarkerByte(w, v / p)] + BigEndianBytes(v % p, w - 1)
  }

  /** A size field whose first byte carries marker w and whose w bytes are all
      present decodes to width w and the big-endian value without the marker. */
  lemma SizeVintShape(file: seq<byte>, pos: nat, w: nat)
    requires 1 <= w <= 8 && pos + w <= |file| && FirstSetBit(file[pos]) == w
    ensures SizeVint(file, pos) == Some(Vint(w, w, BigEndian([Unmarked(file[pos], w)] + file[pos + 1..pos + w])))
  {
    MarkerCleared(file[pos], w);
    var rest := if w > 1 then Take(file, pos + 1, w - 1) else [];
    assert rest == file[pos + 1..pos + w];
    SizeFieldValue(Unmarked(file[pos], w), rest);
  }

  lemma MarkerCleared(b: byte, w: nat)
    requires 1 <= w <= 8 && FirstSetBit(b) == w
    ensures SizeWidth(b) == w && ClearMarker(b) == Unmarked(b, w)
  {
  }

  lemma SizeFieldValue(first: byte, rest: seq<byte>)
    requires |rest| < 8
    ensures ToLongLong([first] + rest) == BigEndian([first] + rest)
  {
  }

  /** SizeVint decodes what EncodeSize produced. */
  lemma SizeVintRoundTrip(file: seq<byte>, pos: nat, v: nat, w: nat)
    requires 1 <= w <= 8 && v < VintCapacity(w)
    requires pos + w <= |file| && file[pos..pos + w] == EncodeSize(v, w)
    ensures SizeVint(file, pos) == Some(Vint(w, w, v))
  {
    var enc := EncodeSize(v, w);
    assert file[pos] == enc[0] && file[pos + 1..pos + w] == enc[1..];
    SizeVintShape(file, pos, w);
    EncodedValue(v, w);
  }

  /** The value bits of EncodeSize(v, w), read big-endian, are v. */
  lemma {:induction false} EncodedValue(v: nat, w: nat)
    requires 1 <= w <= 8 && v < VintCapacity(w)
    ensures var enc := EncodeSize(v, w); BigEndian([Unmarked(enc[0], w)] + enc[1..]) == v
  {
    var p := Pow256(w - 1);
    var hi, lo := v / p, v % p;
    DivBelow(v, Mask(w), p);
    var enc := EncodeSize(v, w);
    var first := Unmarked(enc[0], w);
    assert first as nat == hi;
    var rest := enc[1..];
    assert rest == BigEndianBytes(lo, w - 1);
    BigEndianRoundTrip(lo, w - 1);
    BigEndianCons(first, rest);
    assert BigEndian([first] + rest) == hi * p + lo;
    DivMod(v, p);
  }

  lemma DivMod(v: nat, p: nat)
    requires p > 0
    ensures (v / p) * p + v % p == v
  {
  }

  /** IdVint reads an ID field whose marker agrees with its length, marker included. */
  lemma {:induction false} IdVintRoundTrip(file: seq<byte>, pos: nat, idBytes: seq<byte>)
    requires 1 <= |idBytes| <= 4 && FirstSetBit(idBytes[0]) == |idBytes|
    requires pos + |idBytes| <= |file| && file[pos..pos + |idBytes|] == idBytes
    ensures IdVint(file, pos) == Some(Vint(|idBytes|, |idBytes|, BigEndian(idBytes)))
  {
    assert Take(file, pos, 1) == [idBytes[0]];
    assert Take(file, pos, |idBytes|) == idBytes;
  }

  /** An ID field whose marker agrees with its length (at most four bytes). */
  predicate WellFormedId(idBytes: seq<byte>) {
    1 <= |idBytes| <= 4 && FirstSetBit(idBytes[0]) == |idBytes|
  }

  /** read() decodes a header made of a well-formed ID and EncodeSize(v, w):
      the stored ID keeps the marker, the payload starts right after the two
      fields and has size v, and the verdict is the agreement with the declared
      ID and size. The one-byte all-ones size is excluded: it means "unknown". */
  lemma {:induction false} ReadEncodedHeader(file: seq<byte>, e: Element, idBytes: seq<byte>, v: nat, w: nat)
    requires IsAbstract(e) && WellFormedId(idBytes)
    requires 1 <= w <= 8 && v < VintCapacity(w) && !(w == 1 && v == 0x7F)
    requires e.offset + |idBytes| + w <= |file|
    requires file[e.offset..e.offset + |idBytes|] == idBytes
    requires file[e.offset + |idBytes|..e.offset + |idBytes| + w] == EncodeSize(v, w)
    ensures Read(file, e).elem == e.(ebmlId := BigEndian(idBytes), dataOffset := e.offset + |idBytes| + w, dataSize := v)
    ensures Read(file, e).ok <==>
              (e.ebmlId == 0 || e.ebmlId == BigEndian(idBytes)) && (Size(e) == 0 || Size(e) == |idBytes| + w + v)
  {
    IdVintRoundTrip(file, e.offset, idBytes);
    SizeVintRoundTrip(file, e.offset + |idBytes|, v, w);
    ReadKnownSize(file, e, idBytes, v, w);
  }

  /** read() once both fields have decoded, with a size that is not "unknown". */
  lemma ReadKnownSize(file: seq<byte>, e: Element, idBytes: seq<byte>, v: nat, w: nat)
    requires IsAbstract(e) && WellFormedId(idBytes)
    requires 1 <= w <= 8 && v < VintCapacity(w) && !(w == 1 && v == 0x7F)
    requires e.offset + |idBytes| + w <= |file|
    requires IdVint(file, e.offset) == Some(Vint(|idBytes|, |idBytes|, BigEndian(idBytes)))
    requires SizeVint(file, e.offset + |idBytes|) == Some(Vint(w, w, v))
    ensures Read(file, e).elem == e.(ebmlId := BigEndian(idBytes), dataOffset := e.offset + |idBytes| + w, dataSize := v)
    ensures Read(file, e).ok <==>
              (e.ebmlId == 0 || e.ebmlId == BigEndian(idBytes)) && (Size(e) == 0 || Size(e) == |idBytes| + w + v)
  {
    ReadIsDecoded(file, e, Vint(|idBytes|, |idBytes|, BigEndian(idBytes)), Vint(w, w, v));
    DecodedKnownSize(e, idBytes, v, w);
  }

  /** With a known size the decoded element carries the field values as read,
      and the verdict is the agreement with the declared ID and size. */
  lemma DecodedKnownSize(e: Element, idBytes: seq<byte>, v: nat, w: nat)
    requires WellFormedId(idBytes) && 1 <= w <= 8 && v < VintCapacity(w) && !(w == 1 && v == 0x7F)
    ensures var d := Decoded(e, Vint(|idBytes|, |idBytes|, BigEndian(idBytes)), Vint(w, w, v));
              d.elem == e.(ebmlId := BigEndian(idBytes), dataOffset := e.offset + |idBytes| + w, dataSize := v) &&
              (d.ok <==> (e.ebmlId == 0 || e.ebmlId == BigEndian(idBytes)) && (Size(e) == 0 || Size(e) == |idBytes| + w + v))
  {
    assert Pow256(7) == 0x100_0000_0000_0000;
  }

  /** A one-byte size of all ones (0xFF) is "unknown": the element then runs to
      the end of its parent, or of the file for a top-level element. */
  lemma {:induction false} ReadUnknownSize(file: seq<byte>, e: Element, idBytes: seq<byte>)
    requires IsAbstract(e) && WellFormedId(idBytes)
    requires e.offset + |idBytes| + 1 <= |file|
    requires file[e.offset..e.offset + |idBytes|] == idBytes && file[e.offset + |idBytes|] == 0xFF
    requires e.offset + |idBytes| + 1 <= e.bound < TWO64
    ensures var r := Read(file, e).elem;
              r.dataOffset == e.offset + |idBytes| + 1 && r.dataOffset + r.dataSize == e.bound &&
              Size(r) == e.bound - e.offset
  {
    IdVintRoundTrip(file, e.offset, idBytes);
    OneByteSize(file, e.offset + |idBytes|);
    ReadIsDecoded(file, e, Vint(|idBytes|, |idBytes|, BigEndian(idBytes)), Vint(1, 1, 0x7F));
  }

  /** A zero first size byte carries no marker; it is read as a one-byte field
      of value 0, so the element is empty. */
  lemma {:induction false} ReadZeroSizeByte(file: seq<byte>, e: Element, idBytes: seq<byte>)
    requires IsAbstract(e) && WellFormedId(idBytes)
    requires e.offset + |idBytes| + 1 <= |file|
    requires file[e.offset..e.offset + |idBytes|] == idBytes && file[e.offset + |idBytes|] == 0x00
    ensures Read(file, e).elem == e.(ebmlId := BigEndian(idBytes), dataOffset := e.offset + |idBytes| + 1, dataSize := 0)
  {
    IdVintRoundTrip(file, e.offset, idBytes);
    OneByteSize(file, e.offset + |idBytes|);
    ReadIsDecoded(file, e, Vint(|idBytes|, |idBytes|, BigEndian(idBytes)), Vint(1, 1, 0));
  }

  /** The size fields of one byte that carry a special meaning: 0xFF reads as
      the all-ones value 0x7F, and 0x00, which has no marker, as 0. */
  lemma OneByteSize(file: seq<byte>, pos: nat)
    requires pos < |file|
    ensures file[pos] == 0xFF ==> SizeVint(file, pos) == Some(Vint(1, 1, 0x7F))
    ensures file[pos] == 0x00 ==> SizeVint(file, pos) == Some(Vint(1, 1, 0))
  {
    if file[pos] == 0xFF {
      SizeVintShape(file, pos, 1);
      assert [Unmarked(file[pos], 1)] + file[pos + 1..pos + 1] == [0x7F];
      BigEndianOne(0x7F);
    } else if file[pos] == 0x00 {
      assert Take(file, pos + 1 - 1, 1) == [0];
      BigEndianOne(0);
    }
  }

  lemma BigEndianOne(b: byte)
    ensures BigEndian([b]) == b as nat
  {
    assert [b][..0] == [];
  }

  /** read() is idempotent on the reader: a second call keeps the reader and
      succeeds unless the first call failed without decoding anything. A failed
      consistency check decodes the header, so the second call succeeds. */
  lemma ReadTwice(file: seq<byte>, e: Element)
    ensures var r := Read(file, e); Read(file, r.elem) == ReadOutcome(r.elem, r.ok || r.elem != e)
  {
  }
}
