/** Typed views of an element payload (EBMLElement): a NUL-terminated string
    (RFC 8794 section 7.4) and a big-endian unsigned integer (RFC 8794 section 7.2). */
module EbmlElement {
  import opened Bytes

  /** getString: the bytes before the first NUL, or all of them when there is none. */
  function GetString(data: seq<byte>): (s: string)
    ensures |s| <= |data| && s == Decode(data[..|s|])
    ensures forall i :: 0 <= i < |s| ==> data[i] != 0
    ensures |s| < |data| ==> data[|s|] == 0
  {
    match IndexOf(data, 0)
    case Some(k) => Decode(data[..k])
    case None => Decode(data)
  }

  /** getUInt: 0 for an empty payload, otherwise ByteVector::toUInt of it. */
  function GetUInt(data: seq<byte>): (v: nat)
    ensures data == [] ==> v == 0
    ensures |data| <= 4 ==> v == BigEndian(data)
    ensures v < TWO32
  {
    if data == [] then 0 else ToUInt(data)
  }

  /** NUL padding after a NUL-free payload does not change the string. */
  lemma {:induction false} GetStringIgnoresPadding(data: seq<byte>, pad: nat)
    requires 0 !in data
    ensures GetString(data + seq(pad, _ => 0)) == Decode(data)
  {
    var full := data + seq(pad, _ => 0);
    var s := GetString(full);
    assert full[..|data|] == data;
    assert |data| < |full| ==> full[|data|] == 0;
    assert |s| == |data|;
  }

  /** A payload without NUL decodes entirely. */
  lemma {:induction false} GetStringWithoutNul(data: seq<byte>)
    requires 0 !in data
    ensures GetString(data) == Decode(data)
  {
    var s := GetString(data);
    assert |s| == |data|;
    assert data[..|s|] == data;
  }

  /** getUInt inverts the big-endian encoding of a value of up to four bytes. */
  lemma GetUIntRoundTrip(v: nat, n: nat)
    requires 1 <= n <= 4 && v < Pow256(n)
    ensures GetUInt(BigEndianBytes(v, n)) == v
  {
    BigEndianRoundTrip(v, n);
  }
}
