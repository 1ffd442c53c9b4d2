/** Byte-level helpers shared by every reader in the model: the byte type, an
    Option type, TagLib's ByteVector number conversions and the
    seek-then-readBlock access to an immutable file image. */
module Bytes {

  /** An octet. Bit operations of the source on bytes appear as division and
      remainder by powers of two (`b & 0x7F` is `b % 128`, `b >> 4` is `b / 16`). */
  newtype byte = x: int | 0 <= x < 256

  datatype Option<T> = None | Some(value: T)

  const TWO16: nat := 0x1_0000
  const TWO32: nat := 0x1_0000_0000
  const TWO64: nat := 0x1_0000_0000_0000_0000

  /** x reduced into [0, 2^64): the value of x in C++ unsigned 64-bit
      arithmetic (Wrap64Mod). Written by repeated adjustment rather than `%`
      so that the verifier unfolds it only step by step. */
  function Wrap64(x: int): (r: nat)
    ensures r < TWO64
    ensures 0 <= x < TWO64 ==> r == x
    decreases if x < 0 then -x else if x >= TWO64 then x - TWO64 + 1 else 0
  {
    if x < 0 then Wrap64(x + TWO64) else if x >= TWO64 then Wrap64(x - TWO64) else x
  }

  lemma {:induction false} Wrap64Mod(x: int)
    ensures Wrap64(x) == x % TWO64
    decreases if x < 0 then -x else if x >= TWO64 then x - TWO64 + 1 else 0
  {
    if x < 0 {
      Wrap64Mod(x + TWO64);
      assert (x + TWO64) % TWO64 == x % TWO64;
    } else if x >= TWO64 {
      Wrap64Mod(x - TWO64);
      assert (x - TWO64) % TWO64 == x % TWO64;
    }
  }

  function Min(a: int, b: int): int { if a <= b then a else b }

  function Pow256(n: nat): (p: nat)
    ensures p >= 1
  {
    if n == 0 then 1 else 256 * Pow256(n - 1)
  }

  /** Unsigned value of a byte sequence, most significant byte first. */
  function BigEndian(s: seq<byte>): (v: nat)
    ensures v < Pow256(|s|)
  {
    if s == [] then 0 else BigEndian(s[..|s| - 1]) * 256 + s[|s| - 1] as nat
  }

  /** Unsigned value of a byte sequence, least significant byte first. */
  function LittleEndian(s: seq<byte>): (v: nat)
    ensures v < Pow256(|s|)
  {
    if s == [] then 0 else s[0] as nat + 256 * LittleEndian(s[1..])
  }

  /** The first n bytes of s, or all of s when it is shorter (ByteVector::mid(0, n)). */
  function Prefix(s: seq<byte>, n: nat): (r: seq<byte>)
    ensures |r| == Min(|s|, n) && r == s[..|r|]
  {
    if |s| <= n then s else s[..n]
  }

  /** ByteVector::toUInt(): at most the first four bytes, big-endian. */
  function ToUInt(s: seq<byte>): (v: nat)
    ensures v < TWO32
    ensures |s| <= 4 ==> v == BigEndian(s)
  {
    BigEndianBelow(Prefix(s, 4), 4);
    BigEndian(Prefix(s, 4))
  }

  /** ByteVector::toUInt(false): at most the first four bytes, little-endian. */
  function ToUIntLE(s: seq<byte>): (v: nat)
    ensures v < TWO32
    ensures |s| <= 4 ==> v == LittleEndian(s)
  {
    LittleEndianBelow(Prefix(s, 4), 4);
    LittleEndian(Prefix(s, 4))
  }

  /** ByteVector::toLongLong(): at most the first eight bytes, big-endian. */
  function ToLongLong(s: seq<byte>): (v: nat)
    ensures v < TWO64
    ensures |s| <= 8 ==> v == BigEndian(s)
  {
    BigEndianBelow(Prefix(s, 8), 8);
    BigEndian(Prefix(s, 8))
  }

  /** ByteVector::toUShort(): at most the first two bytes, big-endian. */
  function ToUShort(s: seq<byte>): (v: nat)
    ensures v < TWO16
    ensures |s| <= 2 ==> v == BigEndian(s)
  {
    BigEndianBelow(Prefix(s, 2), 2);
    BigEndian(Prefix(s, 2))
  }

  lemma Pow256Monotone(m: nat, n: nat)
    requires m <= n
    ensures Pow256(m) <= Pow256(n)
  {
    if m < n { Pow256Monotone(m, n - 1); }
  }

  lemma BigEndianBelow(s: seq<byte>, n: nat)
    requires |s| <= n
    ensures BigEndian(s) < Pow256(n)
  {
    Pow256Monotone(|s|, n);
  }

  lemma LittleEndianBelow(s: seq<byte>, n: nat)
    requires |s| <= n
    ensures LittleEndian(s) < Pow256(n)
  {
    Pow256Monotone(|s|, n);
  }

  /** seek(pos) followed by readBlock(n): the bytes that exist from pos on, at most n. */
  function Take(file: seq<byte>, pos: nat, n: nat): (r: seq<byte>)
    ensures pos >= |file| ==> r == []
    ensures pos < |file| ==> |r| == Min(n, |file| - pos) && r == file[pos..pos + |r|]
  {
    if pos >= |file| then [] else Prefix(file[pos..], n)
  }

  /** A slice that is a concatenation splits into the slices of its parts. */
  lemma SliceSplit(file: seq<byte>, a: nat, c: nat, x: seq<byte>, y: seq<byte>)
    requires a + |x| + |y| == c <= |file| && file[a..c] == x + y
    ensures file[a..a + |x|] == x && file[a + |x|..c] == y
  {
    assert file[a..a + |x|] == file[a..c][..|x|];
    assert file[a + |x|..c] == file[a..c][|x|..];
  }

  /** Index of the first byte equal to b (ByteVector::find of one byte). */
  function IndexOf(s: seq<byte>, b: byte): (r: Option<nat>)
    ensures r.Some? ==> r.value < |s| && s[r.value] == b && b !in s[..r.value]
    ensures r.None? ==> b !in s
  {
    if s == [] then None
    else if s[0] == b then Some(0)
    else match IndexOf(s[1..], b)
      case None => None
      case Some(k) => assert s[..k + 1] == [s[0]] + s[1..][..k]; Some(k + 1)
  }

  /** TagLib String built from a ByteVector. Bytes become characters of the same
      code (exactly Latin-1; for UTF-8 text this agrees on ASCII). */
  function Decode(b: seq<byte>): (s: string)
    ensures |s| == |b| && forall i :: 0 <= i < |b| ==> s[i] as int == b[i] as int
  {
    seq(|b|, i requires 0 <= i < |b| => (b[i] as int) as char)
  }

  /** The big-endian bytes of v in exactly n bytes. */
  function BigEndianBytes(v: nat, n: nat): (r: seq<byte>)
    requires v < Pow256(n)
    ensures |r| == n
  {
    if n == 0 then [] else
      QuotientBelow(v, n);
      BigEndianBytes(v / 256, n - 1) + [(v % 256) as byte]
  }

  lemma QuotientBelow(v: nat, n: nat)
    requires n > 0 && v < Pow256(n)
    ensures v / 256 < Pow256(n - 1)
  {
  }

  lemma DivMod256(v: nat)
    ensures (v / 256) * 256 + v % 256 == v
  {
  }

  lemma {:induction false} BigEndianRoundTrip(v: nat, n: nat)
    requires v < Pow256(n)
    ensures BigEndian(BigEndianBytes(v, n)) == v
  {
    if n > 0 {
      var r := BigEndianBytes(v, n);
      QuotientBelow(v, n);
      var q := v / 256;
      assert r[..n - 1] == BigEndianBytes(q, n - 1);
      assert r[n - 1] as nat == v % 256;
      BigEndianRoundTrip(q, n - 1);
      assert BigEndian(r) == q * 256 + v % 256;
      DivMod256(v);
    }
  }

  lemma ShiftAdd(x: nat, p: nat, y: nat, z: nat)
    ensures (x * p + y) * 256 + z == x * (256 * p) + (y * 256 + z)
  {
  }

  lemma {:induction false} BigEndianCons(a: byte, s: seq<byte>)
    ensures BigEndian([a] + s) == a as nat * Pow256(|s|) + BigEndian(s)
  {
    if s == [] {
      assert [a] + s == [a];
      assert [a][..0] == [];
    } else {
      var t := [a] + s;
      var u := s[..|s| - 1];
      assert t[..|t| - 1] == [a] + u;
      BigEndianCons(a, u);
      BigEndianStep(a, s, u);
    }
  }

  lemma BigEndianStep(a: byte, s: seq<byte>, u: seq<byte>)
    requires s != [] && u == s[..|s| - 1]
    requires BigEndian([a] + u) == a as nat * Pow256(|u|) + BigEndian(u)
    ensures BigEndian([a] + s) == a as nat * Pow256(|s|) + BigEndian(s)
  {
    var t := [a] + s;
    assert t[..|t| - 1] == [a] + u;
    var last := s[|s| - 1] as nat;
    var x, p, y := a as nat, Pow256(|u|), BigEndian(u);
    assert Pow256(|s|) == 256 * p;
    assert BigEndian(t) == BigEndian([a] + u) * 256 + last;
    assert BigEndian(s) == y * 256 + last;
    ShiftAdd(x, p, y, last);
  }

  /** Regrouping a concatenation. */
  lemma AppendAssoc<T>(a: seq<T>, b: seq<T>, c: seq<T>)
    ensures a + (b + c) == (a + b) + c
  {
  }

  /** Moving a middle part across: from goal == before + (one + rest) and
      after == before + one follows goal == after + rest. */
  lemma Regroup<T>(goal: seq<T>, before: seq<T>, after: seq<T>, one: seq<T>, all: seq<T>, rest: seq<T>)
    requires goal == before + all && all == one + rest && after == before + one
    ensures goal == after + rest
  {
    AppendAssoc(before, one, rest);
  }

  /** A prefix one longer is the prefix and the next element. */
  lemma TakeSnoc<T>(s: seq<T>, k: nat)
    requires k < |s|
    ensures s[..k + 1] == s[..k] + [s[k]]
  {
  }
}
