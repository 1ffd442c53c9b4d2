/** The walk over the children of an element that every reader loop performs:
    `i = 0; while (i < getDataSize()) { EBMLReader child(parent, getDataOffset() + i); ...; i += child.size(); }`
    None of these loops checks the child's validity. A child whose read failed
    before its header was decoded has size() 0, so as written the loop never
    advances (StepAsWritten, WalkStuckOnTruncatedHeader). The model stops the
    walk after such a child (ChildrenFrom). */
module EbmlWalk {
  import opened Bytes
  import opened EbmlReader

  /** The child reader at offset i of the parent's payload: the constructor
      call `EBMLReader(parent, getDataOffset() + i)`. */
  function ChildAt(file: seq<byte>, parent: Element, i: nat): (c: Element)
    ensures c.offset == parent.dataOffset + i
  {
    var c := ChildReader(file, parent)(i);
    assert c == Child(file, parent, parent.dataOffset + i, 0, 0);
    c
  }

  /** The loop step as written: the next value of i. */
  function StepAsWritten(file: seq<byte>, parent: Element, i: nat): nat {
    i + Size(ChildAt(file, parent, i))
  }

  /** The readers a walk visits from payload offset i on, given the reader
      constructed at each offset: the walk ends at `end` or after a reader of
      size 0. */
  function Walk(at: nat -> Element, end: nat, i: nat): (cs: seq<Element>)
    decreases if i < end then end - i else 0
  {
    if i >= end then []
    else if Size(at(i)) == 0 then [at(i)]
    else [at(i)] + Walk(at, end, i + Size(at(i)))
  }

  /** A walk lies inside [base + i, base + end), in strictly increasing offset
      order, back to back, and only its last reader may have size 0. */
  lemma {:induction false} WalkLayout(at: nat -> Element, base: nat, end: nat, i: nat)
    requires forall j :: at(j).offset == base + j
    ensures var cs := Walk(at, end, i);
      (|cs| > 0 <==> i < end) &&
      (forall k :: 0 <= k < |cs| ==> base + i <= cs[k].offset < base + end) &&
      (forall k :: 0 <= k < |cs| - 1 ==> Size(cs[k]) > 0 && cs[k + 1].offset == cs[k].offset + Size(cs[k]))
    decreases if i < end then end - i else 0
  {
    if i < end && Size(at(i)) > 0 {
      var rest := Walk(at, end, i + Size(at(i)));
      WalkLayout(at, base, end, i + Size(at(i)));
      var cs := Walk(at, end, i);
      assert cs == [at(i)] + rest;
      assert forall k :: 1 <= k < |cs| ==> cs[k] == rest[k - 1];
    }
  }

  lemma WalkStep(at: nat -> Element, end: nat, i: nat)
    requires i < end
    ensures Walk(at, end, i) == [at(i)] + (if Size(at(i)) == 0 then [] else Walk(at, end, i + Size(at(i))))
  {
  }

  /** The child reader at each payload offset of the parent. */
  function ChildReader(file: seq<byte>, parent: Element): nat -> Element {
    (j: nat) => Child(file, parent, parent.dataOffset + j, 0, 0)
  }

  /** The children visited from payload offset i on, in document order. */
  function ChildrenFrom(file: seq<byte>, parent: Element, i: nat): seq<Element> {
    Walk(ChildReader(file, parent), parent.dataSize, i)
  }

  /** All children of the parent. */
  function Children(file: seq<byte>, parent: Element): seq<Element> {
    ChildrenFrom(file, parent, 0)
  }

  /** Children lie inside the payload, in strictly increasing offset order,
      back to back, and only the last may have size 0. */
  lemma ChildrenLayout(file: seq<byte>, parent: Element, i: nat)
    ensures var cs := ChildrenFrom(file, parent, i);
      (|cs| > 0 <==> i < parent.dataSize) &&
      (forall k :: 0 <= k < |cs| ==> parent.dataOffset + i <= cs[k].offset < parent.dataOffset + parent.dataSize) &&
      (forall k :: 0 <= k < |cs| - 1 ==> Size(cs[k]) > 0 && cs[k + 1].offset == cs[k].offset + Size(cs[k]))
  {
    forall j: nat ensures ChildReader(file, parent)(j).offset == parent.dataOffset + j {
      assert ChildReader(file, parent)(j) == ChildAt(file, parent, j);
    }
    WalkLayout(ChildReader(file, parent), parent.dataOffset, parent.dataSize, i);
  }

  /** One step of a walk: the child at i, then the rest from i + size(). */
  lemma ChildrenStep(file: seq<byte>, parent: Element, i: nat)
    requires i < parent.dataSize
    ensures var c := ChildAt(file, parent, i);
      ChildrenFrom(file, parent, i) == [c] + (if Size(c) == 0 then [] else ChildrenFrom(file, parent, i + Size(c)))
  {
    WalkStep(ChildReader(file, parent), parent.dataSize, i);
  }

  /** The head of every reader loop: the child reader at payload offset i,
      and the offset `i += child.size()` moves to. The walk stops after a
      child of size zero. */
  method NextChild(file: seq<byte>, parent: Element, i: nat) returns (child: Element, next: nat, stop: bool)
    requires i < parent.dataSize
    ensures child.offset == parent.dataOffset + i
    ensures stop <==> Size(child) == 0
    ensures !stop ==> next == i + Size(child) > i
    ensures ChildrenFrom(file, parent, i) == [child] + (if stop then [] else ChildrenFrom(file, parent, next))
  {
    child := ChildAt(file, parent, i);
    ChildrenStep(file, parent, i);
    stop := Size(child) == 0;
    next := i + Size(child);
  }

  /** A walk from the end of the payload visits nothing. */
  lemma ChildrenEnd(file: seq<byte>, parent: Element, i: nat)
    requires i >= parent.dataSize
    ensures ChildrenFrom(file, parent, i) == []
  {
  }

  /** As written, a parent whose payload reaches past the end of the file makes
      the walk stop moving: the child at the first unreadable offset fails
      before its header is decoded and has size 0, while i is still below the
      payload size. */
  lemma WalkStuckPastEnd(file: seq<byte>, parent: Element, i: nat)
    requires i < parent.dataSize && parent.dataOffset + i >= OffsetLimit(|file|)
    ensures StepAsWritten(file, parent, i) == i
    ensures ChildrenFrom(file, parent, i) == [ChildAt(file, parent, i)]
  {
    var p := parent.dataOffset + i;
    var e := Element(p, 0, p, 0, parent.offset + Size(parent), false);
    assert Read(file, e) == ReadOutcome(e, false);
    assert Child(file, parent, p, 0, 0) == e;
    assert ChildAt(file, parent, i) == e;
    ChildrenStep(file, parent, i);
  }

  /** A concrete input: an EBML header element [1A 45 DF A3 84] that declares a
      4-byte payload and ends there. readHeader's walk never leaves i = 0. */
  lemma WalkStuckOnTruncatedHeader()
    ensures var file: seq<byte> := [0x1A, 0x45, 0xDF, 0xA3, 0x84];
            var header := Open(file, 0);
              header.ebmlId == 0x1A45DFA3 && header.dataOffset == 5 && header.dataSize == 4 &&
              ChildrenFrom(file, header, 0) == [ChildAt(file, header, 0)] &&
              StepAsWritten(file, header, 0) == 0
  {
    var file: seq<byte> := [0x1A, 0x45, 0xDF, 0xA3, 0x84];
    TruncatedHeaderDecodes(file);
    WalkStuckPastEnd(file, Open(file, 0), 0);
  }

  lemma TruncatedHeaderDecodes(file: seq<byte>)
    requires file == [0x1A, 0x45, 0xDF, 0xA3, 0x84]
    ensures Open(file, 0).ebmlId == 0x1A45DFA3 && Open(file, 0).dataOffset == 5 && Open(file, 0).dataSize == 4
  {
    var idBytes: seq<byte> := [0x1A, 0x45, 0xDF, 0xA3];
    assert EncodeSize(4, 1) == [0x84] by {
      assert VintCapacity(1) == 128;
      assert MarkerByte(1, 4) == 0x84;
    }
    assert file[0..4] == idBytes && file[4..5] == EncodeSize(4, 1);
    assert FirstSetBit(0x1A) == 4;
    var e := Element(0, 0, 0, 0, |file|, false);
    ReadEncodedHeader(file, e, idBytes, 4, 1);
    BigEndianOfId(idBytes);
  }

  lemma BigEndianOfId(idBytes: seq<byte>)
    requires idBytes == [0x1A, 0x45, 0xDF, 0xA3]
    ensures BigEndian(idBytes) == 0x1A45DFA3
  {
    assert BigEndian([0x1A]) == 0x1A by { assert [0x1A][..0] == []; }
    assert BigEndian([0x1A, 0x45]) == 0x1A45 by { assert [0x1A, 0x45][..1] == [0x1A]; }
    assert BigEndian([0x1A, 0x45, 0xDF]) == 0x1A45DF by { assert [0x1A, 0x45, 0xDF][..2] == [0x1A, 0x45]; }
    assert idBytes[..3] == [0x1A, 0x45, 0xDF];
  }
}
