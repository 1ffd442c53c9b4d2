/** What the file reader of Matroska::File computes from the file image before
    any tag is built: the offset of the lead 0x1A byte, the DocType verdict of
    the EBML header, the expansion of a SeekHead index into a list of element
    readers sorted by offset, and the list of top-level Segment children it
    goes on to process. */
module MatroskaSegment {
  import opened Bytes
  import opened MatroskaTypes
  import opened EbmlReader
  import opened EbmlWalk

  // ---------------------------------------------------------------------------
  // readLeadText

  /** readLeadText reads 64-byte blocks. */
  const LEAD_BLOCK: nat := 64

  /** `-1u`, readLeadText's answer when no block holds a 0x1A byte. */
  const NO_LEAD: nat := 0xFFFF_FFFF

  /** readLeadText: the index of the first 0x1A byte of the file, or -1u. */
  function LeadOffset(file: seq<byte>): (r: nat)
    ensures r != NO_LEAD ==> r < |file| && file[r] == 0x1A && 0x1A !in file[..r]
    ensures 0x1A !in file ==> r == NO_LEAD
    ensures 0x1A in file && r == NO_LEAD ==> |file| > NO_LEAD && file[NO_LEAD] == 0x1A
  {
    match IndexOf(file, 0x1A)
    case None => NO_LEAD
    case Some(k) => k
  }

  /** -1u is also a file position: a file whose first 0x1A byte sits at offset
      2^32 - 1 gets the same answer as a file without one, and is rejected. */
  lemma LeadSentinelCollides(file: seq<byte>)
    requires NO_LEAD < |file| && file[NO_LEAD] == 0x1A && 0x1A !in file[..NO_LEAD]
    ensures LeadOffset(file) == NO_LEAD
  {
  }

  /** A first 0x1A byte at p is what readLeadText answers, when p is not -1u. */
  lemma LeadOffsetIs(file: seq<byte>, p: nat)
    requires p < |file| && file[p] == 0x1A && 0x1A !in file[..p]
    ensures LeadOffset(file) == p
  {
  }

  /** One block of readLeadText's search: when no 0x1A lies before `offset`,
      the block either holds the first one or extends the clear prefix. */
  lemma LeadBlock(file: seq<byte>, offset: nat)
    requires 0x1A !in file[..Min(offset, |file|)]
    ensures var index := IndexOf(Take(file, offset, LEAD_BLOCK), 0x1A);
              (index.None? ==> 0x1A !in file[..Min(offset + LEAD_BLOCK, |file|)]) &&
              (index.Some? ==> offset + index.value == LeadOffset(file))
  {
    var block := Take(file, offset, LEAD_BLOCK);
    var index := IndexOf(block, 0x1A);
    if offset < |file| {
      var end := Min(offset + LEAD_BLOCK, |file|);
      assert file[..end] == file[..offset] + block;
      if index.Some? {
        var p := offset + index.value;
        assert file[..p] == file[..offset] + block[..index.value];
        LeadOffsetIs(file, p);
      }
    }
  }

  // ---------------------------------------------------------------------------
  // The top-level walk of read()

  /** The top-level elements read() visits from `offset` on: the reader
      `EBMLReader(this, offset)`, then the next one at `offset + size()`, up to
      the end of the file or after a reader of size 0. */
  function TopLevel(file: seq<byte>, offset: nat): seq<Element>
    decreases if offset < |file| then |file| - offset else 0
  {
    if offset >= |file| then []
    else
      var e := Open(file, offset);
      if Size(e) == 0 then [e] else [e] + TopLevel(file, End(e))
  }

  lemma TopLevelStep(file: seq<byte>, offset: nat)
    requires offset < |file|
    ensures var e := Open(file, offset);
      TopLevel(file, offset) == [e] + (if Size(e) == 0 then [] else TopLevel(file, End(e)))
  {
  }

  // ---------------------------------------------------------------------------
  // readHeader

  /** The DocType strings among a header's children, in order; None for the
      other children. */
  function DocTypes(file: seq<byte>, cs: seq<Element>): (ds: seq<Option<string>>)
    ensures |ds| == |cs|
  {
    seq(|cs|, k requires 0 <= k < |cs| =>
      if cs[k].ebmlId == EBMLDocType then Some(ReadString(file, cs[k])) else None)
  }

  /** The string variable after the loop: each DocType child overwrites it. */
  function LastDocType(d: string, ds: seq<Option<string>>): string
    decreases |ds|
  {
    if ds == [] then d else LastDocType(if ds[0].Some? then ds[0].value else d, ds[1..])
  }

  /** The DocType readHeader ends with. */
  function DocTypeOf(file: seq<byte>, header: Element): string {
    LastDocType("", DocTypes(file, Children(file, header)))
  }

  /** The test of readHeader: neither empty nor different from "matroska". */
  predicate DocTypeAccepted(d: string) {
    !(d == "" || d != "matroska")
  }

  /** Only the DocType "matroska" is accepted; in particular "webm", which the
      diagnostic names, is rejected. */
  lemma DocTypeAcceptedExactly(d: string)
    ensures DocTypeAccepted(d) <==> d == "matroska"
    ensures !DocTypeAccepted("webm")
  {
  }

  /** The last DocType child decides: a DocType appended to the children
      replaces the string, any other child leaves it. */
  lemma {:induction false} LastDocTypeAppend(d: string, ds: seq<Option<string>>, x: Option<string>)
    ensures LastDocType(d, ds + [x]) == if x.Some? then x.value else LastDocType(d, ds)
    decreases |ds|
  {
    if ds == [] {
      assert [] + [x] == [x];
    } else {
      assert (ds + [x])[1..] == ds[1..] + [x];
      LastDocTypeAppend(if ds[0].Some? then ds[0].value else d, ds[1..], x);
    }
  }

  /** A header without a DocType child keeps the empty string, and is rejected. */
  lemma {:induction false} NoDocTypeKeeps(d: string, ds: seq<Option<string>>)
    requires forall k :: 0 <= k < |ds| ==> ds[k].None?
    ensures LastDocType(d, ds) == d
    decreases |ds|
  {
    if ds != [] {
      NoDocTypeKeeps(d, ds[1..]);
    }
  }

  lemma DocTypesCons(file: seq<byte>, c: Element, cs: seq<Element>)
    ensures DocTypes(file, [c] + cs) == DocTypes(file, [c]) + DocTypes(file, cs)
  {
  }

  /** The value the DocType variable holds after child c. */
  function DocTypeAfter(file: seq<byte>, c: Element, d: string): string {
    if c.ebmlId == EBMLDocType then ReadString(file, c) else d
  }

  /** One step of readHeader's walk: the first child updates the string, the
      rest of the walk continues from there. */
  lemma DocTypeCons(file: seq<byte>, c: Element, rest: seq<Element>, d: string)
    ensures LastDocType(d, DocTypes(file, [c] + rest)) == LastDocType(DocTypeAfter(file, c, d), DocTypes(file, rest))
  {
    DocTypesCons(file, c, rest);
    assert DocTypes(file, [c] + rest)[1..] == DocTypes(file, rest);
  }

  /** A walk with nothing left keeps the string. */
  lemma DocTypeEnd(file: seq<byte>, header: Element, i: nat, d: string)
    ensures i >= header.dataSize ==> LastDocType(d, DocTypes(file, ChildrenFrom(file, header, i))) == d
    ensures LastDocType(d, DocTypes(file, [])) == d
  {
    assert DocTypes(file, []) == [];
    if i >= header.dataSize {
      ChildrenEnd(file, header, i);
    }
  }

  // ---------------------------------------------------------------------------
  // Decoded children

  /** Every child reader whose ID is non-zero has a decoded header: its read
      did not fail before the fields were set. */
  predicate Decodable(file: seq<byte>, cs: seq<Element>) {
    forall k :: 0 <= k < |cs| && cs[k].ebmlId != 0 ==>
      cs[k].offset + 2 <= cs[k].dataOffset && cs[k].offset + 1 < |file|
  }

  /** A child reader is constructed with ID 0, so a non-zero ID means its
      header was decoded. */
  lemma ChildDecoded(file: seq<byte>, parent: Element, j: nat)
    ensures var c := ChildReader(file, parent)(j);
      c.offset == parent.dataOffset + j &&
      (c.ebmlId != 0 ==> c.offset + 2 <= c.dataOffset && c.offset + 1 < |file|)
  {
    assert ChildReader(file, parent)(j) == Child(file, parent, parent.dataOffset + j, 0, 0);
    ChildHeader(file, parent, parent.dataOffset + j);
  }

  lemma ChildHeader(file: seq<byte>, parent: Element, p: nat)
    ensures var c := Child(file, parent, p, 0, 0);
      c.ebmlId != 0 ==> p + 2 <= c.dataOffset && p + 1 < |file|
  {
    var r := Read(file, Element(p, 0, p, 0, parent.offset + Size(parent), false));
    assert Child(file, parent, p, 0, 0) == r.elem.(valid := r.ok);
  }

  lemma {:induction false} WalkDecodable(file: seq<byte>, parent: Element, i: nat)
    ensures Decodable(file, ChildrenFrom(file, parent, i))
    ensures forall k :: 0 <= k < |ChildrenFrom(file, parent, i)| ==>
              ChildrenFrom(file, parent, i)[k].offset >= parent.dataOffset + i
    decreases if i < parent.dataSize then parent.dataSize - i else 0
  {
    if i < parent.dataSize {
      var c := ChildAt(file, parent, i);
      ChildrenStep(file, parent, i);
      ChildDecoded(file, parent, i);
      if Size(c) > 0 {
        WalkDecodable(file, parent, i + Size(c));
      }
    }
  }

  // ---------------------------------------------------------------------------
  // readSeekHead

  const TWO31: nat := 0x8000_0000

  /** The two variables of readSeekHead that persist from one Seek to the next. */
  datatype SeekEntry = SeekEntry(id: nat, position: nat)

  /** What one child of a Seek contributes. */
  datatype SeekField = SeekIdField(id: nat) | SeekPositionField(relative: nat) | OtherField

  function SeekFieldOf(file: seq<byte>, c: Element): SeekField {
    if c.ebmlId == SeekID then SeekIdField(ReadUInt(file, c))
    else if c.ebmlId == SeekPosition then SeekPositionField(ReadUInt(file, c))
    else OtherField
  }

  function SeekFields(file: seq<byte>, cs: seq<Element>): (fs: seq<SeekField>)
    ensures |fs| == |cs|
  {
    seq(|cs|, k requires 0 <= k < |cs| => SeekFieldOf(file, cs[k]))
  }

  /** The SeekPosition is read relative to the offset of the SeekHead holding
      it, in unsigned 64-bit arithmetic. */
  function ApplySeekField(head: Element, st: SeekEntry, f: SeekField): (r: SeekEntry)
    ensures f.SeekIdField? ==> r == SeekEntry(f.id, st.position)
    ensures f.SeekPositionField? ==> r == SeekEntry(st.id, Wrap64(f.relative + head.offset))
    ensures f.OtherField? ==> r == st
  {
    match f
    case SeekIdField(id) => st.(id := id)
    case SeekPositionField(rel) => st.(position := Wrap64(rel + head.offset))
    case OtherField => st
  }

  function ApplySeekFields(head: Element, st: SeekEntry, fs: seq<SeekField>): SeekEntry
    decreases |fs|
  {
    if fs == [] then st else ApplySeekFields(head, ApplySeekField(head, st, fs[0]), fs[1..])
  }

  /** One step of the inner walk over a Seek's children. */
  lemma SeekFieldsCons(file: seq<byte>, head: Element, c: Element, rest: seq<Element>, st: SeekEntry)
    ensures ApplySeekFields(head, st, SeekFields(file, [c] + rest)) ==
            ApplySeekFields(head, ApplySeekField(head, st, SeekFieldOf(file, c)), SeekFields(file, rest))
    ensures ApplySeekFields(head, st, SeekFields(file, [])) == st
  {
    assert SeekFields(file, [c] + rest) == [SeekFieldOf(file, c)] + SeekFields(file, rest);
    assert SeekFields(file, [c] + rest)[1..] == SeekFields(file, rest);
    assert SeekFields(file, []) == [];
  }

  /** `static_cast<int>(ebmlId) > 0 && ebmlPosition > 0`: the ID is positive as
      a signed 32-bit value. */
  predicate IsSeekTarget(st: SeekEntry) {
    0 < st.id < TWO31 && st.position > 0
  }

  /** The insertion index of the sort loop of readSeekHead: one past the last
      entry, scanning from the back, whose offset is below pos. */
  function InsertionPoint(list: seq<Element>, pos: nat): (p: nat)
    ensures p <= |list|
    ensures p > 0 ==> list[p - 1].offset < pos
    ensures forall k :: p <= k < |list| ==> pos <= list[k].offset
  {
    if list == [] then 0
    else if pos > list[|list| - 1].offset then |list|
    else InsertionPoint(list[..|list| - 1], pos)
  }

  /** `insert(begin() + k + 1, ebml)`. */
  function Insert(list: seq<Element>, e: Element): (r: seq<Element>)
    ensures |r| == |list| + 1 && multiset(r) == multiset(list) + multiset{e}
  {
    var p := InsertionPoint(list, e.offset);
    assert list == list[..p] + list[p..];
    list[..p] + [e] + list[p..]
  }

  /** Offsets in increasing order, equal offsets allowed. */
  predicate Sorted(list: seq<Element>) {
    forall i, j :: 0 <= i < j < |list| ==> list[i].offset <= list[j].offset
  }

  /** Where each element of the old list lands. */
  lemma InsertLayout(list: seq<Element>, e: Element)
    ensures var p := InsertionPoint(list, e.offset); var r := Insert(list, e);
      r[p] == e && (forall k :: 0 <= k < p ==> r[k] == list[k]) && (forall k :: p < k < |r| ==> r[k] == list[k - 1])
  {
    SpliceLayout(list, e, InsertionPoint(list, e.offset));
  }

  lemma SpliceLayout<T>(a: seq<T>, x: T, p: nat)
    requires p <= |a|
    ensures var r := a[..p] + [x] + a[p..];
      |r| == |a| + 1 && r[p] == x &&
      (forall k :: 0 <= k < p ==> r[k] == a[k]) && (forall k :: p < k < |r| ==> r[k] == a[k - 1])
  {
    var r := a[..p] + [x] + a[p..];
    forall k | p < k < |r|
      ensures r[k] == a[k - 1]
    {
      assert r[k] == a[p..][k - p - 1];
    }
  }

  /** The new entry goes after every entry with a smaller offset and before
      every entry with an equal or larger one, so a sorted list stays sorted. */
  lemma InsertSorted(list: seq<Element>, e: Element)
    requires Sorted(list)
    ensures Sorted(Insert(list, e))
  {
    var p := InsertionPoint(list, e.offset);
    var r := Insert(list, e);
    InsertLayout(list, e);
    forall i, j | 0 <= i < j < |r|
      ensures r[i].offset <= r[j].offset
    {
      if j < p {
      } else if j == p {
        assert list[i].offset <= list[p - 1].offset;
      } else if i < p {
        assert list[i].offset <= list[j - 1].offset;
      } else if i == p {
      } else {
        assert list[i - 1].offset <= list[j - 1].offset;
      }
    }
  }

  /** The front of the list never moves to a larger offset. */
  lemma InsertFront(list: seq<Element>, e: Element)
    requires list != []
    ensures Insert(list, e)[0].offset <= list[0].offset
  {
  }

  /** readSeekHead's verdict and the list it leaves behind. */
  datatype SeekResult = SeekResult(ok: bool, list: seq<Element>)

  /** The walk over a SeekHead's children from the child `cs[0]` on, with the
      persisting entry `st`: CRC32 children are skipped and any other child
      that is not a Seek ends the walk with failure. */
  function SeekEntries(file: seq<byte>, segment: Element, head: Element, cs: seq<Element>,
                       st: SeekEntry, list: seq<Element>, depth: nat): SeekResult
    decreases depth, 0, |cs|, 2
  {
    if cs == [] then SeekResult(true, list)
    else if cs[0].ebmlId == CRC32 then SeekEntries(file, segment, head, cs[1..], st, list, depth)
    else if cs[0].ebmlId != Seek then SeekResult(false, list)
    else SeekAdd(file, segment, head, cs, ApplySeekFields(head, st, SeekFields(file, Children(file, cs[0]))), list, depth)
  }

  /** After the Seek `cs[0]` has updated the entry to `st`: a valid target gets
      a reader, a child of the Segment declared with the entry's ID and placed
      at its position, inserted into the list. */
  function SeekAdd(file: seq<byte>, segment: Element, head: Element, cs: seq<Element>,
                   st: SeekEntry, list: seq<Element>, depth: nat): SeekResult
    requires cs != []
    decreases depth, 0, |cs|, 1
  {
    if !IsSeekTarget(st) then SeekEntries(file, segment, head, cs[1..], st, list, depth)
    else
      var ebml := Child(file, segment, st.position, st.id, 0);
      SeekChain(file, segment, head, cs, st, ebml, Insert(list, ebml), depth)
  }

  /** After the insertion of `ebml`: an entry for a SeekHead must read
      successfully, and that SeekHead is then expanded into the list, at most
      `depth` levels deep; the verdict of that expansion is ignored. */
  function SeekChain(file: seq<byte>, segment: Element, head: Element, cs: seq<Element>,
                     st: SeekEntry, ebml: Element, list: seq<Element>, depth: nat): SeekResult
    requires cs != []
    decreases depth, 0, |cs|, 0
  {
    if st.id != SeekHead then SeekEntries(file, segment, head, cs[1..], st, list, depth)
    else if !ebml.valid then SeekResult(false, list)
    else
      var chained := if depth == 0 then list else SeekHeadRead(file, segment, ebml, list, depth - 1).list;
      SeekEntries(file, segment, head, cs[1..], st, chained, depth)
  }

  /** readSeekHead(head, list): the entries of the index inserted into list. */
  function SeekHeadRead(file: seq<byte>, segment: Element, head: Element, list: seq<Element>, depth: nat): SeekResult
    decreases depth, 1, 0, 0
  {
    SeekEntries(file, segment, head, Children(file, head), SeekEntry(0, 0), list, depth)
  }

  /** What the expansion keeps of the list it is given: the list is never
      empty, its front never moves to a larger offset, every entry stays, and
      a sorted list stays sorted. */
  predicate Keeps(list: seq<Element>, r: seq<Element>) {
    list != [] ==> r != [] && r[0].offset <= list[0].offset && multiset(list) <= multiset(r) && (Sorted(list) ==> Sorted(r))
  }

  lemma KeepsTrans(a: seq<Element>, b: seq<Element>, c: seq<Element>)
    requires Keeps(a, b) && Keeps(b, c)
    ensures Keeps(a, c)
  {
  }

  lemma InsertKeeps(list: seq<Element>, e: Element)
    ensures Keeps(list, Insert(list, e))
  {
    if list != [] {
      InsertFront(list, e);
      if Sorted(list) {
        InsertSorted(list, e);
      }
    }
  }

  /** Every step of the expansion keeps the list: the inserts, the chained
      reads and the early failures. */
  lemma {:induction false} SeekEntriesKeep(file: seq<byte>, segment: Element, head: Element, cs: seq<Element>,
                                           st: SeekEntry, list: seq<Element>, depth: nat)
    ensures Keeps(list, SeekEntries(file, segment, head, cs, st, list, depth).list)
    decreases depth, 0, |cs|, 2
  {
    if cs != [] {
      if cs[0].ebmlId == CRC32 {
        SeekEntriesKeep(file, segment, head, cs[1..], st, list, depth);
      } else if cs[0].ebmlId == Seek {
        SeekAddKeep(file, segment, head, cs, ApplySeekFields(head, st, SeekFields(file, Children(file, cs[0]))), list, depth);
      }
    }
  }

  lemma {:induction false} SeekAddKeep(file: seq<byte>, segment: Element, head: Element, cs: seq<Element>,
                                       st: SeekEntry, list: seq<Element>, depth: nat)
    requires cs != []
    ensures Keeps(list, SeekAdd(file, segment, head, cs, st, list, depth).list)
    decreases depth, 0, |cs|, 1
  {
    if !IsSeekTarget(st) {
      SeekEntriesKeep(file, segment, head, cs[1..], st, list, depth);
    } else {
      var ebml := Child(file, segment, st.position, st.id, 0);
      InsertKeeps(list, ebml);
      SeekChainKeep(file, segment, head, cs, st, ebml, Insert(list, ebml), depth);
      KeepsTrans(list, Insert(list, ebml), SeekChain(file, segment, head, cs, st, ebml, Insert(list, ebml), depth).list);
    }
  }

  lemma {:induction false} SeekChainKeep(file: seq<byte>, segment: Element, head: Element, cs: seq<Element>,
                                         st: SeekEntry, ebml: Element, list: seq<Element>, depth: nat)
    requires cs != []
    ensures Keeps(list, SeekChain(file, segment, head, cs, st, ebml, list, depth).list)
    decreases depth, 0, |cs|, 0
  {
    if st.id != SeekHead {
      SeekEntriesKeep(file, segment, head, cs[1..], st, list, depth);
    } else if ebml.valid {
      var chained := if depth == 0 then list else SeekHeadRead(file, segment, ebml, list, depth - 1).list;
      if depth > 0 {
        SeekHeadReadKeep(file, segment, ebml, list, depth - 1);
      }
      SeekEntriesKeep(file, segment, head, cs[1..], st, chained, depth);
      KeepsTrans(list, chained, SeekEntries(file, segment, head, cs[1..], st, chained, depth).list);
    }
  }

  lemma {:induction false} SeekHeadReadKeep(file: seq<byte>, segment: Element, head: Element, list: seq<Element>, depth: nat)
    ensures Keeps(list, SeekHeadRead(file, segment, head, list, depth).list)
    decreases depth, 1, 0, 0
  {
    SeekEntriesKeep(file, segment, head, Children(file, head), SeekEntry(0, 0), list, depth);
  }

  /** A Seek entry whose ID is 0, or negative as an int, or whose position is
      0, adds nothing. */
  lemma SeekTargetRule(st: SeekEntry)
    ensures st.id == 0 || st.id >= TWO31 || st.position == 0 ==> !IsSeekTarget(st)
  {
  }

  // ---------------------------------------------------------------------------
  // readSegments

  /** The state of readSegments' loop: the list so far, whether a Cluster was
      seen, and whether the file is still valid as far as this scan goes. */
  datatype Scan = Scan(list: seq<Element>, foundCluster: bool, ok: bool)

  /** readSegments over the Segment's children `cs` from the current one on.
      `first` holds for the first child (i is still 0), which is the only one
      that can meet an empty list. */
  function ScanChildren(file: seq<byte>, segment: Element, allowSeekHead: bool, depth: nat,
                        cs: seq<Element>, first: bool, st: Scan): Scan
    requires first ==> st.list == [] && !st.foundCluster && (cs != [] ==> cs[0].offset == segment.dataOffset)
    requires !first ==> st.list != []
    decreases |cs|
  {
    if cs == [] then st
    else
      var c := cs[0];
      if !c.valid then st.(ok := false)
      else if c.ebmlId == SeekHead && allowSeekHead && SeekHeadRead(file, segment, c, [c], depth).ok then
        var seekList := SeekHeadRead(file, segment, c, [c], depth).list;
        SeekHeadReadKeep(file, segment, c, [c], depth);
        st.(list := if seekList[0].offset > segment.dataOffset then [st.list[0]] + seekList else seekList)
      else
        var failedIndex := c.ebmlId == SeekHead && allowSeekHead;
        var ref := if c.ebmlId == Cluster then !st.foundCluster else true;
        var st' := Scan(if ref || (first && Size(c) == 0) then st.list + [c] else st.list,
                        st.foundCluster || c.ebmlId == Cluster,
                        st.ok && !failedIndex);
        ScanChildren(file, segment, allowSeekHead, depth, cs[1..], false, st')
  }

  /** readSegments(segment, allowSeekHead). */
  function SegmentList(file: seq<byte>, segment: Element, allowSeekHead: bool, depth: nat): Scan {
    var cs := Children(file, segment);
    FirstChildAtStart(file, segment);
    ScanChildren(file, segment, allowSeekHead, depth, cs, true, Scan([], false, true))
  }

  lemma FirstChildAtStart(file: seq<byte>, parent: Element)
    ensures Children(file, parent) != [] ==> Children(file, parent)[0].offset == parent.dataOffset
  {
    if 0 < parent.dataSize {
      ChildrenStep(file, parent, 0);
    }
  }

  /** The linear scan's reference: the children up to the first invalid one,
      without the Clusters after the first. */
  function Kept(cs: seq<Element>, foundCluster: bool): seq<Element>
    decreases |cs|
  {
    if cs == [] || !cs[0].valid then []
    else if cs[0].ebmlId == Cluster && foundCluster then Kept(cs[1..], true)
    else [cs[0]] + Kept(cs[1..], foundCluster || cs[0].ebmlId == Cluster)
  }

  /** The children up to the first invalid one are all valid. */
  predicate AllValid(cs: seq<Element>) {
    forall k :: 0 <= k < |cs| ==> cs[k].valid
  }

  /** Without the index, readSegments keeps every child except the Clusters
      after the first, stops at the first invalid child, and clears the
      verdict exactly when it met one. */
  lemma {:induction false} ScanWithoutIndex(file: seq<byte>, segment: Element, depth: nat,
                                            cs: seq<Element>, first: bool, st: Scan)
    requires first ==> st.list == [] && !st.foundCluster && (cs != [] ==> cs[0].offset == segment.dataOffset)
    requires !first ==> st.list != []
    ensures var r := ScanChildren(file, segment, false, depth, cs, first, st);
      r.list == st.list + Kept(cs, st.foundCluster) && (r.ok <==> st.ok && AllValid(cs))
    decreases |cs|
  {
    if cs != [] && cs[0].valid {
      var c := cs[0];
      var ref := if c.ebmlId == Cluster then !st.foundCluster else true;
      var st' := Scan(if ref || (first && Size(c) == 0) then st.list + [c] else st.list,
                      st.foundCluster || c.ebmlId == Cluster, st.ok);
      ScanWithoutIndex(file, segment, depth, cs[1..], false, st');
      assert first ==> ref;
      if ref {
        assert st.list + [c] + Kept(cs[1..], st'.foundCluster) == st.list + ([c] + Kept(cs[1..], st'.foundCluster));
      }
      assert AllValid(cs) <==> AllValid(cs[1..]) by {
        if AllValid(cs[1..]) {
          forall k | 0 <= k < |cs| ensures cs[k].valid {
            if k > 0 { assert cs[k] == cs[1..][k - 1]; }
          }
        }
      }
    } else if cs != [] {
      assert !AllValid(cs);
    }
  }

  /** At most one Cluster survives the linear scan. */
  lemma {:induction false} KeptOneCluster(cs: seq<Element>, foundCluster: bool)
    ensures foundCluster ==> forall k :: 0 <= k < |Kept(cs, foundCluster)| ==> Kept(cs, foundCluster)[k].ebmlId != Cluster
    ensures forall i, j :: 0 <= i < j < |Kept(cs, foundCluster)| ==>
              !(Kept(cs, foundCluster)[i].ebmlId == Cluster && Kept(cs, foundCluster)[j].ebmlId == Cluster)
    decreases |cs|
  {
    if cs != [] && cs[0].valid {
      var found' := foundCluster || cs[0].ebmlId == Cluster;
      KeptOneCluster(cs[1..], found');
      if !(cs[0].ebmlId == Cluster && foundCluster) {
        var r := Kept(cs, foundCluster);
        assert r == [cs[0]] + Kept(cs[1..], found');
        assert forall k :: 1 <= k < |r| ==> r[k] == Kept(cs[1..], found')[k - 1];
      }
    }
  }
}
