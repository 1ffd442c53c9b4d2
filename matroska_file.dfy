/** Matroska::File: the reader that walks the file image, accepts the EBML
    header, resolves each Segment's top-level children (through the SeekHead
    index, with one retry by a linear scan), and builds the Properties, the
    collection of tags and the unified tag from them.

    The effect of each reader method on the document is stated as a function
    of the document state (DocState) and the file image; the class Document
    holds the state the source mutates and its methods are proved against
    those functions. */
module MatroskaFile {
  import opened Bytes
  import opened MatroskaTypes
  import opened EbmlReader
  import opened EbmlWalk
  import opened MatroskaSegment
  import opened MatroskaProperties
  import opened SimpleTags
  import opened MatroskaTags
  import opened MatroskaTagRecords

  /** What the reader depends on besides its own state: the file image, the
      conversions outside the model (readDouble with the double-to-int step,
      String::toInt) and the depth up to which chained SeekHeads are
      followed. */
  datatype Input = Input(file: seq<byte>, durationOf: seq<byte> -> int, toInt: string -> int, depth: nat)

  /** The document state: isValid(), the Properties (if created), the tags of
      the collection m_tags, and the unified tag (if made). */
  datatype DocState = DocState(valid: bool, timing: Option<Timing>, tags: seq<TagRecord>, unified: Option<TagRecord>)

  /** A freshly opened file: valid, nothing read. */
  const Opened := DocState(true, None, [], None)

  // ---------------------------------------------------------------------------
  // The effects of readSegmentInfo and of the Tags case

  /** readSegmentInfo: Properties are created from the first SegmentInfo only. */
  function InfoEffect(input: Input, s: DocState, info: Element): DocState {
    if s.timing.Some? then s
    else s.(timing := Some(ApplyAll(Timing(0, 0, 0), Events(input.file, input.durationOf, Children(input.file, info)))))
  }

  /** readTags followed by makeUnifiedTag: the tags are appended to the
      collection, and the unified tag is made afresh from all of it. */
  function TagsEffect(input: Input, s: DocState, tagsElem: Element): DocState {
    var all := s.tags + TagRecordsOf(input.file, input.toInt, tagsElem);
    s.(tags := all, unified := Some(UnifiedRecord(all, input.toInt)))
  }

  // ---------------------------------------------------------------------------
  // readSegment

  /** The outcome of one step of readSegment's loop. */
  datatype Step = Step(state: DocState, verdict: bool)

  /** One child of the segment list: SeekHead and CRC32 children are only read;
      SegmentInfo and Tags children, when their read succeeds, are processed;
      any other ID keeps the previous verdict. */
  function PassStep(input: Input, s: DocState, c: Element, verdict: bool): Step {
    var r := Read(input.file, c);
    if c.ebmlId == SeekHead || c.ebmlId == CRC32 then Step(s, r.ok)
    else if c.ebmlId == SegmentInfo then Step(if r.ok then InfoEffect(input, s, r.elem) else s, r.ok)
    else if c.ebmlId == Tags then Step(if r.ok then TagsEffect(input, s, r.elem) else s, r.ok)
    else Step(s, verdict)
  }

  /** readSegment's loop over the list, stopping at the first failing verdict. */
  function RunPass(input: Input, s: DocState, list: seq<Element>, verdict: bool): Step
    decreases |list|
  {
    if list == [] then Step(s, verdict)
    else
      var st := PassStep(input, s, list[0], verdict);
      if !st.verdict then st else RunPass(input, st.state, list[1..], st.verdict)
  }

  /** The list from readSegments (which may clear the valid flag), then the
      loop over it. */
  function SegmentPass(input: Input, s: DocState, segment: Element, retry: bool): Step {
    var scan := SegmentList(input.file, segment, retry, input.depth);
    RunPass(input, s.(valid := s.valid && scan.ok), scan.list, false)
  }

  /** readSegment(segment, retry): the list from readSegments (which may clear
      the valid flag), the loop, and on failure the file marked invalid and,
      when `retry` is set, the collection cleared and the segment read once
      more without the index. */
  function SegmentEffect(input: Input, s: DocState, segment: Element, retry: bool): DocState
    decreases if retry then 1 else 0
  {
    var pass := SegmentPass(input, s, segment, retry);
    if pass.verdict then pass.state
    else if retry then SegmentEffect(input, pass.state.(valid := false, tags := []), segment, false)
    else pass.state.(valid := false)
  }

  // ---------------------------------------------------------------------------
  // read

  /** read()'s loop over the top-level elements: an invalid element marks the
      file invalid and ends the loop; an EBML header is checked; a Segment is
      read. */
  function TopFold(input: Input, s: DocState, es: seq<Element>): DocState
    decreases |es|
  {
    if es == [] then s
    else
      var e := es[0];
      if !e.valid then s.(valid := false)
      else TopFold(input, TopEffect(input, s, e), es[1..])
  }

  /** One valid top-level element: an EBML header is checked, a Segment read. */
  function TopEffect(input: Input, s: DocState, e: Element): DocState {
    if e.ebmlId == EBMLHeader then s.(valid := s.valid && DocTypeAccepted(DocTypeOf(input.file, e)))
    else if e.ebmlId == Segment then SegmentEffect(input, s, e, true)
    else s
  }

  /** Unfolding read()'s loop at one element. */
  lemma TopFoldCons(input: Input, s: DocState, e: Element, rest: seq<Element>)
    ensures TopFold(input, s, [e] + rest) == if e.valid then TopFold(input, TopEffect(input, s, e), rest) else s.(valid := false)
  {
    assert ([e] + rest)[0] == e && ([e] + rest)[1..] == rest;
  }

  /** read()'s loop at the reader at `offset`. */
  lemma TopFoldAt(input: Input, s: DocState, offset: nat)
    requires offset < |input.file|
    ensures var e := Open(input.file, offset);
      TopFold(input, s, TopLevel(input.file, offset)) ==
        if !e.valid then s.(valid := false)
        else if Size(e) == 0 then TopEffect(input, s, e)
        else TopFold(input, TopEffect(input, s, e), TopLevel(input.file, End(e)))
  {
    var e := Open(input.file, offset);
    TopLevelStep(input.file, offset);
    var rest := if Size(e) == 0 then [] else TopLevel(input.file, End(e));
    TopFoldCons(input, s, e, rest);
  }

  /** read()'s loop stops at an element whose header does not decode. */
  lemma TopFoldInvalid(input: Input, s: DocState, offset: nat)
    requires offset < |input.file| && !Open(input.file, offset).valid
    ensures TopFold(input, s, TopLevel(input.file, offset)) == s.(valid := false)
  {
    TopFoldAt(input, s, offset);
  }

  /** read()'s loop ends after a valid element of size zero, with its effect. */
  lemma TopFoldLast(input: Input, s0: DocState, s1: DocState, offset: nat)
    requires offset < |input.file| && Open(input.file, offset).valid && Size(Open(input.file, offset)) == 0
    requires s1 == TopEffect(input, s0, Open(input.file, offset))
    ensures TopFold(input, s0, TopLevel(input.file, offset)) == s1
  {
    TopFoldAt(input, s0, offset);
  }

  /** read()'s loop after any other valid element: its effect, then the walk
      from the offset just past it. */
  lemma TopFoldNext(input: Input, s0: DocState, s1: DocState, offset: nat)
    requires offset < |input.file| && Open(input.file, offset).valid && Size(Open(input.file, offset)) != 0
    requires s1 == TopEffect(input, s0, Open(input.file, offset))
    ensures TopFold(input, s0, TopLevel(input.file, offset)) == TopFold(input, s1, TopLevel(input.file, End(Open(input.file, offset))))
  {
    TopFoldAt(input, s0, offset);
  }

  /** read(): the lead text, then the top-level elements from there. */
  function FileRun(input: Input, s: DocState): DocState {
    var lead := LeadOffset(input.file);
    if lead == NO_LEAD then s.(valid := false) else TopFold(input, s, TopLevel(input.file, lead))
  }

  /** The state of a file once its constructor has run. */
  function FileEffect(input: Input): DocState {
    FileRun(input, Opened)
  }

  // ---------------------------------------------------------------------------
  // Properties of the reader

  /** The loop of readSegment never sets the valid flag. */
  lemma {:induction false} PassKeepsValid(input: Input, s: DocState, list: seq<Element>, verdict: bool)
    ensures RunPass(input, s, list, verdict).state.valid == s.valid
    decreases |list|
  {
    if list != [] {
      var st := PassStep(input, s, list[0], verdict);
      PassStepKeepsValid(input, s, list[0], verdict);
      if st.verdict {
        PassKeepsValid(input, st.state, list[1..], st.verdict);
      }
    }
  }

  lemma PassStepKeepsValid(input: Input, s: DocState, c: Element, verdict: bool)
    ensures PassStep(input, s, c, verdict).state.valid == s.valid
  {
  }

  /** Nothing in readSegment sets the file valid again, and a failed pass
      leaves it invalid, with or without the retry. */
  lemma SegmentNeverRestores(input: Input, s: DocState, segment: Element, retry: bool)
    ensures SegmentEffect(input, s, segment, retry).valid ==> s.valid
    ensures !SegmentPass(input, s, segment, retry).verdict ==> !SegmentEffect(input, s, segment, retry).valid
    decreases if retry then 1 else 0
  {
    var scan := SegmentList(input.file, segment, retry, input.depth);
    PassKeepsValid(input, s.(valid := s.valid && scan.ok), scan.list, false);
    if retry {
      var pass := SegmentPass(input, s, segment, retry);
      SegmentNeverRestores(input, pass.state.(valid := false, tags := []), segment, false);
    }
  }

  /** An empty list, or a list whose first element is not a SeekHead,
      SegmentInfo, Tags or CRC32 reader, fails: the verdict starts false. */
  lemma EmptyOrForeignFails(input: Input, s: DocState, list: seq<Element>)
    requires list == [] || list[0].ebmlId !in {SeekHead, SegmentInfo, Tags, CRC32}
    ensures !RunPass(input, s, list, false).verdict && RunPass(input, s, list, false).state == s
  {
  }

  /** The valid flag of the whole read only ever goes from true to false. */
  lemma {:induction false} TopNeverRestores(input: Input, s: DocState, es: seq<Element>)
    ensures TopFold(input, s, es).valid ==> s.valid
    decreases |es|
  {
    if es != [] && es[0].valid {
      var e := es[0];
      if e.ebmlId == Segment && e.ebmlId != EBMLHeader {
        SegmentNeverRestores(input, s, e, true);
      }
      TopNeverRestores(input, TopEffect(input, s, e), es[1..]);
    }
  }

  /** A file without a 0x1A byte is invalid and nothing is read from it. */
  lemma NoLeadInvalid(input: Input)
    requires 0x1A !in input.file
    ensures FileEffect(input) == Opened.(valid := false)
  {
  }

  /** Only the first SegmentInfo creates Properties: once they exist, the
      loop, and each later segment, leaves them as they are. */
  lemma {:induction false} PassKeepsTiming(input: Input, s: DocState, list: seq<Element>, verdict: bool)
    requires s.timing.Some?
    ensures RunPass(input, s, list, verdict).state.timing == s.timing
    decreases |list|
  {
    if list != [] {
      var st := PassStep(input, s, list[0], verdict);
      if st.verdict {
        PassKeepsTiming(input, st.state, list[1..], st.verdict);
      }
    }
  }

  lemma SegmentKeepsTiming(input: Input, s: DocState, segment: Element, retry: bool)
    requires s.timing.Some?
    ensures SegmentEffect(input, s, segment, retry).timing == s.timing
    decreases if retry then 1 else 0
  {
    var scan := SegmentList(input.file, segment, retry, input.depth);
    PassKeepsTiming(input, s.(valid := s.valid && scan.ok), scan.list, false);
    if retry {
      var pass := SegmentPass(input, s, segment, retry);
      SegmentKeepsTiming(input, pass.state.(valid := false, tags := []), segment, false);
    }
  }

  /** The Tags case appends to the collection and keeps what was there. */
  lemma TagsAppend(input: Input, s: DocState, tagsElem: Element)
    ensures |TagsEffect(input, s, tagsElem).tags| == |s.tags| + |TagChildren(Children(input.file, tagsElem))|
    ensures TagsEffect(input, s, tagsElem).tags[..|s.tags|] == s.tags
    ensures TagsEffect(input, s, tagsElem).unified.Some?
  {
    TagRecordsCount(input.file, input.toInt, Children(input.file, tagsElem));
  }

  // ---------------------------------------------------------------------------
  // The reader

  /** A tag of the collection as a value. */
  ghost function RecordOf(t: Tag): TagRecord
    reads t
  {
    TagRecord(t.Fields(), t.simpleTags)
  }

  ghost function Records(items: seq<Tag>): (rs: seq<TagRecord>)
    reads items
    ensures |rs| == |items|
    decreases |items|
  {
    if items == [] then [] else Records(items[..|items| - 1]) + [RecordOf(items[|items| - 1])]
  }

  /** Appending a tag appends its record. */
  lemma RecordsAppend(items: seq<Tag>, t: Tag)
    ensures Records(items + [t]) == Records(items) + [RecordOf(t)]
  {
    assert (items + [t])[..|items|] == items;
  }

  /** The record at index k is that of the k-th tag. */
  lemma {:induction false} RecordsIndex(items: seq<Tag>, k: nat)
    requires k < |items|
    ensures Records(items)[k] == RecordOf(items[k])
    decreases |items|
  {
    if k < |items| - 1 {
      RecordsIndex(items[..|items| - 1], k);
    }
  }

  class Document {
    const file: seq<byte>
    const durationOf: seq<byte> -> int
    const toInt: string -> int
    const depth: nat
    /** d->m_tags. */
    const tags: TagList
    var valid: bool
    /** d->properties. */
    var properties: Properties?
    /** d->unifiedTag. */
    var unifiedTag: Tag?

    /** File(stream): an open file is read at once; what read() leaves is the
        file's state. */
    constructor(file: seq<byte>, durationOf: seq<byte> -> int, toInt: string -> int, depth: nat)
      ensures Inputs() == Input(file, durationOf, toInt, depth)
      ensures Valid()
      ensures State() == FileEffect(Inputs())
    {
      this.file, this.durationOf, this.toInt, this.depth := file, durationOf, toInt, depth;
      tags := new TagList();
      valid := true;
      properties := null;
      unifiedTag := null;
      new;
      assert State() == Opened;
      Read();
    }

    /** save() writes nothing and reports failure. */
    method Save() returns (saved: bool)
      ensures !saved
    {
      saved := false;
    }

    function Inputs(): Input {
      Input(file, durationOf, toInt, depth)
    }

    /** The unified tag is never one of the collection. */
    ghost predicate Valid()
      reads this, tags
    {
      unifiedTag == null || unifiedTag !in tags.items
    }

    ghost function State(): DocState
      reads this, tags, tags.items, properties, unifiedTag
    {
      DocState(valid,
               if properties == null then None else Some(properties.State()),
               Records(tags.items),
               if unifiedTag == null then None else Some(RecordOf(unifiedTag)))
    }

    /** read(): a file without the 0x1A lead byte is invalid; otherwise the
        top-level elements are visited from there, an invalid one marking the
        file invalid and ending the walk, an EBML header checked, a Segment
        read with the index allowed. A reader of size 0 ends the walk. */
    method Read()
      requires Valid()
      modifies this, tags
      ensures Valid()
      ensures State() == FileRun(Inputs(), old(State()))
    {
      var offset := ReadLeadText();
      if offset == NO_LEAD {
        valid := false;
        return;
      }
      while offset < |file|
        invariant Valid()
        invariant FileRun(Inputs(), old(State())) == TopFold(Inputs(), State(), TopLevel(file, offset))
        decreases |file| - offset
      {
        var next, more := ReadTopStep(offset);
        if !more {
          return;
        }
        offset := next;
      }
    }

    /** One pass of read()'s loop: the element at `offset`, and whether the
        walk goes on and from where. */
    method ReadTopStep(offset: nat) returns (next: nat, more: bool)
      requires Valid() && offset < |file|
      modifies this, tags
      ensures Valid()
      ensures more ==> offset < next
      ensures !more ==> TopFold(Inputs(), old(State()), TopLevel(file, offset)) == State()
      ensures more ==> TopFold(Inputs(), old(State()), TopLevel(file, offset)) == TopFold(Inputs(), State(), TopLevel(file, next))
    {
      var element := Open(file, offset);
      if !element.valid {
        TopFoldInvalid(Inputs(), State(), offset);
        valid := false;
        return offset, false;
      }
      ReadTopElement(element);
      if Size(element) == 0 {
        TopFoldLast(Inputs(), old(State()), State(), offset);
        return offset, false;
      }
      TopFoldNext(Inputs(), old(State()), State(), offset);
      next, more := End(element), true;
    }

    /** The two switches of read()'s loop for a valid element. */
    method ReadTopElement(element: Element)
      requires Valid()
      modifies this, tags
      ensures Valid()
      ensures State() == TopEffect(Inputs(), old(State()), element)
    {
      if element.ebmlId == EBMLHeader {
        ReadHeader(element);
      }
      if element.ebmlId == Segment {
        ReadSegment(element, true);
      }
    }

    /** readSegment(element, retry): the list of children to process, the loop
        over it up to the first failing verdict, and on failure the file
        marked invalid and, with `retry`, the collection cleared and the
        segment read again without the index. */
    method ReadSegment(element: Element, retry: bool)
      requires Valid()
      modifies this, tags
      ensures Valid()
      ensures State() == SegmentEffect(Inputs(), old(State()), element, retry)
      decreases if retry then 1 else 0
    {
      ghost var pass := SegmentPass(Inputs(), State(), element, retry);
      var isValid := ReadSegmentPass(element, retry);
      if !isValid {
        valid := false;
        if retry {
          tags.items := [];
          assert State() == pass.state.(valid := false, tags := []);
          ReadSegment(element, false);
        }
      }
    }

    /** readSegments and the loop of readSegment. */
    method ReadSegmentPass(element: Element, retry: bool) returns (isValid: bool)
      requires Valid()
      modifies this, tags
      ensures Valid()
      ensures Step(State(), isValid) == SegmentPass(Inputs(), old(State()), element, retry)
    {
      ghost var s := State();
      ghost var scan := SegmentList(file, element, retry, depth);
      var list := ReadSegments(element, retry);
      assert State() == s.(valid := s.valid && scan.ok);
      isValid := ReadPass(list);
    }

    /** The loop of readSegment over the list, up to the first failing
        verdict. */
    method ReadPass(list: seq<Element>) returns (isValid: bool)
      requires Valid()
      modifies this, tags
      ensures Valid()
      ensures Step(State(), isValid) == RunPass(Inputs(), old(State()), list, false)
    {
      isValid := false;
      var k := 0;
      while k < |list|
        invariant k <= |list|
        invariant Valid()
        invariant RunPass(Inputs(), old(State()), list, false) == RunPass(Inputs(), State(), list[k..], isValid)
        decreases |list| - k
      {
        assert list[k..][0] == list[k] && list[k..][1..] == list[k + 1..];
        isValid := PassChild(list[k], isValid);
        if !isValid {
          return;
        }
        k := k + 1;
      }
    }

    /** One pass of readSegment's loop: SeekHead and CRC32 children are read
        for their verdict; a SegmentInfo or Tags child that reads is then
        processed; any other child keeps the verdict. */
    method PassChild(child: Element, verdict: bool) returns (verdict': bool)
      requires Valid()
      modifies this, tags
      ensures Valid()
      ensures Step(State(), verdict') == PassStep(Inputs(), old(State()), child, verdict)
    {
      verdict' := verdict;
      if child.ebmlId == SeekHead || child.ebmlId == CRC32 {
        var _, ok := EbmlReader.ReadHeader(file, child);
        verdict' := ok;
      } else if child.ebmlId == SegmentInfo {
        var r, ok := EbmlReader.ReadHeader(file, child);
        verdict' := ok;
        if ok {
          ReadSegmentInfo(r);
        }
      } else if child.ebmlId == Tags {
        var r, ok := EbmlReader.ReadHeader(file, child);
        verdict' := ok;
        if ok {
          ReadTagsCase(r);
        }
      }
    }

    /** The Tags case of readSegment: readTags then makeUnifiedTag. */
    method ReadTagsCase(element: Element)
      modifies this, tags
      ensures Valid()
      ensures State() == TagsEffect(Inputs(), old(State()), element)
    {
      ghost var timing := State().timing;
      ReadTags(element);
      ghost var all := Records(tags.items);
      assert all == old(State()).tags + TagRecordsOf(file, toInt, element);
      MakeUnifiedTag();
      assert Records(tags.items) == all;
      assert valid == old(valid);
      assert (if properties == null then None else Some(properties.State())) == timing;
      assert unifiedTag != null && RecordOf(unifiedTag) == UnifiedRecord(all, toInt);
      assert State() == DocState(old(valid), timing, all, Some(UnifiedRecord(all, toInt)));
    }

    /** readSegmentInfo: Properties are made from the first SegmentInfo only. */
    method ReadSegmentInfo(element: Element)
      requires Valid()
      modifies this
      ensures Valid()
      ensures State() == InfoEffect(Inputs(), old(State()), element)
    {
      if properties == null {
        properties := new Properties(file, element, durationOf);
      }
    }

    /** makeUnifiedTag: a new tag, read while it has no SimpleTags, takes from
        the tags of the collection in order the album of each COLLECTION tag
        and the first non-empty fields of the MOVIE tags. */
    method MakeUnifiedTag()
      modifies this
      ensures valid == old(valid) && properties == old(properties)
      ensures unifiedTag != null && fresh(unifiedTag) && unifiedTag.tags == tags
      ensures RecordOf(unifiedTag) == UnifiedRecord(Records(tags.items), toInt)
    {
      var u := NewUnifiedTag();
      ReadOfEmpty(NewTagFields, toInt);
      UnifyInto(u, tags.items, Records(tags.items));
      unifiedTag := u;
    }

    /** `new Tag(m_tags)` and `read()` on it: without SimpleTags the read
        changes no field. */
    method NewUnifiedTag() returns (u: Tag)
      ensures fresh(u) && u.tags == tags
      ensures u.Fields() == NewTagFields && u.simpleTags == TouchedByRead(map[])
    {
      u := new Tag(tags, 0, NoUid);
      assert u.Fields() == NewTagFields && u !in tags.items;
      u.Read(toInt);
      ReadOfEmpty(NewTagFields, toInt);
    }

    /** The loop of makeUnifiedTag: the tags of the collection in order. */
    static method UnifyInto(u: Tag, items: seq<Tag>, ghost rs: seq<TagRecord>)
      requires u !in items && rs == Records(items)
      modifies u
      ensures u.Fields() == UnifyAll(old(u.Fields()), FieldsOf(rs))
      ensures u.simpleTags == old(u.simpleTags)
    {
      ghost var fs := FieldsOf(rs);
      var k := 0;
      while k < |items|
        invariant k <= |items| == |fs|
        invariant rs == Records(items)
        invariant u.Fields() == UnifyAll(old(u.Fields()), fs[..k])
        invariant u.simpleTags == old(u.simpleTags)
        decreases |items| - k
      {
        RecordsIndex(items, k);
        MergeInto(u, items[k]);
        UnifyAllSnoc(old(u.Fields()), fs[..k], fs[k]);
        TakeSnoc(fs, k);
        k := k + 1;
      }
      assert fs[..k] == fs;
    }

    /** The switch of makeUnifiedTag for one tag of the collection. */
    static method MergeInto(u: Tag, t: Tag)
      requires u != t
      modifies u
      ensures u.Fields() == UnifyStep(old(u.Fields()), t.Fields())
      ensures u.simpleTags == old(u.simpleTags)
    {
      if t.targetType == COLLECTION {
        u.SetAlbum(t.album);
        if u.genre == "" {
          u.SetGenre(t.genre);
        }
      } else if t.targetType == MOVIE {
        if u.index == 0 {
          u.SetTrack(t.index);
        }
        if u.artist == "" {
          u.SetArtist(t.artist);
        }
        if u.title == "" {
          u.SetTitle(t.title);
        }
        if u.genre == "" {
          u.SetGenre(t.genre);
        }
      }
    }

    /** readLeadText: 64-byte blocks are searched for 0x1A in turn until one
        holds it or the end of the file is reached. */
    method ReadLeadText() returns (offset: nat)
      ensures offset == LeadOffset(file)
    {
      offset := 0;
      var index := IndexOf(Take(file, offset, LEAD_BLOCK), 0x1A);
      LeadBlock(file, offset);
      offset := offset + LEAD_BLOCK;
      while index.None? && offset < |file|
        invariant offset >= LEAD_BLOCK
        invariant index.None? ==> 0x1A !in file[..Min(offset, |file|)]
        invariant index.Some? ==> offset - LEAD_BLOCK + index.value == LeadOffset(file)
        decreases |file| - offset
      {
        index := IndexOf(Take(file, offset, LEAD_BLOCK), 0x1A);
        LeadBlock(file, offset);
        offset := offset + LEAD_BLOCK;
      }
      if index.None? {
        return NO_LEAD;
      }
      offset := offset + index.value - LEAD_BLOCK;
    }

    /** The walk of readHeader over the header's children: each DocType child
        overwrites the string read so far. */
    static method ReadDocType(file: seq<byte>, header: Element) returns (docType: string)
      ensures docType == DocTypeOf(file, header)
    {
      docType := "";
      var i: nat := 0;
      while i < header.dataSize
        invariant DocTypeOf(file, header) == LastDocType(docType, DocTypes(file, ChildrenFrom(file, header, i)))
        decreases header.dataSize - i
      {
        var child, next, stop := NextChild(file, header, i);
        DocTypeCons(file, child, if stop then [] else ChildrenFrom(file, header, next), docType);
        DocTypeEnd(file, header, i, DocTypeAfter(file, child, docType));
        if child.ebmlId == EBMLDocType {
          docType := ReadString(file, child);
        }
        if stop {
          return;
        }
        i := next;
      }
      DocTypeEnd(file, header, i, docType);
    }

    /** readHeader: the file is marked invalid unless the DocType is exactly
        "matroska"; nothing else changes. */
    method ReadHeader(header: Element)
      modifies this
      ensures valid == (old(valid) && DocTypeAccepted(DocTypeOf(file, header)))
      ensures properties == old(properties) && unifiedTag == old(unifiedTag)
    {
      var docType := ReadDocType(file, header);
      if docType == "" || docType != "matroska" {
        valid := false;
      }
    }

    /** The sort loop of readSeekHead: k runs down from the last entry to the
        first one whose offset is below the new position, and the entry is
        inserted after it. */
    static method InsertEntry(list: seq<Element>, ebml: Element) returns (r: seq<Element>)
      ensures r == Insert(list, ebml)
    {
      var k: int := |list| - 1;
      while k >= 0
        invariant -1 <= k < |list|
        invariant InsertionPoint(list, ebml.offset) == InsertionPoint(list[..k + 1], ebml.offset)
        decreases k
      {
        if ebml.offset > list[k].offset {
          break;
        }
        assert list[..k + 1][..k] == list[..k];
        k := k - 1;
      }
      r := list[..k + 1] + [ebml] + list[k + 1..];
    }

    /** The inner loop of readSeekHead over one Seek's children: a SeekID sets
        the entry's ID and a SeekPosition its position. */
    static method ReadSeekFields(file: seq<byte>, head: Element, seek: Element, st: SeekEntry) returns (r: SeekEntry)
      ensures r == ApplySeekFields(head, st, SeekFields(file, Children(file, seek)))
    {
      r := st;
      var j: nat := 0;
      while j < seek.dataSize
        invariant ApplySeekFields(head, st, SeekFields(file, Children(file, seek))) ==
                  ApplySeekFields(head, r, SeekFields(file, ChildrenFrom(file, seek, j)))
        decreases seek.dataSize - j
      {
        var child, next, stop := NextChild(file, seek, j);
        SeekFieldsCons(file, head, child, if stop then [] else ChildrenFrom(file, seek, next), r);
        SeekFieldsCons(file, head, child, [], ApplySeekField(head, r, SeekFieldOf(file, child)));
        if child.ebmlId == SeekID {
          r := r.(id := ReadUInt(file, child));
        } else if child.ebmlId == SeekPosition {
          r := r.(position := Wrap64(ReadUInt(file, child) + head.offset));
        }
        if stop {
          return;
        }
        j := next;
      }
      ChildrenEnd(file, seek, j);
      SeekFieldsCons(file, head, seek, [], r);
    }

    /** readSeekHead(element, list): the Seek entries of the index are read in
        order and inserted into the list by position. The result is false for
        a child that is neither a Seek nor a CRC-32, and for a chained
        SeekHead that does not read. */
    static method ReadSeekHead(file: seq<byte>, segment: Element, element: Element, list: seq<Element>, fuel: nat)
      returns (ok: bool, r: seq<Element>)
      ensures SeekResult(ok, r) == SeekHeadRead(file, segment, element, list, fuel)
      decreases fuel, 1, 0
    {
      r := list;
      var st := SeekEntry(0, 0);
      var i: nat := 0;
      while i < element.dataSize
        invariant SeekHeadRead(file, segment, element, list, fuel) ==
                  SeekEntries(file, segment, element, ChildrenFrom(file, element, i), st, r, fuel)
        decreases element.dataSize - i
      {
        var ebmlSeek, next, stop := NextChild(file, element, i);
        ghost var rest := if stop then [] else ChildrenFrom(file, element, next);
        ghost var cs := [ebmlSeek] + rest;
        assert cs[0] == ebmlSeek && cs[1..] == rest;
        if ebmlSeek.ebmlId == CRC32 {
          if stop {
            return true, r;
          }
          i := next;
          continue;
        }
        if ebmlSeek.ebmlId != Seek {
          return false, r;
        }
        st := ReadSeekFields(file, element, ebmlSeek, st);
        var failed;
        failed, r := AddSeekEntry(file, segment, element, cs, st, r, fuel);
        if failed {
          return false, r;
        }
        if stop {
          return true, r;
        }
        i := next;
      }
      ChildrenEnd(file, element, i);
      ok := true;
    }

    /** The end of one Seek in readSeekHead: an entry with a positive ID and
        position gets a reader, a child of the Segment, inserted into the list;
        an entry for another SeekHead must read and is then expanded in turn,
        up to `fuel` chained levels, its verdict ignored. */
    static method AddSeekEntry(file: seq<byte>, segment: Element, element: Element, ghost cs: seq<Element>,
                               st: SeekEntry, list: seq<Element>, fuel: nat)
      returns (failed: bool, r: seq<Element>)
      requires cs != []
      ensures failed ==> SeekAdd(file, segment, element, cs, st, list, fuel) == SeekResult(false, r)
      ensures !failed ==> SeekAdd(file, segment, element, cs, st, list, fuel) == SeekEntries(file, segment, element, cs[1..], st, r, fuel)
      decreases fuel, 0, 1
    {
      if !IsSeekTarget(st) {
        return false, list;
      }
      var ebml := Child(file, segment, st.position, st.id, 0);
      r := InsertEntry(list, ebml);
      failed, r := ChainSeekHead(file, segment, element, cs, st, ebml, r, fuel);
    }

    /** The chained read of readSeekHead: an entry for another SeekHead must
        read, and that index is then expanded into the list, up to `fuel`
        chained levels, its verdict ignored. */
    static method ChainSeekHead(file: seq<byte>, segment: Element, element: Element, ghost cs: seq<Element>,
                                st: SeekEntry, ebml: Element, list: seq<Element>, fuel: nat)
      returns (failed: bool, r: seq<Element>)
      requires cs != []
      ensures failed ==> SeekChain(file, segment, element, cs, st, ebml, list, fuel) == SeekResult(false, r)
      ensures !failed ==> SeekChain(file, segment, element, cs, st, ebml, list, fuel) == SeekEntries(file, segment, element, cs[1..], st, r, fuel)
      decreases fuel, 0, 0
    {
      r := list;
      failed := false;
      if st.id == SeekHead {
        if !ebml.valid {
          return true, r;
        }
        if fuel > 0 {
          var _, chained := ReadSeekHead(file, segment, ebml, r, fuel - 1);
          r := chained;
        }
      }
    }

    /** readSegments(element, allowSeekHead): the level-1 children of the
        Segment to process, and the file marked invalid on an invalid child or
        a SeekHead that does not read. */
    method ReadSegments(element: Element, allowSeekHead: bool) returns (list: seq<Element>)
      modifies this
      ensures list == SegmentList(file, element, allowSeekHead, depth).list
      ensures valid == (old(valid) && SegmentList(file, element, allowSeekHead, depth).ok)
      ensures properties == old(properties) && unifiedTag == old(unifiedTag)
    {
      list := [];
      var foundCluster := false;
      ghost var ok := true;
      var i: nat := 0;
      FirstChildAtStart(file, element);
      while i < element.dataSize
        invariant i == 0 ==> list == [] && !foundCluster
        invariant i == 0 ==> Children(file, element) != [] ==> Children(file, element)[0].offset == element.dataOffset
        invariant i != 0 ==> list != []
        invariant SegmentList(file, element, allowSeekHead, depth) ==
                  ScanChildren(file, element, allowSeekHead, depth, ChildrenFrom(file, element, i), i == 0, Scan(list, foundCluster, ok))
        invariant valid == (old(valid) && ok)
        invariant properties == old(properties) && unifiedTag == old(unifiedTag)
        decreases element.dataSize - i
      {
        var child, next, stop := NextChild(file, element, i);
        ghost var rest := if stop then [] else ChildrenFrom(file, element, next);
        var failed, done;
        list, foundCluster, failed, done := ScanChild(file, element, allowSeekHead, depth, child, rest, i == 0, list, foundCluster, ok);
        if failed {
          valid := false;
        }
        ok := ok && !failed;
        if done || stop {
          return;
        }
        i := next;
      }
      ChildrenEnd(file, element, i);
    }

    /** The body of readSegments' loop for one child: an invalid child ends the
        scan with failure; the first readable SeekHead replaces the list by its
        index, the Segment's first child kept in front, and ends the scan; a
        SeekHead that does not read marks the file invalid and is kept; only
        the first Cluster is kept; every other child is kept. */
    static method ScanChild(file: seq<byte>, segment: Element, allowSeekHead: bool, depth: nat, child: Element,
                            ghost rest: seq<Element>, first: bool, list: seq<Element>, foundCluster: bool, ghost ok: bool)
      returns (list': seq<Element>, foundCluster': bool, failed: bool, done: bool)
      requires first ==> list == [] && !foundCluster && child.offset == segment.dataOffset
      requires !first ==> list != []
      ensures !done ==> list' != []
      ensures ScanChildren(file, segment, allowSeekHead, depth, [child] + rest, first, Scan(list, foundCluster, ok)) ==
              if done then Scan(list', foundCluster', ok && !failed)
              else ScanChildren(file, segment, allowSeekHead, depth, rest, false, Scan(list', foundCluster', ok && !failed))
    {
      ghost var cs := [child] + rest;
      assert cs[0] == child && cs[1..] == rest;
      list', foundCluster', failed, done := list, foundCluster, false, false;
      if !child.valid {
        return list, foundCluster, true, true;
      }
      var refInSeekHead := false;
      if child.ebmlId == SeekHead {
        if allowSeekHead {
          var seekOk, seekList := ReadSeekHead(file, segment, child, [child], depth);
          if seekOk {
            SeekHeadReadKeep(file, segment, child, [child], depth);
            if seekList[0].offset > segment.dataOffset {
              seekList := [list[0]] + seekList;
            }
            return seekList, foundCluster, false, true;
          }
          failed := true;
          refInSeekHead := true;
        } else {
          refInSeekHead := true;
        }
      } else if child.ebmlId == Cluster {
        refInSeekHead := !foundCluster;
        foundCluster' := true;
      } else {
        refInSeekHead := true;
      }
      if refInSeekHead || (first && Size(child) == 0) {
        list' := list + [child];
      }
    }

    /** readTargets(element, tag): the locals collected from the children,
        then the two updates of the tag. */
    method ReadTargets(element: Element, tag: Tag)
      modifies tag
      ensures tag.Fields() == ApplyTargets(old(tag.Fields()), TargetsOf(file, element))
      ensures tag.simpleTags == old(tag.simpleTags)
    {
      var targetTypeValue, uids := CollectTargets(file, element);
      if targetTypeValue != 0 {
        tag.SetTargetType(MakeTargetType(targetTypeValue));
      }
      if |uids| > 0 {
        tag.SetElements(uids);
      }
    }

    /** The loop of readTargets: the raw target type of the last
        TargetTypeValue child, cut to 32 bits, and the non-zero UIDs, in order. */
    static method CollectTargets(file: seq<byte>, element: Element) returns (targetTypeValue: nat, uids: seq<UidElement>)
      ensures TargetsAcc(targetTypeValue, uids) == TargetsOf(file, element)
    {
      targetTypeValue, uids := 0, [];
      var i: nat := 0;
      while i < element.dataSize
        invariant TargetsOf(file, element) == TargetsFold(file, ChildrenFrom(file, element, i), TargetsAcc(targetTypeValue, uids))
        decreases element.dataSize - i
      {
        var child, next, stop := NextChild(file, element, i);
        TargetsFoldCons(file, child, if stop then [] else ChildrenFrom(file, element, next), TargetsAcc(targetTypeValue, uids));
        if child.ebmlId == TargetTypeValue {
          targetTypeValue := ReadUInt(file, child) % TWO32;
        } else if IsUidKind(child.ebmlId) {
          var uid := ReadUInt(file, child);
          if uid != 0 {
            uids := uids + [UidElement(child.ebmlId, uid)];
          }
        }
        if stop {
          TargetsFoldCons(file, child, [], TargetsAcc(targetTypeValue, uids));
          return;
        }
        i := next;
      }
      ChildrenEnd(file, element, i);
    }

    /** readSimpleTag(element, tag, simpletag): the key and a SimpleTag are
        built from the children, and the result is appended under its key to
        the tag's map, or, without a tag, to the map of the enclosing
        SimpleTag; nothing is added for an empty key. */
    method ReadSimpleTag(element: Element, tag: Tag?, simpletag: SimpleTag?)
      requires HeaderDecoded(file, element)
      requires tag != null || simpletag != null
      modifies tag, simpletag
      ensures tag != null ==> tag.simpleTags == AttachTo(old(tag.simpleTags), SimpleTagOf(file, element)) &&
                              tag.Fields() == old(tag.Fields())
      ensures tag == null ==> simpletag.nested == AttachTo(old(simpletag.nested), SimpleTagOf(file, element)) &&
                              simpletag.value == old(simpletag.value) && simpletag.isBinary == old(simpletag.isBinary)
      decreases |file| - element.offset, 1
    {
      var key := "";
      var stag := new SimpleTag();
      var i: nat := 0;
      WalkDecodable(file, element, 0);
      while i < element.dataSize
        invariant Decodable(file, ChildrenFrom(file, element, i))
        invariant forall k :: 0 <= k < |ChildrenFrom(file, element, i)| ==> ChildrenFrom(file, element, i)[k].offset > element.offset
        invariant SimpleTagOf(file, element) ==
                  StagFold(file, element, ChildrenFrom(file, element, i), StagState(key, stag.value, stag.isBinary, stag.nested))
        invariant fresh(stag)
        invariant tag != null ==> tag.simpleTags == old(tag.simpleTags) && tag.Fields() == old(tag.Fields())
        invariant simpletag != null ==> simpletag.nested == old(simpletag.nested) &&
                                        simpletag.value == old(simpletag.value) && simpletag.isBinary == old(simpletag.isBinary)
        decreases element.dataSize - i
      {
        var child, next, stop := NextChild(file, element, i);
        ghost var rest := if stop then [] else ChildrenFrom(file, element, next);
        StagFoldStep(file, element, child, rest, StagState(key, stag.value, stag.isBinary, stag.nested));
        key := SimpleTagChild(element, child, key, stag);
        if stop {
          break;
        }
        i := next;
      }
      if i >= element.dataSize {
        ChildrenEnd(file, element, i);
      }
      StagFoldEnd(file, element, StagState(key, stag.value, stag.isBinary, stag.nested));
      if key != "" {
        if tag != null {
          tag.AppendSimpleTag(key, stag.Snapshot());
        } else {
          simpletag.AppendNested(key, stag.Snapshot());
        }
      }
    }

    /** The switch of readSimpleTag for one child: a TagName sets the key, a
        TagString or TagBinary sets the flag and the value, and a nested
        SimpleTag is read into `stag`. */
    method SimpleTagChild(element: Element, child: Element, key: string, stag: SimpleTag) returns (key': string)
      requires HeaderDecoded(file, element) && child.offset > element.offset
      requires child.ebmlId == SimpleTagID ==> HeaderDecoded(file, child)
      modifies stag
      ensures StagState(key', stag.value, stag.isBinary, stag.nested) ==
              var st := StagState(key, old(stag.value), old(stag.isBinary), old(stag.nested));
              if child.ebmlId == SimpleTagID then st.(nested := AttachTo(st.nested, SimpleTagOf(file, child)))
              else StagField(file, st, child)
      decreases |file| - element.offset, 0
    {
      key' := key;
      if child.ebmlId == TagName {
        key' := ReadString(file, child);
      } else if child.ebmlId == TagString {
        stag.SetBinary(false);
        stag.SetValue(ReadBytes(file, child));
      } else if child.ebmlId == TagBinary {
        stag.SetBinary(true);
        stag.SetValue(ReadBytes(file, child));
      } else if child.ebmlId == SimpleTagID {
        ReadSimpleTag(child, null, stag);
      }
    }

    /** The loop of readTag: a Targets child sets the tag's target and a
        SimpleTag child is read into the tag's map. */
    method ReadTagChildren(element: Element, tag: Tag)
      modifies tag
      ensures Decodable(file, Children(file, element))
      ensures TagBuild(tag.Fields(), tag.simpleTags) ==
              TagFold(file, Children(file, element), TagBuild(old(tag.Fields()), old(tag.simpleTags)))
    {
      var i: nat := 0;
      WalkDecodable(file, element, 0);
      while i < element.dataSize
        invariant Decodable(file, ChildrenFrom(file, element, i))
        invariant TagFold(file, Children(file, element), TagBuild(old(tag.Fields()), old(tag.simpleTags))) ==
                  TagFold(file, ChildrenFrom(file, element, i), TagBuild(tag.Fields(), tag.simpleTags))
        decreases element.dataSize - i
      {
        var child, next, stop := NextChild(file, element, i);
        TagFoldCons(file, child, if stop then [] else ChildrenFrom(file, element, next), TagBuild(tag.Fields(), tag.simpleTags));
        if child.ebmlId == Targets {
          ReadTargets(child, tag);
        } else if child.ebmlId == SimpleTagID {
          ReadSimpleTag(child, tag, null);
        }
        if stop {
          TagFoldEnd(file, TagBuild(tag.Fields(), tag.simpleTags));
          return;
        }
        i := next;
      }
      ChildrenEnd(file, element, i);
      TagFoldEnd(file, TagBuild(tag.Fields(), tag.simpleTags));
    }

    /** readTag(element): a new tag of the collection is filled from the
        element's children, read, and appended to the collection. */
    method ReadTag(element: Element)
      modifies tags
      ensures Records(tags.items) == old(Records(tags.items)) + [TagRecordOf(file, toInt, element)]
    {
      var tag := BuildTag(element);
      AppendTag(tag);
    }

    /** `m_tags.append(tag)`. */
    method AppendTag(tag: Tag)
      modifies tags
      ensures tags.items == old(tags.items) + [tag]
      ensures Records(tags.items) == old(Records(tags.items)) + [old(RecordOf(tag))]
    {
      RecordsAppend(tags.items, tag);
      tags.items := tags.items + [tag];
    }

    /** `new Tag(m_tags)`, the loop of readTag, and `tag->read()`: the tag is
        not yet part of the collection, so reading it touches no other tag. */
    method BuildTag(element: Element) returns (tag: Tag)
      ensures fresh(tag) && tag.tags == tags
      ensures RecordOf(tag) == TagRecordOf(file, toInt, element)
    {
      tag := new Tag(tags, 0, NoUid);
      assert tag.Fields() == NewTagFields;
      ReadTagChildren(element, tag);
      ghost var b := TagBuild(tag.Fields(), tag.simpleTags);
      tag.Read(toInt);
      assert tag.Fields() == AfterRead(b.fields, b.simpleTags, toInt);
    }

    /** readTags(element): every Tag child is read in document order and its
        tag appended to the collection. */
    method ReadTags(element: Element)
      modifies tags
      ensures Records(tags.items) == old(Records(tags.items)) + TagRecordsOf(file, toInt, element)
    {
      var i: nat := 0;
      while i < element.dataSize
        invariant old(Records(tags.items)) + TagRecordsOf(file, toInt, element) ==
                  Records(tags.items) + TagRecordsIn(file, toInt, ChildrenFrom(file, element, i))
        decreases element.dataSize - i
      {
        var child, next, stop := NextChild(file, element, i);
        TagRecordsInCons(file, toInt, child, if stop then [] else ChildrenFrom(file, element, next));
        label Before:
        ReadTagsChild(child);
        Regroup(old(Records(tags.items)) + TagRecordsOf(file, toInt, element),
                old@Before(Records(tags.items)), Records(tags.items),
                if child.ebmlId == TagID then [TagRecordOf(file, toInt, child)] else [],
                TagRecordsIn(file, toInt, ChildrenFrom(file, element, i)),
                TagRecordsIn(file, toInt, if stop then [] else ChildrenFrom(file, element, next)));
        if stop {
          return;
        }
        i := next;
      }
      ChildrenEnd(file, element, i);
      TagRecordsInCons(file, toInt, element, []);
    }

    /** The switch of readTags for one child: a Tag child is read. */
    method ReadTagsChild(child: Element)
      modifies tags
      ensures Records(tags.items) == old(Records(tags.items)) +
                (if child.ebmlId == TagID then [TagRecordOf(file, toInt, child)] else [])
    {
      if child.ebmlId == TagID {
        ReadTag(child);
      }
    }
  }
}
