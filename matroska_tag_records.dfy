/** What the tag readers of Matroska::File build from the file image, as
    values: the SimpleTag a SimpleTag element yields (readSimpleTag), the target
    of a Targets element (readTargets), the finished tag of a Tag element
    (readTag followed by Tag::read), the tags of a Tags element (readTags), and
    the merge of a collection into the unified tag (makeUnifiedTag). The file
    reader's methods are proved against these functions. */
module MatroskaTagRecords {
  import opened Bytes
  import opened MatroskaTypes
  import opened EbmlReader
  import opened EbmlWalk
  import opened MatroskaSegment
  import opened SimpleTags
  import opened MatroskaTags

  /** A reader whose header was decoded: its children start after its own offset. */
  predicate HeaderDecoded(file: seq<byte>, e: Element) {
    e.offset + 2 <= e.dataOffset && e.offset + 1 < |file|
  }

  /** A child reader with a non-zero ID, from a walk, has a decoded header. */
  lemma DecodedChild(file: seq<byte>, cs: seq<Element>, k: nat)
    requires Decodable(file, cs) && k < |cs|
    ensures cs[k].ebmlId != 0 ==> HeaderDecoded(file, cs[k])
  {
  }

  // ---------------------------------------------------------------------------
  // readSimpleTag

  /** The locals of readSimpleTag: the key and the SimpleTag `stag`. */
  datatype StagState = StagState(key: string, value: seq<byte>, isBinary: bool, nested: TagMap)

  /** An empty key and `SimpleTag stag;`. */
  const StagStart := StagState("", [], false, map[])

  /** The copy of `stag` that push_back stores. */
  function StagValue(s: StagState): SimpleTagValue {
    SimpleTagValue([], s.value, s.isBinary, s.nested)
  }

  /** The end of readSimpleTag: `entry.push_back(stag)` into the owner's map,
      only for a non-empty key. */
  function AttachTo(m: TagMap, s: StagState): (r: TagMap)
    ensures s.key == "" ==> r == m
    ensures s.key != "" ==> r == Appended(m, s.key, StagValue(s))
  {
    if s.key != "" then Appended(m, s.key, StagValue(s)) else m
  }

  /** The cases of readSimpleTag's switch other than a nested SimpleTag. */
  function StagField(file: seq<byte>, st: StagState, c: Element): StagState {
    if c.ebmlId == TagName then st.(key := ReadString(file, c))
    else if c.ebmlId == TagString then st.(isBinary := false, value := ReadBytes(file, c))
    else if c.ebmlId == TagBinary then st.(isBinary := true, value := ReadBytes(file, c))
    else st
  }

  /** readSimpleTag(e, ...): the key and the SimpleTag built from e's children. */
  function SimpleTagOf(file: seq<byte>, e: Element): StagState
    requires HeaderDecoded(file, e)
    decreases |file| - e.offset, 1
  {
    WalkDecodable(file, e, 0);
    StagFold(file, e, Children(file, e), StagStart)
  }

  /** The loop of readSimpleTag over the children `cs` of `owner`. A nested
      SimpleTag is read by the recursive call and attached to `stag`. */
  function StagFold(file: seq<byte>, owner: Element, cs: seq<Element>, st: StagState): StagState
    requires HeaderDecoded(file, owner) && Decodable(file, cs)
    requires forall k :: 0 <= k < |cs| ==> cs[k].offset > owner.offset
    decreases |file| - owner.offset, 0, |cs|
  {
    if cs == [] then st
    else
      var c := cs[0];
      var st' := if c.ebmlId == SimpleTagID then st.(nested := AttachTo(st.nested, SimpleTagOf(file, c)))
                 else StagField(file, st, c);
      StagFold(file, owner, cs[1..], st')
  }

  /** The last child among `cs` with ID `id`, searched from the end. */
  function LastWithId(cs: seq<Element>, id: nat): (r: Option<nat>)
    ensures r.Some? ==> r.value < |cs| && cs[r.value].ebmlId == id
    ensures r.Some? ==> forall j :: r.value < j < |cs| ==> cs[j].ebmlId != id
    ensures r.None? ==> forall j :: 0 <= j < |cs| ==> cs[j].ebmlId != id
  {
    if cs == [] then None
    else if cs[|cs| - 1].ebmlId == id then Some(|cs| - 1)
    else LastWithId(cs[..|cs| - 1], id)
  }

  /** The last TagString or TagBinary child, searched from the end. */
  function LastPayload(cs: seq<Element>): (r: Option<nat>)
    ensures r.Some? ==> r.value < |cs| && cs[r.value].ebmlId in {TagString, TagBinary}
    ensures r.Some? ==> forall j :: r.value < j < |cs| ==> cs[j].ebmlId !in {TagString, TagBinary}
    ensures r.None? ==> forall j :: 0 <= j < |cs| ==> cs[j].ebmlId !in {TagString, TagBinary}
  {
    if cs == [] then None
    else if cs[|cs| - 1].ebmlId in {TagString, TagBinary} then Some(|cs| - 1)
    else LastPayload(cs[..|cs| - 1])
  }

  lemma StagFoldCons(file: seq<byte>, owner: Element, cs: seq<Element>, st: StagState)
    requires HeaderDecoded(file, owner) && Decodable(file, cs) && cs != []
    requires forall k :: 0 <= k < |cs| ==> cs[k].offset > owner.offset
    ensures cs[0].ebmlId != SimpleTagID ==>
              StagFold(file, owner, cs, st) == StagFold(file, owner, cs[1..], StagField(file, st, cs[0]))
  {
  }

  /** One child changes the key only when it is a TagName. */
  lemma StagFoldOne(file: seq<byte>, owner: Element, c: Element, st: StagState)
    requires HeaderDecoded(file, owner) && Decodable(file, [c]) && c.offset > owner.offset
    ensures StagFold(file, owner, [c], st).key == if c.ebmlId == TagName then ReadString(file, c) else st.key
    ensures var r := StagFold(file, owner, [c], st);
      (r.value, r.isBinary) == if c.ebmlId in {TagString, TagBinary} then (ReadBytes(file, c), c.ebmlId == TagBinary) else (st.value, st.isBinary)
  {
    assert [c][1..] == [];
  }

  /** The last TagName sets the key: later names overwrite earlier ones. */
  lemma {:induction false} LastNameWins(file: seq<byte>, owner: Element, cs: seq<Element>, st: StagState)
    requires HeaderDecoded(file, owner) && Decodable(file, cs)
    requires forall k :: 0 <= k < |cs| ==> cs[k].offset > owner.offset
    ensures StagFold(file, owner, cs, st).key ==
              (match LastWithId(cs, TagName) case None => st.key case Some(k) => ReadString(file, cs[k]))
    decreases |cs|
  {
    if cs != [] {
      var init := cs[..|cs| - 1];
      var last := cs[|cs| - 1];
      assert init + [last] == cs;
      StagFoldSnoc(file, owner, init, last, st);
      StagFoldOne(file, owner, last, StagFold(file, owner, init, st));
      LastNameWins(file, owner, init, st);
      assert forall k :: 0 <= k < |init| ==> init[k] == cs[k];
    }
  }

  /** The last TagString or TagBinary sets the value and the binary flag. */
  lemma {:induction false} LastPayloadWins(file: seq<byte>, owner: Element, cs: seq<Element>, st: StagState)
    requires HeaderDecoded(file, owner) && Decodable(file, cs)
    requires forall k :: 0 <= k < |cs| ==> cs[k].offset > owner.offset
    ensures var r := StagFold(file, owner, cs, st);
      (r.value, r.isBinary) == (match LastPayload(cs)
                                case None => (st.value, st.isBinary)
                                case Some(k) => (ReadBytes(file, cs[k]), cs[k].ebmlId == TagBinary))
    decreases |cs|
  {
    if cs != [] {
      var init := cs[..|cs| - 1];
      var last := cs[|cs| - 1];
      assert init + [last] == cs;
      StagFoldSnoc(file, owner, init, last, st);
      StagFoldOne(file, owner, last, StagFold(file, owner, init, st));
      LastPayloadWins(file, owner, init, st);
      assert forall k :: 0 <= k < |init| ==> init[k] == cs[k];
    }
  }

  /** The fold over `cs + [c]` is one more step after the fold over `cs`. */
  lemma {:induction false} StagFoldSnoc(file: seq<byte>, owner: Element, cs: seq<Element>, c: Element, st: StagState)
    requires HeaderDecoded(file, owner) && Decodable(file, cs + [c])
    requires forall k :: 0 <= k < |cs + [c]| ==> (cs + [c])[k].offset > owner.offset
    ensures Decodable(file, cs) && forall k :: 0 <= k < |cs| ==> cs[k].offset > owner.offset
    ensures Decodable(file, [c]) && c.offset > owner.offset
    ensures StagFold(file, owner, cs + [c], st) == StagFold(file, owner, [c], StagFold(file, owner, cs, st))
    decreases |cs|
  {
    assert forall k :: 0 <= k < |cs| ==> (cs + [c])[k] == cs[k];
    assert (cs + [c])[|cs|] == c;
    if cs != [] {
      assert (cs + [c])[1..] == cs[1..] + [c];
      var st' := if cs[0].ebmlId == SimpleTagID then st.(nested := AttachTo(st.nested, SimpleTagOf(file, cs[0])))
                 else StagField(file, st, cs[0]);
      StagFoldSnoc(file, owner, cs[1..], c, st');
    }
  }

  /** One step of readSimpleTag's loop: the first child is applied, the rest
      of the walk continues from there. */
  lemma StagFoldStep(file: seq<byte>, owner: Element, c: Element, rest: seq<Element>, st: StagState)
    requires HeaderDecoded(file, owner) && Decodable(file, [c] + rest)
    requires forall k :: 0 <= k < |[c] + rest| ==> ([c] + rest)[k].offset > owner.offset
    ensures Decodable(file, rest) && forall k :: 0 <= k < |rest| ==> rest[k].offset > owner.offset
    ensures c.ebmlId == SimpleTagID ==> HeaderDecoded(file, c)
    ensures StagFold(file, owner, [c] + rest, st) ==
            StagFold(file, owner, rest, if c.ebmlId == SimpleTagID then st.(nested := AttachTo(st.nested, SimpleTagOf(file, c)))
                                        else StagField(file, st, c))
  {
    assert ([c] + rest)[0] == c && ([c] + rest)[1..] == rest;
    assert forall k :: 0 <= k < |rest| ==> rest[k] == ([c] + rest)[k + 1];
    DecodedChild(file, [c] + rest, 0);
  }

  /** At the end of the walk the locals are final. */
  lemma StagFoldEnd(file: seq<byte>, owner: Element, st: StagState)
    requires HeaderDecoded(file, owner)
    ensures StagFold(file, owner, [], st) == st
  {
  }

  /** The nested SimpleTags attached under key k, in document order. */
  function NestedUnder(file: seq<byte>, owner: Element, cs: seq<Element>, k: string): seq<SimpleTagValue>
    requires HeaderDecoded(file, owner) && Decodable(file, cs)
    requires forall j :: 0 <= j < |cs| ==> cs[j].offset > owner.offset
    decreases |cs|
  {
    if cs == [] then []
    else
      var rest := NestedUnder(file, owner, cs[1..], k);
      if cs[0].ebmlId == SimpleTagID && SimpleTagOf(file, cs[0]).key == k && k != "" then
        [StagValue(SimpleTagOf(file, cs[0]))] + rest
      else rest
  }

  /** Every nested SimpleTag with a non-empty name is appended to its name's
      list, in document order, and nothing else changes the nested map. */
  lemma {:induction false} NestedInOrder(file: seq<byte>, owner: Element, cs: seq<Element>, st: StagState, k: string)
    requires HeaderDecoded(file, owner) && Decodable(file, cs)
    requires forall j :: 0 <= j < |cs| ==> cs[j].offset > owner.offset
    ensures Lookup(StagFold(file, owner, cs, st).nested, k) == Lookup(st.nested, k) + NestedUnder(file, owner, cs, k)
    decreases |cs|
  {
    if cs != [] {
      var c := cs[0];
      var st' := if c.ebmlId == SimpleTagID then st.(nested := AttachTo(st.nested, SimpleTagOf(file, c)))
                 else StagField(file, st, c);
      NestedInOrder(file, owner, cs[1..], st', k);
      if c.ebmlId == SimpleTagID {
        var n := SimpleTagOf(file, c);
        if n.key != "" {
          AppendedLookups(st.nested, n.key, StagValue(n), k);
        }
      }
    }
  }

  // ---------------------------------------------------------------------------
  // readTargets

  /** The locals of readTargets: targetTypeValue and the UID list. */
  datatype TargetsAcc = TargetsAcc(typeValue: nat, uids: seq<UidElement>)

  /** One case of readTargets' switch; TargetTypeID is read but unused. The
      TargetTypeValue is cast from ulong to unsigned int, keeping its low 32
      bits. */
  function TargetsStep(file: seq<byte>, acc: TargetsAcc, c: Element): TargetsAcc {
    if c.ebmlId == TargetTypeValue then acc.(typeValue := ReadUInt(file, c) % TWO32)
    else if IsUidKind(c.ebmlId) && ReadUInt(file, c) != 0 then acc.(uids := acc.uids + [UidElement(c.ebmlId, ReadUInt(file, c))])
    else acc
  }

  function TargetsFold(file: seq<byte>, cs: seq<Element>, acc: TargetsAcc): TargetsAcc
    decreases |cs|
  {
    if cs == [] then acc else TargetsFold(file, cs[1..], TargetsStep(file, acc, cs[0]))
  }

  /** The locals at the end of readTargets. */
  function TargetsOf(file: seq<byte>, e: Element): TargetsAcc {
    TargetsFold(file, Children(file, e), TargetsAcc(0, []))
  }

  /** The two updates that end readTargets: a non-zero raw type is converted,
      and the UID list is replaced only by a non-empty one. */
  function ApplyTargets(f: TagFields, acc: TargetsAcc): (r: TagFields)
    ensures r.(targetType := f.targetType, elements := f.elements) == f
    ensures r.targetType == (if acc.typeValue != 0 then MakeTargetType(acc.typeValue) else f.targetType)
    ensures acc.uids == [] ==> r.elements == f.elements
    ensures acc.uids != [] ==> r.elements == acc.uids
  {
    f.(targetType := if acc.typeValue != 0 then MakeTargetType(acc.typeValue) else f.targetType,
       elements := if acc.uids != [] then acc.uids else f.elements)
  }

  /** The UID list readTargets builds holds only UID elements with non-zero
      values, and the raw type is the low 32 bits of the last TargetTypeValue. */
  lemma {:induction false} TargetsCollected(file: seq<byte>, cs: seq<Element>, acc: TargetsAcc)
    requires forall u :: u in acc.uids ==> u.value != 0 && IsUidKind(u.kind)
    ensures var r := TargetsFold(file, cs, acc);
      |acc.uids| <= |r.uids| && r.uids[..|acc.uids|] == acc.uids &&
      forall u :: u in r.uids ==> u.value != 0 && IsUidKind(u.kind)
    ensures TargetsFold(file, cs, acc).typeValue ==
              (match LastWithId(cs, TargetTypeValue) case None => acc.typeValue case Some(k) => ReadUInt(file, cs[k]) % TWO32)
    decreases |cs|
  {
    if cs != [] {
      var init := cs[..|cs| - 1];
      var last := cs[|cs| - 1];
      TargetsCollected(file, init, acc);
      TargetsFoldSnoc(file, init, last, acc);
      assert init + [last] == cs;
      var mid := TargetsFold(file, init, acc);
      var r := TargetsFold(file, cs, acc);
      assert r == TargetsStep(file, mid, last);
      assert r.uids[..|mid.uids|] == mid.uids;
      assert r.uids[..|acc.uids|] == mid.uids[..|acc.uids|];
    }
  }

  lemma {:induction false} TargetsFoldSnoc(file: seq<byte>, cs: seq<Element>, c: Element, acc: TargetsAcc)
    ensures TargetsFold(file, cs + [c], acc) == TargetsStep(file, TargetsFold(file, cs, acc), c)
    decreases |cs|
  {
    if cs == [] {
      assert ([c])[1..] == [];
    } else {
      assert (cs + [c])[1..] == cs[1..] + [c];
      TargetsFoldSnoc(file, cs[1..], c, TargetsStep(file, acc, cs[0]));
    }
  }

  /** One step of readTargets' loop. */
  lemma TargetsFoldCons(file: seq<byte>, c: Element, rest: seq<Element>, acc: TargetsAcc)
    ensures TargetsFold(file, [c] + rest, acc) == TargetsFold(file, rest, TargetsStep(file, acc, c))
    ensures TargetsFold(file, [], acc) == acc
  {
    assert ([c] + rest)[1..] == rest;
  }

  /** A UID element with value 0 ("apply to all") leaves the list as it was. */
  lemma ZeroUidDropped(file: seq<byte>, acc: TargetsAcc, c: Element)
    requires IsUidKind(c.ebmlId) && ReadUInt(file, c) == 0
    ensures TargetsStep(file, acc, c) == acc
  {
  }

  // ---------------------------------------------------------------------------
  // readTag and Tag::read

  /** A tag as the collection holds it: its fields and its SimpleTag map. */
  datatype TagRecord = TagRecord(fields: TagFields, simpleTags: TagMap)

  /** The fields of `new Tag(m_tags)`. */
  const NewTagFields := TagFields([], DEFAULT, "", "", "", "", 0)

  /** Tag::read() on a tag outside the collection: each display field takes
      the first value of its key when that is non-empty, the album only for a
      COLLECTION tag (Tag.Read). */
  function AfterRead(f: TagFields, m: TagMap, toInt: string -> int): TagFields {
    var titleText := FirstText(Lookup(m, "TITLE"));
    var genreText := FirstText(Lookup(m, "GENRE"));
    var artistText := FirstText(Lookup(m, "ARTIST"));
    var part := FirstText(Lookup(m, "PART_NUMBER"));
    f.(album := if f.targetType == COLLECTION && titleText != "" then titleText else f.album,
       title := if titleText != "" then titleText else f.title,
       genre := if genreText != "" then genreText else f.genre,
       artist := if artistText != "" then artistText else f.artist,
       index := if part != "" then ToUnsigned(toInt(part)) else f.index)
  }

  /** read() a second time changes nothing: its lookups see the same lists. */
  lemma ReadIdempotent(f: TagFields, m: TagMap, toInt: string -> int)
    ensures AfterRead(AfterRead(f, m, toInt), TouchedByRead(m), toInt) == AfterRead(f, m, toInt)
    ensures TouchedByRead(TouchedByRead(m)) == TouchedByRead(m)
  {
    TouchTwice(m, "TITLE");
  }

  /** Reading a tag with no SimpleTags changes no field. */
  lemma ReadOfEmpty(f: TagFields, toInt: string -> int)
    ensures AfterRead(f, map[], toInt) == f
  {
  }

  /** What readTag has built before `tag->read()`. */
  datatype TagBuild = TagBuild(fields: TagFields, simpleTags: TagMap)

  /** One case of readTag's switch: a Targets child sets the target, a
      SimpleTag child is read into the tag's map. */
  function TagStep(file: seq<byte>, b: TagBuild, c: Element): TagBuild
    requires c.ebmlId == SimpleTagID ==> HeaderDecoded(file, c)
  {
    if c.ebmlId == Targets then b.(fields := ApplyTargets(b.fields, TargetsOf(file, c)))
    else if c.ebmlId == SimpleTagID then b.(simpleTags := AttachTo(b.simpleTags, SimpleTagOf(file, c)))
    else b
  }

  function TagFold(file: seq<byte>, cs: seq<Element>, b: TagBuild): TagBuild
    requires Decodable(file, cs)
    decreases |cs|
  {
    if cs == [] then b
    else
      DecodedChild(file, cs, 0);
      TagFold(file, cs[1..], TagStep(file, b, cs[0]))
  }

  /** One step of readTag's loop. */
  lemma TagFoldCons(file: seq<byte>, c: Element, rest: seq<Element>, b: TagBuild)
    requires Decodable(file, [c] + rest)
    ensures Decodable(file, rest)
    ensures c.ebmlId == SimpleTagID ==> HeaderDecoded(file, c)
    ensures TagFold(file, [c] + rest, b) == TagFold(file, rest, TagStep(file, b, c))
  {
    assert ([c] + rest)[0] == c && ([c] + rest)[1..] == rest;
    assert forall k :: 0 <= k < |rest| ==> rest[k] == ([c] + rest)[k + 1];
    DecodedChild(file, [c] + rest, 0);
  }

  /** At the end of the walk the tag is built. */
  lemma TagFoldEnd(file: seq<byte>, b: TagBuild)
    ensures TagFold(file, [], b) == b
  {
  }

  /** readTag(e): the tag it pushes, after `tag->read()`. */
  function TagRecordOf(file: seq<byte>, toInt: string -> int, e: Element): TagRecord {
    WalkDecodable(file, e, 0);
    var b := TagFold(file, Children(file, e), TagBuild(NewTagFields, map[]));
    TagRecord(AfterRead(b.fields, b.simpleTags, toInt), TouchedByRead(b.simpleTags))
  }

  // ---------------------------------------------------------------------------
  // readTags

  /** The TagID children among `cs`, in order. */
  function TagChildren(cs: seq<Element>): (ts: seq<Element>)
    ensures forall k :: 0 <= k < |ts| ==> ts[k].ebmlId == TagID && ts[k] in cs
    ensures |ts| <= |cs|
    decreases |cs|
  {
    if cs == [] then []
    else if cs[0].ebmlId == TagID then [cs[0]] + TagChildren(cs[1..])
    else TagChildren(cs[1..])
  }

  /** The tags of the Tag elements among `cs`, in order. */
  function TagRecordsIn(file: seq<byte>, toInt: string -> int, cs: seq<Element>): (rs: seq<TagRecord>)
    decreases |cs|
  {
    if cs == [] then []
    else (if cs[0].ebmlId == TagID then [TagRecordOf(file, toInt, cs[0])] else []) + TagRecordsIn(file, toInt, cs[1..])
  }

  /** readTags(e): the tags of e's Tag children, in document order. */
  function TagRecordsOf(file: seq<byte>, toInt: string -> int, e: Element): (rs: seq<TagRecord>)
  {
    TagRecordsIn(file, toInt, Children(file, e))
  }

  /** There is one tag per Tag child. */
  lemma {:induction false} TagRecordsCount(file: seq<byte>, toInt: string -> int, cs: seq<Element>)
    ensures |TagRecordsIn(file, toInt, cs)| == |TagChildren(cs)|
    decreases |cs|
  {
    if cs != [] {
      TagRecordsCount(file, toInt, cs[1..]);
    }
  }

  /** One step of readTags' loop: a Tag child contributes its tag, any other
      child nothing. */
  lemma TagRecordsInCons(file: seq<byte>, toInt: string -> int, c: Element, rest: seq<Element>)
    ensures TagRecordsIn(file, toInt, [c] + rest) ==
            (if c.ebmlId == TagID then [TagRecordOf(file, toInt, c)] else []) + TagRecordsIn(file, toInt, rest)
    ensures TagRecordsIn(file, toInt, []) == []
  {
    assert ([c] + rest)[0] == c && ([c] + rest)[1..] == rest;
  }

  // ---------------------------------------------------------------------------
  // makeUnifiedTag

  /** One step of makeUnifiedTag over a tag's fields. */
  function UnifyStep(u: TagFields, f: TagFields): TagFields {
    if f.targetType == COLLECTION then
      u.(album := f.album, genre := if u.genre == "" then f.genre else u.genre)
    else if f.targetType == MOVIE then
      u.(index := if u.index == 0 then f.index else u.index,
         artist := if u.artist == "" then f.artist else u.artist,
         title := if u.title == "" then f.title else u.title,
         genre := if u.genre == "" then f.genre else u.genre)
    else u
  }

  function UnifyAll(u: TagFields, fs: seq<TagFields>): TagFields
    decreases |fs|
  {
    if fs == [] then u else UnifyAll(UnifyStep(u, fs[0]), fs[1..])
  }

  function FieldsOf(rs: seq<TagRecord>): (fs: seq<TagFields>)
    ensures |fs| == |rs| && forall k :: 0 <= k < |rs| ==> fs[k] == rs[k].fields
  {
    seq(|rs|, k requires 0 <= k < |rs| => rs[k].fields)
  }

  /** The unified tag after makeUnifiedTag over the collection `rs`. */
  function UnifiedRecord(rs: seq<TagRecord>, toInt: string -> int): TagRecord {
    TagRecord(UnifyAll(AfterRead(NewTagFields, map[], toInt), FieldsOf(rs)), TouchedByRead(map[]))
  }

  /** Independent reference definitions: the first non-empty string `proj`
      gives among the tags of the given types, and the first non-zero track of a
      MOVIE tag. */
  function FirstNonEmpty(fs: seq<TagFields>, kinds: set<nat>, proj: TagFields -> string): string
    decreases |fs|
  {
    if fs == [] then ""
    else if fs[0].targetType in kinds && proj(fs[0]) != "" then proj(fs[0])
    else FirstNonEmpty(fs[1..], kinds, proj)
  }

  function FirstTrack(fs: seq<TagFields>): nat
    decreases |fs|
  {
    if fs == [] then 0
    else if fs[0].targetType == MOVIE && fs[0].index != 0 then fs[0].index
    else FirstTrack(fs[1..])
  }

  function TypesOfFields(fs: seq<TagFields>): (ts: seq<nat>)
    ensures |ts| == |fs| && forall k :: 0 <= k < |fs| ==> ts[k] == fs[k].targetType
  {
    seq(|fs|, k requires 0 <= k < |fs| => fs[k].targetType)
  }

  /** makeUnifiedTag's merge. A COLLECTION tag always overwrites the album,
      so the unified album is that of the LAST COLLECTION tag, even an empty
      one. */
  lemma {:induction false} UnifiedAlbum(u: TagFields, fs: seq<TagFields>)
    ensures UnifyAll(u, fs).album ==
              (match LastOfType(TypesOfFields(fs), COLLECTION) case None => u.album case Some(k) => fs[k].album)
    decreases |fs|
  {
    if fs != [] {
      var init := fs[..|fs| - 1];
      var last := fs[|fs| - 1];
      UnifiedAlbum(u, init);
      UnifyAllSnoc(u, init, last);
      assert init + [last] == fs;
      var ts := TypesOfFields(fs);
      assert ts[..|fs| - 1] == TypesOfFields(init);
      if last.targetType == COLLECTION {
        assert LastOfType(ts, COLLECTION) == Some(|fs| - 1);
      } else {
        assert LastOfType(ts, COLLECTION) == LastOfType(TypesOfFields(init), COLLECTION);
      }
    }
  }

  /** Title and artist are the first non-empty ones of a MOVIE tag, only when
      the unified tag had none. */
  lemma {:induction false} UnifiedTitle(u: TagFields, fs: seq<TagFields>)
    ensures UnifyAll(u, fs).title == if u.title != "" then u.title else FirstNonEmpty(fs, {MOVIE}, (f: TagFields) => f.title)
    decreases |fs|
  {
    if fs != [] {
      UnifiedTitle(UnifyStep(u, fs[0]), fs[1..]);
    }
  }

  lemma {:induction false} UnifiedArtist(u: TagFields, fs: seq<TagFields>)
    ensures UnifyAll(u, fs).artist == if u.artist != "" then u.artist else FirstNonEmpty(fs, {MOVIE}, (f: TagFields) => f.artist)
    decreases |fs|
  {
    if fs != [] {
      UnifiedArtist(UnifyStep(u, fs[0]), fs[1..]);
    }
  }

  /** The genre is the first non-empty one of a COLLECTION or MOVIE tag. */
  lemma {:induction false} UnifiedGenre(u: TagFields, fs: seq<TagFields>)
    ensures UnifyAll(u, fs).genre == if u.genre != "" then u.genre else FirstNonEmpty(fs, {COLLECTION, MOVIE}, (f: TagFields) => f.genre)
    decreases |fs|
  {
    if fs != [] {
      UnifiedGenre(UnifyStep(u, fs[0]), fs[1..]);
    }
  }

  /** The track is the first non-zero one of a MOVIE tag. */
  lemma {:induction false} UnifiedTrack(u: TagFields, fs: seq<TagFields>)
    ensures UnifyAll(u, fs).index == if u.index != 0 then u.index else FirstTrack(fs)
    decreases |fs|
  {
    if fs != [] {
      UnifiedTrack(UnifyStep(u, fs[0]), fs[1..]);
    }
  }

  /** The merge never touches the UIDs or the target type of the unified tag,
      and tags of other target types contribute nothing. */
  lemma {:induction false} UnifiedKeeps(u: TagFields, fs: seq<TagFields>)
    ensures UnifyAll(u, fs).elements == u.elements && UnifyAll(u, fs).targetType == u.targetType
    ensures (forall k :: 0 <= k < |fs| ==> fs[k].targetType !in {COLLECTION, MOVIE}) ==> UnifyAll(u, fs) == u
    decreases |fs|
  {
    if fs != [] {
      UnifiedKeeps(UnifyStep(u, fs[0]), fs[1..]);
      assert forall k :: 0 <= k < |fs| - 1 ==> fs[1..][k] == fs[k + 1];
    }
  }

  lemma {:induction false} UnifyAllSnoc(u: TagFields, fs: seq<TagFields>, f: TagFields)
    ensures UnifyAll(u, fs + [f]) == UnifyStep(UnifyAll(u, fs), f)
    decreases |fs|
  {
    if fs == [] {
      assert ([f])[1..] == [];
    } else {
      assert (fs + [f])[1..] == fs[1..] + [f];
      UnifyAllSnoc(UnifyStep(u, fs[0]), fs[1..], f);
    }
  }
}
