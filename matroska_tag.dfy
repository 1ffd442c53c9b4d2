/** Matroska::Tag: one Tag element of the file: its target type, the UIDs it
    applies to, its SimpleTags by name, and the display fields derived from
    them. Every Tag keeps a pointer to the file's shared, ordered collection of
    tags (TagList), in which getParent looks for the tag a lookup may defer to. */
module MatroskaTags {
  import opened Bytes
  import opened MatroskaTypes
  import opened SimpleTags

  /** UIDElement: the ID of a UID element (TagTrackUID, ...) and its value. */
  datatype UidElement = UidElement(kind: nat, value: nat)

  /** UIDElement(): the value-initialised pair. */
  const NoUid := UidElement(0, 0)

  /** makeTargetType: the enum member of each level on the TargetTypeValue
      scale, and 0 for every other raw value. */
  function MakeTargetType(raw: nat): (t: nat)
    ensures t != 0 <==> raw in {70, 60, 50, 40, 30, 20, 10}
    ensures t != 0 ==> t / 10 * 10 == raw
    ensures t == 0 || t in {COLLECTION, SEASON, MOVIE, PART, CHAPTER, SCENE, SHOT}
  {
    if raw == 70 then COLLECTION
    else if raw == 60 then SEASON
    else if raw == 50 then MOVIE
    else if raw == 40 then PART
    else if raw == 30 then CHAPTER
    else if raw == 20 then SCENE
    else if raw == 10 then SHOT
    else 0
  }

  /** std::find: the first index holding x. */
  function FirstIndex<T(==)>(s: seq<T>, x: T): (r: Option<nat>)
    ensures r.Some? ==> r.value < |s| && s[r.value] == x && x !in s[..r.value]
    ensures r.None? ==> x !in s
  {
    if s == [] then None
    else if s[0] == x then Some(0)
    else match FirstIndex(s[1..], x)
      case None => None
      case Some(k) => assert s[..k + 1] == [s[0]] + s[1..][..k]; Some(k + 1)
  }

  lemma FirstIndexAtMost<T>(s: seq<T>, j: nat)
    requires j < |s|
    ensures FirstIndex(s, s[j]).Some? && FirstIndex(s, s[j]).value <= j
  {
    var r := FirstIndex(s, s[j]);
    assert r.Some?;
  }

  /** Every UID of `own` is also in `candidate` (the nested loop of getParent). */
  predicate Covers(candidate: seq<UidElement>, own: seq<UidElement>) {
    forall u :: u in own ==> u in candidate
  }

  /** The backward scan of getParent from just before index i. */
  function SearchBack(uids: seq<seq<UidElement>>, own: seq<UidElement>, i: nat): (r: Option<nat>)
    requires i <= |uids|
    ensures r.Some? ==> r.value < i
  {
    if i == 0 then None
    else if Covers(uids[i - 1], own) then Some(i - 1)
    else SearchBack(uids, own, i - 1)
  }

  /** getParent over the UID lists of the collection: nothing when the tag is
      not in the collection (`pos` is None) or has no UIDs of its own, else the
      nearest earlier entry covering all of its UIDs. */
  function ParentIndex(uids: seq<seq<UidElement>>, pos: Option<nat>, own: seq<UidElement>): (r: Option<nat>)
    requires pos.Some? ==> pos.value < |uids|
    ensures r.Some? ==> pos.Some? && r.value < pos.value
  {
    if pos.None? || own == [] then None else SearchBack(uids, own, pos.value)
  }

  lemma {:induction false} SearchBackCharacterized(uids: seq<seq<UidElement>>, own: seq<UidElement>, i: nat)
    requires i <= |uids|
    ensures SearchBack(uids, own, i).Some? ==>
              var j := SearchBack(uids, own, i).value;
              Covers(uids[j], own) && forall k :: j < k < i ==> !Covers(uids[k], own)
    ensures SearchBack(uids, own, i).None? <==> forall k :: 0 <= k < i ==> !Covers(uids[k], own)
  {
    if i > 0 && !Covers(uids[i - 1], own) {
      SearchBackCharacterized(uids, own, i - 1);
    }
  }

  /** getParent returns the nearest preceding entry whose UID list contains
      all of this tag's UIDs, and nothing when the tag is absent, has no UIDs,
      or no earlier entry qualifies. */
  lemma ParentIndexCharacterized(uids: seq<seq<UidElement>>, pos: Option<nat>, own: seq<UidElement>)
    requires pos.Some? ==> pos.value < |uids|
    ensures ParentIndex(uids, pos, own).Some? ==>
              var j := ParentIndex(uids, pos, own).value;
              own != [] && j < pos.value && Covers(uids[j], own) &&
              forall k :: j < k < pos.value ==> !Covers(uids[k], own)
    ensures ParentIndex(uids, pos, own).None? <==>
              pos.None? || own == [] || forall k :: 0 <= k < pos.value ==> !Covers(uids[k], own)
  {
    if pos.Some? && own != [] {
      SearchBackCharacterized(uids, own, pos.value);
    }
  }

  /** The end of the chain of parents that starts at entry j. */
  function Outermost(items: seq<Tag>, uids: seq<seq<UidElement>>, j: nat): (r: nat)
    requires |uids| == |items| && j < |items|
    ensures r <= j
    decreases j
  {
    FirstIndexAtMost(items, j);
    match ParentIndex(uids, FirstIndex(items, items[j]), uids[j])
    case None => j
    case Some(p) => Outermost(items, uids, p)
  }

  lemma OutermostStep(items: seq<Tag>, uids: seq<seq<UidElement>>, j: nat)
    requires |uids| == |items| && j < |items|
    ensures FirstIndex(items, items[j]).Some? && FirstIndex(items, items[j]).value <= j
    ensures var up := ParentIndex(uids, FirstIndex(items, items[j]), uids[j]);
            Outermost(items, uids, j) == if up.None? then j else Outermost(items, uids, up.value)
  {
    FirstIndexAtMost(items, j);
  }

  /** The list get(key) ends up with: its own list, unless that is non-empty,
      `recursive` is set and the tag has a parent; then the list of the
      outermost ancestor (possibly empty). */
  function Resolved(items: seq<Tag>, uids: seq<seq<UidElement>>, maps: seq<TagMap>, pos: Option<nat>,
                    own: seq<UidElement>, ownList: seq<SimpleTagValue>, key: string, recursive: bool): seq<SimpleTagValue>
    requires |uids| == |items| == |maps| && (pos.Some? ==> pos.value < |items|)
  {
    if ownList != [] && recursive then
      match ParentIndex(uids, pos, own)
      case None => ownList
      case Some(p) => Lookup(maps[Outermost(items, uids, p)], key)
    else ownList
  }

  /** String(ByteVector) of a SimpleTag's value. */
  function Text(t: SimpleTagValue): string {
    Decode(t.value)
  }

  /** The values of a nested list separated by "; ". */
  function Join(list: seq<SimpleTagValue>): string
  {
    if list == [] then ""
    else if |list| == 1 then Text(list[0])
    else Join(list[..|list| - 1]) + "; " + Text(list[|list| - 1])
  }

  /** Join of two or more values: the first value, then "; " and the join of the rest. */
  lemma {:induction false} JoinFront(list: seq<SimpleTagValue>)
    requires |list| >= 2
    ensures Join(list) == Text(list[0]) + "; " + Join(list[1..])
    decreases |list|
  {
    var n := |list|;
    if n == 2 {
      assert list[..1] == [list[0]];
      assert list[1..] == [list[1]];
    } else {
      var init := list[..n - 1];
      JoinFront(init);
      assert init[1..] == list[1..][..n - 2];
      assert list[1..][n - 2] == list[n - 1];
    }
  }

  /** The string get(key, subkey) produces for one SimpleTag: "" without
      nested tags; for a single nested value the conversion of that SimpleTag's
      own ByteVector base; otherwise the joined nested values. */
  function NestedString(t: SimpleTagValue, subkey: string): string {
    if t.nested == map[] then ""
    else
      var list := Lookup(t.nested, subkey);
      if |list| == 1 then Decode(list[0].base) else Join(list)
  }

  /** SimpleTags whose base was never written (all that the reader creates) give
      "" for a single nested value, whatever that value holds. */
  lemma SingleNestedIsEmpty(t: SimpleTagValue, subkey: string)
    requires t.nested != map[] && |Lookup(t.nested, subkey)| == 1 && Lookup(t.nested, subkey)[0].base == []
    ensures NestedString(t, subkey) == ""
  {
  }

  /** The list get() renders. */
  function Rendered(mtags: seq<SimpleTagValue>, subkey: string): (r: seq<string>)
    ensures |r| == |mtags|
  {
    seq(|mtags|, i requires 0 <= i < |mtags| => if subkey != "" then NestedString(mtags[i], subkey) else Text(mtags[i]))
  }

  /** The own list after the subkey pass: `simpleTags()[subkey]` inserts an
      empty nested entry in every element with a non-empty nested map. */
  function TouchNested(mtags: seq<SimpleTagValue>, subkey: string): (r: seq<SimpleTagValue>)
    ensures |r| == |mtags|
  {
    seq(|mtags|, i requires 0 <= i < |mtags| =>
      if mtags[i].nested != map[] then mtags[i].(nested := Touch(mtags[i].nested, subkey)) else mtags[i])
  }

  /** The first string of a list, or "" (getString). */
  function FirstOr(list: seq<string>): string {
    if list == [] then "" else list[0]
  }

  /** The string a lookup without subkey yields from a list: its first value. */
  function FirstText(list: seq<SimpleTagValue>): string {
    if list == [] then "" else Text(list[0])
  }

  /** The first string of get(key) without a subkey is the first value. */
  lemma FirstOrRendered(list: seq<SimpleTagValue>)
    ensures FirstOr(Rendered(list, "")) == FirstText(list)
  {
  }

  /** An int converted to unsigned int. */
  function ToUnsigned(x: int): (r: nat)
    ensures r < TWO32 && (0 <= x < TWO32 ==> r == x)
  {
    x % TWO32
  }

  /** A second assignment to the same key replaces the first. */
  lemma UpdateTwice(m: TagMap, k: string, a: seq<SimpleTagValue>, b: seq<SimpleTagValue>)
    ensures m[k := a][k := b] == m[k := b]
  {
  }

  /** Evaluating `m[k]` a second time changes nothing. */
  lemma TouchTwice(m: TagMap, k: string)
    ensures Touch(Touch(m, k), k) == Touch(m, k)
  {
  }

  /** The SimpleTag map after read(): read() looks up TITLE, GENRE, ARTIST and
      PART_NUMBER, and each lookup inserts its key; no list changes. */
  function TouchedByRead(m: TagMap): (r: TagMap)
    ensures r.Keys == m.Keys + {"TITLE", "GENRE", "ARTIST", "PART_NUMBER"}
    ensures forall k :: Lookup(r, k) == Lookup(m, k)
  {
    TouchKeepsLookupsAll(m, "TITLE");
    TouchKeepsLookupsAll(Touch(m, "TITLE"), "GENRE");
    TouchKeepsLookupsAll(Touch(Touch(m, "TITLE"), "GENRE"), "ARTIST");
    TouchKeepsLookupsAll(Touch(Touch(Touch(m, "TITLE"), "GENRE"), "ARTIST"), "PART_NUMBER");
    Touch(Touch(Touch(Touch(m, "TITLE"), "GENRE"), "ARTIST"), "PART_NUMBER")
  }

  lemma TouchKeepsLookupsAll(m: TagMap, key: string)
    ensures forall k :: Lookup(Touch(m, key), k) == Lookup(m, k)
  {
    forall k ensures Lookup(Touch(m, key), k) == Lookup(m, k) {
      TouchKeepsLookups(m, key, k);
    }
  }

  /** m_tags: the collection shared by the file and all its tags. */
  class TagList {
    var items: seq<Tag>

    constructor()
      ensures items == []
    {
      items := [];
    }
  }

  /** The fields of a tag other than its SimpleTag map. */
  datatype TagFields = TagFields(elements: seq<UidElement>, targetType: nat,
                                 album: string, title: string, genre: string, artist: string, index: nat)

  /** The UID lists and the maps of a sequence of tags. */
  function UidsOf(items: seq<Tag>): (u: seq<seq<UidElement>>)
    reads items
    ensures |u| == |items| && forall k :: 0 <= k < |items| ==> u[k] == items[k].elements
  {
    seq(|items|, k requires 0 <= k < |items| reads items => items[k].elements)
  }

  function MapsOf(items: seq<Tag>): (m: seq<TagMap>)
    reads items
    ensures |m| == |items| && forall k :: 0 <= k < |items| ==> m[k] == items[k].simpleTags
  {
    seq(|items|, k requires 0 <= k < |items| reads items => items[k].simpleTags)
  }

  function TypesOf(items: seq<Tag>): (t: seq<nat>)
    reads items
    ensures |t| == |items| && forall k :: 0 <= k < |items| ==> t[k] == items[k].targetType
  {
    seq(|items|, k requires 0 <= k < |items| reads items => items[k].targetType)
  }

  /** The last index of a tag with target type t: get(TargetType). */
  function LastOfType(types: seq<nat>, t: nat): (r: Option<nat>)
    ensures r.Some? ==> r.value < |types|
  {
    if types == [] then None
    else if types[|types| - 1] == t then Some(|types| - 1)
    else LastOfType(types[..|types| - 1], t)
  }

  /** get(TargetType) answers the LAST tag of that type, despite the
      "first match" comment, and nothing when no tag has it. */
  lemma {:induction false} LastOfTypeCharacterized(types: seq<nat>, t: nat)
    ensures LastOfType(types, t).Some? ==>
              var k := LastOfType(types, t).value;
              types[k] == t && forall j :: k < j < |types| ==> types[j] != t
    ensures LastOfType(types, t).None? <==> t !in types
    decreases |types|
  {
    if types != [] && types[|types| - 1] != t {
      var init := types[..|types| - 1];
      LastOfTypeCharacterized(init, t);
      assert types == init + [types[|types| - 1]];
    }
  }

  class Tag {
    const tags: TagList
    var elements: seq<UidElement>
    var simpleTags: TagMap
    var targetType: nat
    var album: string
    var title: string
    var genre: string
    var artist: string
    var index: nat

    /** Tag(tags, targetTypeValue = 0, id = UIDElement()): type DEFAULT unless a
        non-zero one is given, at most the one given UID, empty fields. */
    constructor(tags: TagList, targetTypeValue: nat, id: UidElement)
      ensures this.tags == tags
      ensures targetType == (if targetTypeValue != 0 then targetTypeValue else DEFAULT)
      ensures elements == (if id != NoUid then [id] else [])
      ensures simpleTags == map[]
      ensures album == "" && title == "" && genre == "" && artist == "" && index == 0
    {
      this.tags := tags;
      elements := [];
      simpleTags := map[];
      targetType := DEFAULT;
      album, title, genre, artist := "", "", "", "";
      index := 0;
      new;
      if targetTypeValue != 0 {
        targetType := targetTypeValue;
      }
      if id != NoUid {
        elements := [id];
      }
    }

    function Fields(): TagFields
      reads this
    {
      TagFields(elements, targetType, album, title, genre, artist, index)
    }

    /** comment() and year() are stubs. */
    function Comment(): (s: string) ensures s == "" { "" }
    function Year(): (y: nat) ensures y == 0 { 0 }

    /** The setters each replace one field and change nothing else;
        setComment and setYear do nothing. */
    method SetTitle(v: string)
      modifies this
      ensures Fields() == old(Fields()).(title := v) && simpleTags == old(simpleTags)
    {
      title := v;
    }

    method SetArtist(v: string)
      modifies this
      ensures Fields() == old(Fields()).(artist := v) && simpleTags == old(simpleTags)
    {
      artist := v;
    }

    method SetAlbum(v: string)
      modifies this
      ensures Fields() == old(Fields()).(album := v) && simpleTags == old(simpleTags)
    {
      album := v;
    }

    method SetGenre(v: string)
      modifies this
      ensures Fields() == old(Fields()).(genre := v) && simpleTags == old(simpleTags)
    {
      genre := v;
    }

    method SetTrack(v: nat)
      modifies this
      ensures Fields() == old(Fields()).(index := v) && simpleTags == old(simpleTags)
    {
      index := v;
    }

    method SetTargetType(v: nat)
      modifies this
      ensures Fields() == old(Fields()).(targetType := v) && simpleTags == old(simpleTags)
    {
      targetType := v;
    }

    method SetElements(v: seq<UidElement>)
      modifies this
      ensures Fields() == old(Fields()).(elements := v) && simpleTags == old(simpleTags)
    {
      elements := v;
    }

    method SetComment(v: string)
      ensures Fields() == old(Fields()) && simpleTags == old(simpleTags)
    {
    }

    method SetYear(v: nat)
      ensures Fields() == old(Fields()) && simpleTags == old(simpleTags)
    {
    }

    /** The simpleTags() reference: `simpleTags()[key].push_back(t)`. */
    method AppendSimpleTag(key: string, t: SimpleTagValue)
      modifies this
      ensures simpleTags == Appended(old(simpleTags), key, t) && Fields() == old(Fields())
    {
      simpleTags := simpleTags[key := Lookup(simpleTags, key) + [t]];
    }

    /** getParent: the nearest earlier tag of the collection covering this
        tag's UIDs (ParentIndexCharacterized), as an index. */
    function ParentIdx(): (r: Option<nat>)
      reads this, tags, tags.items
      ensures r.Some? ==> r.value < |tags.items|
      ensures r.Some? ==> FirstIndex(tags.items, this).Some? && r.value < FirstIndex(tags.items, this).value
    {
      ParentIndex(UidsOf(tags.items), FirstIndex(tags.items, this), elements)
    }

    /** The list get(key, ., recursive) renders, in the current state. */
    function Resolve(key: string, recursive: bool): seq<SimpleTagValue>
      reads this, tags, tags.items
    {
      Resolved(tags.items, UidsOf(tags.items), MapsOf(tags.items), FirstIndex(tags.items, this),
               elements, Lookup(simpleTags, key), key, recursive)
    }

    /** get(key, subkey, recursive). `m_simpleTags[key]` inserts the key; when
        the own list is non-empty and `recursive` is set, each ancestor's list
        is copied in turn into the own entry (inserting the key into the
        ancestor's map too), so the own entry ends as the outermost ancestor's
        list. With a subkey, every element with nested tags gets the subkey
        inserted into its nested map. */
    method Get(key: string, subkey: string, recursive: bool) returns (ret: seq<string>)
      modifies this, if this in tags.items then tags.items else []
      ensures ret == Rendered(old(Resolve(key, recursive)), subkey)
      ensures simpleTags == old(simpleTags)[key :=
                if subkey != "" && old(Resolve(key, recursive)) != [] then TouchNested(old(Resolve(key, recursive)), subkey)
                else old(Resolve(key, recursive))]
      ensures Fields() == old(Fields())
      ensures forall t :: t in tags.items && t != this ==>
                t.Fields() == old(t.Fields()) &&
                (t.simpleTags == old(t.simpleTags) || t.simpleTags == Touch(old(t.simpleTags), key))
      ensures old(ParentIdx()).None? ==> forall t :: t in tags.items && t != this ==> t.simpleTags == old(t.simpleTags)
      ensures UidsOf(tags.items) == old(UidsOf(tags.items)) && ParentIdx() == old(ParentIdx())
    {
      var mtags := ResolveOwnList(key, recursive);
      ret := RenderList(key, subkey);
      UpdateTwice(old(simpleTags), key, mtags, simpleTags[key]);
      forall k | 0 <= k < |tags.items|
        ensures UidsOf(tags.items)[k] == old(UidsOf(tags.items))[k]
      {
        assert tags.items[k] in tags.items;
      }
    }

    /** The first half of get(): `m_simpleTags[key]`, then the copies from the
        ancestors. The own entry ends as the resolved list. */
    method ResolveOwnList(key: string, recursive: bool) returns (mtags: seq<SimpleTagValue>)
      modifies this, if this in tags.items then tags.items else []
      ensures mtags == old(Resolve(key, recursive))
      ensures simpleTags == old(simpleTags)[key := mtags]
      ensures Fields() == old(Fields())
      ensures forall t :: t in tags.items && t != this ==>
                t.Fields() == old(t.Fields()) &&
                (t.simpleTags == old(t.simpleTags) || t.simpleTags == Touch(old(t.simpleTags), key))
      ensures old(ParentIdx()).None? ==> forall t :: t in tags.items && t != this ==> t.simpleTags == old(t.simpleTags)
    {
      var uids := UidsOf(tags.items);
      var p := ParentIdx();
      ghost var maps := MapsOf(tags.items);
      mtags := Lookup(simpleTags, key);
      simpleTags := simpleTags[key := mtags];
      if mtags != [] && recursive && p.Some? {
        ghost var ownList := mtags;
        ghost var q := Outermost(tags.items, uids, p.value);
        assert tags.items[q].simpleTags == maps[q];
        mtags := ClimbAbove(key, uids, p.value);
        UpdateTwice(old(simpleTags), key, ownList, mtags);
      }
    }

    /** The climb of get() from the parent at index `start`, which comes
        before this tag in the collection. */
    method ClimbAbove(key: string, uids: seq<seq<UidElement>>, start: nat) returns (mtags: seq<SimpleTagValue>)
      requires uids == UidsOf(tags.items)
      requires FirstIndex(tags.items, this).Some? && start < FirstIndex(tags.items, this).value
      requires key in simpleTags
      modifies this, tags.items
      ensures mtags == Lookup(old(tags.items[Outermost(tags.items, uids, start)].simpleTags), key)
      ensures simpleTags == old(simpleTags)[key := mtags] && Fields() == old(Fields())
      ensures forall t :: t in tags.items && t != this ==>
                t.Fields() == old(t.Fields()) &&
                (t.simpleTags == old(t.simpleTags) || t.simpleTags == Touch(old(t.simpleTags), key))
    {
      ghost var pos := FirstIndex(tags.items, this).value;
      forall k | 0 <= k <= start
        ensures tags.items[k] != this
      {
        assert tags.items[..pos][k] == tags.items[k];
      }
      mtags := Climb(key, uids, start);
    }

    /** The loop `while ((tag = tag->getParent()))` of get(), from the parent
        at index `start`: each step copies the ancestor's list into the own
        entry, so the entry ends as the list of the end of the chain. */
    method Climb(key: string, uids: seq<seq<UidElement>>, start: nat) returns (mtags: seq<SimpleTagValue>)
      requires uids == UidsOf(tags.items) && start < |tags.items|
      requires forall k :: 0 <= k <= start ==> tags.items[k] != this
      requires key in simpleTags
      modifies this, tags.items
      ensures mtags == Lookup(old(tags.items[Outermost(tags.items, uids, start)].simpleTags), key)
      ensures simpleTags == old(simpleTags)[key := mtags] && Fields() == old(Fields())
      ensures forall t :: t in tags.items && t != this ==>
                t.Fields() == old(t.Fields()) &&
                (t.simpleTags == old(t.simpleTags) || t.simpleTags == Touch(old(t.simpleTags), key))
    {
      ghost var items := tags.items;
      ghost var last := Outermost(items, uids, start);
      ghost var found := Lookup(items[last].simpleTags, key);
      var p: Option<nat> := Some(start);
      mtags := simpleTags[key];
      while p.Some?
        invariant tags.items == items
        invariant p.Some? ==> p.value <= start && Outermost(items, uids, p.value) == last
        invariant p.None? ==> mtags == found
        invariant simpleTags == old(simpleTags)[key := mtags] && Fields() == old(Fields())
        invariant forall t :: t in items && t != this ==>
                    t.Fields() == old(t.Fields()) &&
                    (t.simpleTags == old(t.simpleTags) || t.simpleTags == Touch(old(t.simpleTags), key))
        decreases if p.Some? then p.value + 1 else 0
      {
        var j := p.value;
        var tag := tags.items[j];
        ghost var prevList := mtags;
        label Copying:
        mtags := CopyFrom(tag, key);
        UpdateTwice(old(simpleTags), key, prevList, mtags);
        forall t | t in items && t != this
          ensures t.Fields() == old(t.Fields())
          ensures t.simpleTags == old(t.simpleTags) || t.simpleTags == Touch(old(t.simpleTags), key)
        {
          if t == tag {
            ghost var m0, prev := old(t.simpleTags), old@Copying(t.simpleTags);
            assert prev == m0 || prev == Touch(m0, key);
            TouchTwice(m0, key);
          }
        }
        assert mtags == Lookup(old(tag.simpleTags), key) by {
          ghost var m0, prev := old(tag.simpleTags), old@Copying(tag.simpleTags);
          assert prev == m0 || prev == Touch(m0, key);
          TouchKeepsLookups(m0, key, key);
        }
        assert tag.Fields() == old(tag.Fields());
        assert old(tag.elements) == uids[j];
        p := ParentIndex(uids, FirstIndex(tags.items, tag), tag.elements);
        OutermostStep(items, uids, j);
      }
    }

    /** One step of the walk up: `mtags = tag->d->m_simpleTags[key]`, which
        inserts the key into the ancestor's map and copies its list into this
        tag's own entry. */
    method CopyFrom(tag: Tag, key: string) returns (list: seq<SimpleTagValue>)
      requires tag != this
      modifies this, tag
      ensures list == Lookup(old(tag.simpleTags), key)
      ensures tag.simpleTags == Touch(old(tag.simpleTags), key) && tag.Fields() == old(tag.Fields())
      ensures simpleTags == old(simpleTags)[key := list] && Fields() == old(Fields())
    {
      tag.simpleTags := Touch(tag.simpleTags, key);
      list := Lookup(tag.simpleTags, key);
      simpleTags := simpleTags[key := list];
    }

    /** The second half of get(), over the own entry `mtags` of the key: with a
        subkey, the nested strings (inserting the subkey into each non-empty
        nested map as it goes); without, the values. */
    method RenderList(key: string, subkey: string) returns (ret: seq<string>)
      requires key in simpleTags
      modifies this
      ensures ret == Rendered(old(simpleTags[key]), subkey)
      ensures simpleTags == old(simpleTags)[key :=
                if subkey != "" && old(simpleTags[key]) != [] then TouchNested(old(simpleTags[key]), subkey)
                else old(simpleTags[key])]
      ensures Fields() == old(Fields())
    {
      var mtags := simpleTags[key];
      ret := seq(|mtags|, _ => "");
      if subkey != "" && mtags != [] {
        var i := 0;
        ghost var touched := TouchNested(mtags, subkey);
        var entry := mtags;
        while i < |mtags|
          invariant 0 <= i <= |mtags| && |ret| == |mtags| && |entry| == |mtags|
          invariant forall k :: 0 <= k < i ==> ret[k] == Rendered(mtags, subkey)[k] && entry[k] == touched[k]
          invariant forall k :: i <= k < |mtags| ==> entry[k] == mtags[k]
          invariant simpleTags == old(simpleTags)[key := entry]
          invariant Fields() == old(Fields())
        {
          var stag := entry[i];
          var str := "";
          if stag.nested != map[] {
            var list := Lookup(stag.nested, subkey);
            stag := stag.(nested := Touch(stag.nested, subkey));
            if |list| == 1 {
              str := Decode(list[0].base);
            } else {
              str := JoinValues(list);
            }
          }
          ret := ret[i := str];
          entry := entry[i := stag];
          simpleTags := simpleTags[key := entry];
          i := i + 1;
        }
        assert entry == touched;
      } else {
        var i := 0;
        while i < |mtags|
          invariant 0 <= i <= |mtags| && |ret| == |mtags|
          invariant forall k :: 0 <= k < i ==> ret[k] == Rendered(mtags, subkey)[k]
        {
          ret := ret[i := Text(mtags[i])];
          i := i + 1;
        }
      }
    }

    /** getString(key, subkey, recursive): the first string of get(), or "". */
    method GetString(key: string, subkey: string, recursive: bool) returns (s: string)
      modifies this, if this in tags.items then tags.items else []
      ensures s == FirstOr(Rendered(old(Resolve(key, recursive)), subkey))
      ensures Fields() == old(Fields())
      ensures forall t :: t in tags.items && t != this ==> t.Fields() == old(t.Fields())
      ensures old(ParentIdx()).None? ==> forall t :: t in tags.items && t != this ==> t.simpleTags == old(t.simpleTags)
      ensures old(ParentIdx()).None? && subkey == "" ==> simpleTags == Touch(old(simpleTags), key)
      ensures old(ParentIdx()).None? && subkey == "" ==> s == FirstText(old(Lookup(simpleTags, key)))
      ensures ParentIdx() == old(ParentIdx())
    {
      var list := Get(key, subkey, recursive);
      s := "";
      if |list| > 0 {
        s := list[0];
      }
    }

    /** readTagAlbum: a COLLECTION tag takes a non-empty TITLE as its album. */
    method ReadTagAlbum()
      modifies this, if this in tags.items then tags.items else []
      ensures Fields() == old(Fields()).(album := album)
      ensures var ret := FirstOr(Rendered(old(Resolve("TITLE", true)), ""));
        album == if old(targetType) == COLLECTION && ret != "" then ret else old(album)
      ensures this !in tags.items ==> Fields() == old(Fields()).(album := if old(targetType) == COLLECTION && FirstText(Lookup(old(simpleTags), "TITLE")) != "" then FirstText(Lookup(old(simpleTags), "TITLE")) else old(album))
      ensures forall t :: t in tags.items && t != this ==> t.Fields() == old(t.Fields())
      ensures this !in tags.items ==>
                simpleTags == if old(targetType) == COLLECTION then Touch(old(simpleTags), "TITLE") else old(simpleTags)
    {
      if targetType != COLLECTION {
        return;
      }
      ghost var resolved := Resolve("TITLE", true);
      var ret := GetString("TITLE", "", true);
      FirstOrRendered(resolved);
      if ret != "" {
        album := ret;
      }
    }

    /** readTagTitle: a non-empty TITLE becomes the title. */
    method ReadTagTitle()
      modifies this, if this in tags.items then tags.items else []
      ensures Fields() == old(Fields()).(title := title)
      ensures var ret := FirstOr(Rendered(old(Resolve("TITLE", true)), ""));
        title == if ret != "" then ret else old(title)
      ensures this !in tags.items ==> Fields() == old(Fields()).(title := if FirstText(Lookup(old(simpleTags), "TITLE")) != "" then FirstText(Lookup(old(simpleTags), "TITLE")) else old(title))
      ensures forall t :: t in tags.items && t != this ==> t.Fields() == old(t.Fields())
      ensures this !in tags.items ==> simpleTags == Touch(old(simpleTags), "TITLE")
    {
      ghost var resolved := Resolve("TITLE", true);
      var ret := GetString("TITLE", "", true);
      FirstOrRendered(resolved);
      if ret != "" {
        title := ret;
      }
    }

    /** readGenre: a non-empty GENRE becomes the genre. */
    method ReadGenre()
      modifies this, if this in tags.items then tags.items else []
      ensures Fields() == old(Fields()).(genre := genre)
      ensures var ret := FirstOr(Rendered(old(Resolve("GENRE", true)), ""));
        genre == if ret != "" then ret else old(genre)
      ensures this !in tags.items ==> Fields() == old(Fields()).(genre := if FirstText(Lookup(old(simpleTags), "GENRE")) != "" then FirstText(Lookup(old(simpleTags), "GENRE")) else old(genre))
      ensures forall t :: t in tags.items && t != this ==> t.Fields() == old(t.Fields())
      ensures this !in tags.items ==> simpleTags == Touch(old(simpleTags), "GENRE")
    {
      ghost var resolved := Resolve("GENRE", true);
      var ret := GetString("GENRE", "", true);
      FirstOrRendered(resolved);
      if ret != "" {
        genre := ret;
      }
    }

    /** readArtist: a non-empty ARTIST becomes the artist. */
    method ReadArtist()
      modifies this, if this in tags.items then tags.items else []
      ensures Fields() == old(Fields()).(artist := artist)
      ensures var ret := FirstOr(Rendered(old(Resolve("ARTIST", true)), ""));
        artist == if ret != "" then ret else old(artist)
      ensures this !in tags.items ==> Fields() == old(Fields()).(artist := if FirstText(Lookup(old(simpleTags), "ARTIST")) != "" then FirstText(Lookup(old(simpleTags), "ARTIST")) else old(artist))
      ensures forall t :: t in tags.items && t != this ==> t.Fields() == old(t.Fields())
      ensures this !in tags.items ==> simpleTags == Touch(old(simpleTags), "ARTIST")
    {
      ghost var resolved := Resolve("ARTIST", true);
      var ret := GetString("ARTIST", "", true);
      FirstOrRendered(resolved);
      if ret != "" {
        artist := ret;
      }
    }

    /** readTrack: a non-empty PART_NUMBER, converted by String::toInt
        (`toInt`) and then to unsigned int, becomes the track number. */
    method ReadTrack(toInt: string -> int)
      modifies this, if this in tags.items then tags.items else []
      ensures Fields() == old(Fields()).(index := index)
      ensures var ret := FirstOr(Rendered(old(Resolve("PART_NUMBER", true)), ""));
        index == if ret != "" then ToUnsigned(toInt(ret)) else old(index)
      ensures this !in tags.items ==> Fields() == old(Fields()).(index := if FirstText(Lookup(old(simpleTags), "PART_NUMBER")) != "" then ToUnsigned(toInt(FirstText(Lookup(old(simpleTags), "PART_NUMBER")))) else old(index))
      ensures forall t :: t in tags.items && t != this ==> t.Fields() == old(t.Fields())
      ensures this !in tags.items ==> simpleTags == Touch(old(simpleTags), "PART_NUMBER")
    {
      ghost var resolved := Resolve("PART_NUMBER", true);
      var ret := GetString("PART_NUMBER", "", true);
      FirstOrRendered(resolved);
      if ret != "" {
        index := ToUnsigned(toInt(ret));
      }
    }

    /** read(): the five display fields from the SimpleTags. For a tag without
        a place in the collection yet (every tag the file reader builds, since
        it reads a tag before adding it) each field is the first value of its
        key when that is non-empty; the album only for a COLLECTION tag. */
    method Read(toInt: string -> int)
      modifies this, if this in tags.items then tags.items else []
      ensures elements == old(elements) && targetType == old(targetType)
      ensures forall t :: t in tags.items && t != this ==> t.Fields() == old(t.Fields())
      ensures this !in tags.items ==> simpleTags == TouchedByRead(old(simpleTags))
      ensures this !in tags.items ==>
                var titleText := FirstText(Lookup(old(simpleTags), "TITLE"));
                album == (if targetType == COLLECTION && titleText != "" then titleText else old(album)) &&
                title == (if titleText != "" then titleText else old(title))
      ensures this !in tags.items ==>
                var genreText := FirstText(Lookup(old(simpleTags), "GENRE"));
                genre == (if genreText != "" then genreText else old(genre))
      ensures this !in tags.items ==>
                var artistText := FirstText(Lookup(old(simpleTags), "ARTIST"));
                artist == (if artistText != "" then artistText else old(artist))
      ensures this !in tags.items ==>
                var part := FirstText(Lookup(old(simpleTags), "PART_NUMBER"));
                index == (if part != "" then ToUnsigned(toInt(part)) else old(index))
    {
      ghost var m0 := simpleTags;
      ReadTitleFields();
      ReadOtherFields(toInt);
      if this !in tags.items {
        TouchKeepsLookups(m0, "TITLE", "GENRE");
        TouchKeepsLookups(m0, "TITLE", "ARTIST");
        TouchKeepsLookups(m0, "TITLE", "PART_NUMBER");
      }
    }

    /** The first two calls of read(): readTagAlbum, then readTagTitle. */
    method ReadTitleFields()
      modifies this, if this in tags.items then tags.items else []
      ensures elements == old(elements) && targetType == old(targetType)
      ensures genre == old(genre) && artist == old(artist) && index == old(index)
      ensures forall t :: t in tags.items && t != this ==> t.Fields() == old(t.Fields())
      ensures this !in tags.items ==> simpleTags == Touch(old(simpleTags), "TITLE")
      ensures this !in tags.items ==>
                var titleText := FirstText(Lookup(old(simpleTags), "TITLE"));
                album == (if targetType == COLLECTION && titleText != "" then titleText else old(album)) &&
                title == (if titleText != "" then titleText else old(title))
    {
      if this in tags.items {
        ReadTagAlbum();
        ReadTagTitle();
      } else {
        ghost var m0 := simpleTags;
        ReadTagAlbum();
        if targetType == COLLECTION {
          TouchTwice(m0, "TITLE");
          TouchKeepsLookups(m0, "TITLE", "TITLE");
        }
        ReadTagTitle();
      }
    }

    /** The last three calls of read(): readGenre, readArtist, readTrack. */
    method ReadOtherFields(toInt: string -> int)
      modifies this, if this in tags.items then tags.items else []
      ensures elements == old(elements) && targetType == old(targetType)
      ensures album == old(album) && title == old(title)
      ensures forall t :: t in tags.items && t != this ==> t.Fields() == old(t.Fields())
      ensures this !in tags.items ==>
                simpleTags == Touch(Touch(Touch(old(simpleTags), "GENRE"), "ARTIST"), "PART_NUMBER")
      ensures this !in tags.items ==>
                var genreText := FirstText(Lookup(old(simpleTags), "GENRE"));
                genre == (if genreText != "" then genreText else old(genre))
      ensures this !in tags.items ==>
                var artistText := FirstText(Lookup(old(simpleTags), "ARTIST"));
                artist == (if artistText != "" then artistText else old(artist))
      ensures this !in tags.items ==>
                var part := FirstText(Lookup(old(simpleTags), "PART_NUMBER"));
                index == (if part != "" then ToUnsigned(toInt(part)) else old(index))
    {
      ghost var m0 := simpleTags;
      ReadGenre();
      ReadArtistTrack(toInt);
      if this !in tags.items {
        TouchKeepsLookups(m0, "GENRE", "ARTIST");
        TouchKeepsLookups(m0, "GENRE", "PART_NUMBER");
      }
    }

    /** The last two calls of read(): readArtist, readTrack. */
    method ReadArtistTrack(toInt: string -> int)
      modifies this, if this in tags.items then tags.items else []
      ensures elements == old(elements) && targetType == old(targetType)
      ensures album == old(album) && title == old(title) && genre == old(genre)
      ensures forall t :: t in tags.items && t != this ==> t.Fields() == old(t.Fields())
      ensures this !in tags.items ==> simpleTags == Touch(Touch(old(simpleTags), "ARTIST"), "PART_NUMBER")
      ensures this !in tags.items ==>
                var artistText := FirstText(Lookup(old(simpleTags), "ARTIST"));
                artist == (if artistText != "" then artistText else old(artist))
      ensures this !in tags.items ==>
                var part := FirstText(Lookup(old(simpleTags), "PART_NUMBER"));
                index == (if part != "" then ToUnsigned(toInt(part)) else old(index))
    {
      ghost var m1 := simpleTags;
      ReadArtist();
      ReadTrack(toInt);
      if this !in tags.items {
        TouchKeepsLookups(m1, "ARTIST", "PART_NUMBER");
      }
    }

    /** get(TargetType): the last tag of the collection with that target type,
        or null. */
    method FindByType(targetType: nat) returns (r: Tag?)
      ensures r == (match LastOfType(TypesOf(tags.items), targetType)
                    case None => null
                    case Some(k) => tags.items[k])
    {
      r := null;
      var i := 0;
      while i < |tags.items|
        invariant 0 <= i <= |tags.items|
        invariant r == (match LastOfType(TypesOf(tags.items)[..i], targetType)
                        case None => null
                        case Some(k) => tags.items[k])
      {
        assert TypesOf(tags.items)[..i + 1][..i] == TypesOf(tags.items)[..i];
        if targetType == tags.items[i].targetType {
          r := tags.items[i];
        }
        i := i + 1;
      }
      assert TypesOf(tags.items)[..i] == TypesOf(tags.items);
    }
  }

  /** The "; " loop of get(): str += value, then "; " unless it was the last one. */
  method JoinValues(list: seq<SimpleTagValue>) returns (str: string)
    ensures str == Join(list)
  {
    str := "";
    var i := 0;
    while i < |list|
      invariant 0 <= i <= |list|
      invariant str == Join(list[..i]) + (if 0 < i < |list| then "; " else "")
    {
      assert list[..i + 1][..i] == list[..i];
      str := str + Text(list[i]);
      if i != |list| - 1 {
        str := str + "; ";
      }
      i := i + 1;
    }
    assert list[..|list|] == list;
  }
}
