/** Matroska::SimpleTag: one SimpleTag element of a Tag: its value bytes, the
    binary flag and the SimpleTags nested under it, by name.

    SimpleTag derives from ByteVector and is stored BY VALUE in the vectors of a
    name map, so two forms appear here: the class SimpleTag, the object that
    readSimpleTag fills through its setters, and the datatype SimpleTagValue,
    the copy that `push_back` stores. `base` is the inherited ByteVector, which
    nothing in the reader ever writes. */
module SimpleTags {
  import opened Bytes

  datatype SimpleTagValue = SimpleTagValue(
    base: seq<byte>,
    value: seq<byte>,
    isBinary: bool,
    nested: map<string, seq<SimpleTagValue>>)

  /** A name -> list map as std::map<String, std::vector<SimpleTag>>. */
  type TagMap = map<string, seq<SimpleTagValue>>

  /** Reading `m[k]`: the list stored under k, or the empty list. */
  function Lookup(m: TagMap, k: string): seq<SimpleTagValue> {
    if k in m then m[k] else []
  }

  /** The map after `m[k]` has been evaluated: operator[] inserts an empty
      list for a missing key. */
  function Touch(m: TagMap, k: string): (r: TagMap)
    ensures k in r && r.Keys == m.Keys + {k}
  {
    if k in m then m else m[k := []]
  }

  /** The map after `m[k].push_back(t)`. */
  function Appended(m: TagMap, k: string, t: SimpleTagValue): (r: TagMap)
    ensures r.Keys == m.Keys + {k}
  {
    m[k := Lookup(m, k) + [t]]
  }

  /** Evaluating `m[k]` is invisible to every later lookup. */
  lemma TouchKeepsLookups(m: TagMap, k: string, j: string)
    ensures Lookup(Touch(m, k), j) == Lookup(m, j)
  {
  }

  /** push_back adds t at the end of k's list and changes no other list. */
  lemma AppendedLookups(m: TagMap, k: string, t: SimpleTagValue, j: string)
    ensures Lookup(Appended(m, k, t), j) == if j == k then Lookup(m, k) + [t] else Lookup(m, j)
    ensures |Lookup(Appended(m, k, t), k)| == |Lookup(m, k)| + 1
  {
  }

  /** Appends keep the insertion order of one key's values: the values
      appended to k in order are found in that order at the end of its list. */
  lemma {:induction false} AppendedInOrder(m: TagMap, k: string, ts: seq<SimpleTagValue>)
    ensures Lookup(AppendAll(m, k, ts), k) == Lookup(m, k) + ts
    decreases |ts|
  {
    if ts != [] {
      var m' := Appended(m, k, ts[0]);
      AppendedInOrder(m', k, ts[1..]);
      assert Lookup(m', k) == Lookup(m, k) + [ts[0]];
      assert [ts[0]] + ts[1..] == ts;
      assert Lookup(m, k) + [ts[0]] + ts[1..] == Lookup(m, k) + ts;
    }
  }

  function AppendAll(m: TagMap, k: string, ts: seq<SimpleTagValue>): TagMap
    decreases |ts|
  {
    if ts == [] then m else AppendAll(Appended(m, k, ts[0]), k, ts[1..])
  }

  class SimpleTag {
    const base: seq<byte>
    var value: seq<byte>
    var isBinary: bool
    var nested: TagMap

    /** SimpleTag(): a text tag with no value and nothing nested. */
    constructor()
      ensures base == [] && value == [] && !isBinary && nested == map[]
    {
      base := [];
      value := [];
      isBinary := false;
      nested := map[];
    }

    /** value(). */
    function Value(): seq<byte>
      reads this
    {
      value
    }

    /** setBinary changes the flag and nothing else. */
    method SetBinary(binary: bool)
      modifies this
      ensures isBinary == binary
      ensures value == old(value) && nested == old(nested)
    {
      isBinary := binary;
    }

    /** setValue: value() then returns exactly v; the flag and the nested map
        stay as they were. */
    method SetValue(v: seq<byte>)
      modifies this
      ensures Value() == v
      ensures isBinary == old(isBinary) && nested == old(nested)
    {
      value := v;
    }

    /** `simpleTags()[k].push_back(t)` through the returned reference: the
        append lands in this object's own map. */
    method AppendNested(k: string, t: SimpleTagValue)
      modifies this
      ensures nested == Appended(old(nested), k, t)
      ensures value == old(value) && isBinary == old(isBinary)
    {
      nested := nested[k := Lookup(nested, k) + [t]];
    }

    /** The copy that push_back stores. */
    function Snapshot(): (s: SimpleTagValue)
      reads this
      ensures s.value == value && s.isBinary == isBinary && s.nested == nested && s.base == base
    {
      SimpleTagValue(base, value, isBinary, nested)
    }
  }
}
