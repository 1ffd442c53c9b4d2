/** Matroska::Properties: the duration read from the SegmentInfo children.
    Duration (a float in the file) and TimeCodeScale arrive as separate
    children in either order; each arrival recomputes the length when the
    other has already been seen. */
module MatroskaProperties {
  import opened Bytes
  import opened MatroskaTypes
  import opened EbmlReader
  import opened EbmlWalk

  /** `d->duration * (d->timeScale / 1000000)`: the int operand is converted to
      unsigned int and the product is reduced modulo 2^32. */
  function LengthOf(duration: int, timeScale: nat): (n: nat)
    ensures n < TWO32
    ensures timeScale < 1000000 ==> n == 0
    ensures 0 <= duration && duration * (timeScale / 1000000) < TWO32 ==> n == duration * (timeScale / 1000000)
  {
    var q := timeScale / 1000000;
    ProductBelow(duration, q);
    ((duration % TWO32) * q) % TWO32
  }

  /** A product that fits in 32 bits is unchanged by the reductions. */
  lemma ProductBelow(d: int, q: nat)
    ensures 0 <= d && d * q < TWO32 ==> ((d % TWO32) * q) % TWO32 == d * q
  {
    if 0 <= d && d * q < TWO32 && q > 0 {
      assert d <= d * q;
      assert d % TWO32 == d;
    }
  }

  /** The three private fields. */
  datatype Timing = Timing(duration: int, timeScale: nat, length: nat)

  /** What one child contributes: a Duration value (already converted to an
      integer), a TimeCodeScale value, or nothing. */
  datatype Event = DurationEvent(d: int) | ScaleEvent(ts: nat) | Ignored

  /** The event of one child. readDouble and the double-to-int conversion are
      outside the model: `durationOf` stands for them. */
  function EventOf(file: seq<byte>, durationOf: seq<byte> -> int, c: Element): Event {
    if c.ebmlId == Duration then DurationEvent(durationOf(ReadBytes(file, c)))
    else if c.ebmlId == TimeCodeScale then ScaleEvent(ReadUInt(file, c))
    else Ignored
  }

  /** One case of the switch in read(). */
  function Apply(t: Timing, ev: Event): (r: Timing)
    ensures ev.Ignored? ==> r == t
    ensures ev.DurationEvent? ==>
              r.duration == ev.d && r.timeScale == t.timeScale &&
              r.length == (if t.timeScale > 0 then LengthOf(ev.d, t.timeScale) else t.length)
    ensures ev.ScaleEvent? ==>
              r.timeScale == ev.ts && r.duration == t.duration &&
              r.length == (if t.duration > 0 then LengthOf(t.duration, ev.ts) else t.length)
  {
    match ev
    case DurationEvent(d) => t.(duration := d, length := if t.timeScale > 0 then LengthOf(d, t.timeScale) else t.length)
    case ScaleEvent(ts) => t.(timeScale := ts, length := if t.duration > 0 then LengthOf(t.duration, ts) else t.length)
    case Ignored => t
  }

  /** The events of a sequence of children, in document order. */
  function Events(file: seq<byte>, durationOf: seq<byte> -> int, cs: seq<Element>): (evs: seq<Event>)
    ensures |evs| == |cs|
  {
    seq(|cs|, k requires 0 <= k < |cs| => EventOf(file, durationOf, cs[k]))
  }

  /** The fields after applying the events in order. */
  function ApplyAll(t: Timing, evs: seq<Event>): Timing
    decreases |evs|
  {
    if evs == [] then t else ApplyAll(Apply(t, evs[0]), evs[1..])
  }

  lemma ApplyAllCons(t: Timing, ev: Event, evs: seq<Event>)
    ensures ApplyAll(t, [ev] + evs) == ApplyAll(Apply(t, ev), evs)
  {
    assert ([ev] + evs)[1..] == evs;
  }

  lemma EventsCons(file: seq<byte>, durationOf: seq<byte> -> int, c: Element, cs: seq<Element>)
    ensures Events(file, durationOf, [c] + cs) == [EventOf(file, durationOf, c)] + Events(file, durationOf, cs)
  {
    assert ([c] + cs)[1..] == cs;
  }

  class Properties {
    var duration: int
    var timeScale: nat
    var lengthMs: nat

    function State(): Timing
      reads this
    {
      Timing(duration, timeScale, lengthMs)
    }

    /** Properties(data): all fields 0, then read(data). */
    constructor(file: seq<byte>, data: Element, durationOf: seq<byte> -> int)
      ensures State() == ApplyAll(Timing(0, 0, 0), Events(file, durationOf, Children(file, data)))
    {
      duration, timeScale, lengthMs := 0, 0, 0;
      new;
      Read(file, data, durationOf);
    }

    /** read(data): walk the children of the SegmentInfo element, applying the
        Duration and TimeCodeScale cases. */
    method Read(file: seq<byte>, data: Element, durationOf: seq<byte> -> int)
      modifies this
      ensures State() == ApplyAll(old(State()), Events(file, durationOf, Children(file, data)))
    {
      ghost var spec := ApplyAll(State(), Events(file, durationOf, Children(file, data)));
      var i: nat := 0;
      while i < data.dataSize
        invariant spec == ApplyAll(State(), Events(file, durationOf, ChildrenFrom(file, data, i)))
        decreases data.dataSize - i
      {
        var child, next, stop := NextChild(file, data, i);
        EventsCons(file, durationOf, child, if stop then [] else ChildrenFrom(file, data, next));
        ApplyAllCons(State(), EventOf(file, durationOf, child), Events(file, durationOf, if stop then [] else ChildrenFrom(file, data, next)));
        ReadChild(file, durationOf, child);
        if stop {
          assert Events(file, durationOf, []) == [];
          return;
        }
        i := next;
      }
      ChildrenEnd(file, data, i);
    }

    /** The switch of read() for one child. */
    method ReadChild(file: seq<byte>, durationOf: seq<byte> -> int, child: Element)
      modifies this
      ensures State() == Apply(old(State()), EventOf(file, durationOf, child))
    {
      if child.ebmlId == Duration {
        duration := durationOf(ReadBytes(file, child));
        if timeScale > 0 {
          lengthMs := LengthOf(duration, timeScale);
        }
      } else if child.ebmlId == TimeCodeScale {
        timeScale := ReadUInt(file, child);
        if duration > 0 {
          lengthMs := LengthOf(duration, timeScale);
        }
      }
    }

    /** length(): whole seconds. */
    function Length(): (s: nat)
      reads this
      ensures s * 1000 <= lengthMs < (s + 1) * 1000
    {
      lengthMs / 1000
    }

    /** bitrate(), sampleRate() and channels() are constant. */
    function Bitrate(): (b: nat) ensures b == 0 { 0 }
    function SampleRate(): (r: nat) ensures r == 0 { 0 }
    function Channels(): (c: nat) ensures c == 0 { 0 }
  }

  /** One Duration d >= 0 and one TimeCodeScale ts give the same fields in
      either order, starting from the initial state. */
  lemma OrderIndependent(d: int, ts: nat)
    requires d >= 0
    ensures ApplyAll(Timing(0, 0, 0), [DurationEvent(d), ScaleEvent(ts)]) ==
            ApplyAll(Timing(0, 0, 0), [ScaleEvent(ts), DurationEvent(d)])
  {
    var t0 := Timing(0, 0, 0);
    ApplyAllCons(t0, DurationEvent(d), [ScaleEvent(ts)]);
    ApplyAllCons(Apply(t0, DurationEvent(d)), ScaleEvent(ts), []);
    ApplyAllCons(t0, ScaleEvent(ts), [DurationEvent(d)]);
    ApplyAllCons(Apply(t0, ScaleEvent(ts)), DurationEvent(d), []);
    if d == 0 {
      assert LengthOf(0, ts) == 0;
    }
  }

  /** For a negative duration the order matters: Duration first leaves the length
      0 (the TimeCodeScale case tests duration > 0), TimeCodeScale first
      computes it from the wrapped duration. */
  lemma OrderMattersForNegativeDuration()
    ensures ApplyAll(Timing(0, 0, 0), [DurationEvent(-1), ScaleEvent(1000000)]).length == 0
    ensures ApplyAll(Timing(0, 0, 0), [ScaleEvent(1000000), DurationEvent(-1)]).length == TWO32 - 1
  {
    var t0 := Timing(0, 0, 0);
    ApplyAllCons(t0, DurationEvent(-1), [ScaleEvent(1000000)]);
    ApplyAllCons(Apply(t0, DurationEvent(-1)), ScaleEvent(1000000), []);
    ApplyAllCons(t0, ScaleEvent(1000000), [DurationEvent(-1)]);
    ApplyAllCons(Apply(t0, ScaleEvent(1000000)), DurationEvent(-1), []);
    assert LengthOf(-1, 1000000) == TWO32 - 1;
  }

  /** Without a TimeCodeScale child the length stays as it was while the
      time scale is 0. */
  lemma {:induction false} NoScaleNoLength(t: Timing, evs: seq<Event>)
    requires t.timeScale == 0
    requires forall k :: 0 <= k < |evs| ==> !evs[k].ScaleEvent?
    ensures ApplyAll(t, evs).length == t.length && ApplyAll(t, evs).timeScale == 0
    decreases |evs|
  {
    if evs != [] {
      NoScaleNoLength(Apply(t, evs[0]), evs[1..]);
    }
  }

  /** Whatever the order of the children, the length stays an unsigned
      32-bit value. */
  lemma {:induction false} LengthBounded(t: Timing, evs: seq<Event>)
    requires t.length < TWO32
    ensures ApplyAll(t, evs).length < TWO32
    decreases |evs|
  {
    if evs != [] {
      LengthBounded(Apply(t, evs[0]), evs[1..]);
    }
  }
}
