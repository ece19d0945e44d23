/**
 * SIG events and the derivation of a SIG's event list and year buckets from its
 * parsed descriptor record (`SIGEvent`, `_sigevent_to_repr` and the loop of the
 * `data` setter in bin/anthology/sigs.py).
 */
module SigEvents {
  import opened OrderedDicts

  /** A year label as it appears as a key under `Meetings`. */
  type Year = int

  /**
   * One event descriptor under a year: a plain string (an anthology identifier), a
   * mapping with `Name` and optional `URL`, or any other parsed shape.
   */
  datatype Descriptor = Str(id: string) | Dict(name: string, url: Option<string>) | Other

  /** `SIGEvent`: every field defaults to None; the derivation always sets `year`. */
  datatype SIGEvent = SIGEvent(anthologyId: Option<string>, name: Option<string>, url: Option<string>, year: Year)

  /** One element of `Meetings`: a year-to-descriptor-list mapping. */
  type Meeting = ODict<Year, seq<Descriptor>>

  /** A parsed SIG descriptor record: `ShortName`, `Name`, optional `URL`, `Meetings`. */
  datatype Record = Record(shortName: string, name: string, url: Option<string>, meetings: seq<Meeting>)

  /** A descriptor together with the year it is listed under. */
  datatype Entry = Entry(year: Year, descriptor: Descriptor)

  /** The volume representation of an event: a volume identifier, or `{name, url}`. */
  datatype Repr = VolumeId(id: string) | NameUrl(name: Option<string>, url: Option<string>)

  /** The event a descriptor listed under year `y` builds; None for an unknown shape. */
  function MakeEvent(d: Descriptor, y: Year): (r: Option<SIGEvent>)
    ensures r.None? <==> d.Other?
    ensures r.Some? ==> r.value.year == y
    ensures d.Str? ==> r.Some? && r.value.anthologyId == Some(d.id) && r.value.name.None? && r.value.url.None?
    ensures d.Dict? ==> r.Some? && r.value.anthologyId.None? && r.value.name == Some(d.name) && r.value.url == d.url
  {
    match d
    case Str(id) => Some(SIGEvent(Some(id), None, None, y))
    case Dict(name, url) => Some(SIGEvent(None, Some(name), url, y))
    case Other => None
  }

  /**
   * `_sigevent_to_repr`: an event with an anthology identifier is represented by the
   * identifier of its containing volume; any other event by its name and URL verbatim.
   */
  function SigEventToRepr(e: SIGEvent, toVolumeId: string -> string): (r: Repr)
    ensures r.VolumeId? <==> e.anthologyId.Some?
    ensures e.anthologyId.Some? ==> r.id == toVolumeId(e.anthologyId.value)
    ensures e.anthologyId.None? ==> r.name == e.name && r.url == e.url
  {
    if e.anthologyId.Some? then VolumeId(toVolumeId(e.anthologyId.value)) else NameUrl(e.name, e.url)
  }

  /** `any(ev.anthology_id == x for ev in events)`. */
  function HasAnthologyId(events: seq<SIGEvent>, x: string): (r: bool)
    ensures r <==> exists i :: 0 <= i < |events| && events[i].anthologyId == Some(x)
  {
    if events == [] then false
    else events[0].anthologyId == Some(x) || HasAnthologyId(events[1..], x)
  }

  // ---------------------------------------------------------------------------
  // Flattening `Meetings` into the order the setter visits the descriptors
  // ---------------------------------------------------------------------------

  /** The entries of the descriptors `ds` listed under year `y`. */
  function DescriptorEntries(y: Year, ds: seq<Descriptor>): (r: seq<Entry>)
    ensures |r| == |ds|
  {
    if ds == [] then []
    else
      var n := |ds| - 1;
      DescriptorEntries(y, ds[..n]) + [Entry(y, ds[n])]
  }

  lemma {:induction false} DescriptorEntriesPrefix(y: Year, ds: seq<Descriptor>, a: nat)
    requires a <= |ds|
    ensures DescriptorEntries(y, ds[..a]) <= DescriptorEntries(y, ds)
  {
    if a < |ds| {
      var n := |ds| - 1;
      assert ds[..n][..a] == ds[..a];
      DescriptorEntriesPrefix(y, ds[..n], a);
    } else {
      assert ds[..a] == ds;
    }
  }

  /** The entries of the keys `ks` of one meeting mapping, key by key. */
  function KeyEntries(m: Meeting, ks: seq<Year>): seq<Entry>
    requires forall i :: 0 <= i < |ks| ==> ks[i] in m.values
  {
    if ks == [] then []
    else
      var n := |ks| - 1;
      KeyEntries(m, ks[..n]) + DescriptorEntries(ks[n], m.values[ks[n]])
  }

  /** All entries of `Meetings`: outer order, then key order, then descriptor order. */
  function Entries(ms: seq<Meeting>): seq<Entry>
  {
    if ms == [] then []
    else
      var n := |ms| - 1;
      Entries(ms[..n]) + KeyEntries(ms[n], ms[n].keys)
  }

  function KeyCount(m: Meeting, ks: seq<Year>): nat
    requires forall i :: 0 <= i < |ks| ==> ks[i] in m.values
  {
    if ks == [] then 0 else |m.values[ks[0]]| + KeyCount(m, ks[1..])
  }

  /** The number of descriptors listed in `Meetings`. */
  function DescriptorCount(ms: seq<Meeting>): nat
  {
    if ms == [] then 0 else KeyCount(ms[0], ms[0].keys) + DescriptorCount(ms[1..])
  }

  lemma {:induction false} KeyEntriesCount(m: Meeting, ks: seq<Year>)
    requires forall i :: 0 <= i < |ks| ==> ks[i] in m.values
    ensures |KeyEntries(m, ks)| == KeyCount(m, ks)
  {
    if ks != [] {
      var n := |ks| - 1;
      KeyEntriesCount(m, ks[..n]);
      KeyCountSnoc(m, ks[..n], ks[n]);
      assert ks[..n] + [ks[n]] == ks;
    }
  }

  lemma {:induction false} KeyCountSnoc(m: Meeting, ks: seq<Year>, k: Year)
    requires forall i :: 0 <= i < |ks| ==> ks[i] in m.values
    requires k in m.values
    ensures KeyCount(m, ks + [k]) == KeyCount(m, ks) + |m.values[k]|
  {
    if ks != [] {
      assert (ks + [k])[1..] == ks[1..] + [k];
      KeyCountSnoc(m, ks[1..], k);
    }
  }

  lemma {:induction false} DescriptorCountSnoc(ms: seq<Meeting>, m: Meeting)
    ensures DescriptorCount(ms + [m]) == DescriptorCount(ms) + KeyCount(m, m.keys)
  {
    if ms != [] {
      assert (ms + [m])[1..] == ms[1..] + [m];
      DescriptorCountSnoc(ms[1..], m);
    }
  }

  /** Flattening keeps every descriptor: there are as many entries as descriptors. */
  lemma {:induction false} EntriesCount(ms: seq<Meeting>)
    ensures |Entries(ms)| == DescriptorCount(ms)
  {
    if ms != [] {
      var n := |ms| - 1;
      EntriesCount(ms[..n]);
      KeyEntriesCount(ms[n], ms[n].keys);
      DescriptorCountSnoc(ms[..n], ms[n]);
      assert ms[..n] + [ms[n]] == ms;
    }
  }

  lemma {:induction false} KeyEntriesPrefix(m: Meeting, ks: seq<Year>, a: nat)
    requires forall i :: 0 <= i < |ks| ==> ks[i] in m.values
    requires a <= |ks|
    ensures KeyEntries(m, ks[..a]) <= KeyEntries(m, ks)
  {
    if a < |ks| {
      var n := |ks| - 1;
      assert ks[..n][..a] == ks[..a];
      KeyEntriesPrefix(m, ks[..n], a);
    } else {
      assert ks[..a] == ks;
    }
  }

  lemma {:induction false} EntriesPrefix(ms: seq<Meeting>, a: nat)
    requires a <= |ms|
    ensures Entries(ms[..a]) <= Entries(ms)
  {
    if a < |ms| {
      var n := |ms| - 1;
      assert ms[..n][..a] == ms[..a];
      EntriesPrefix(ms[..n], a);
    } else {
      assert ms[..a] == ms;
    }
  }

  /** `KeyEntries` of one more key: the entries of that key follow. */
  lemma KeyEntriesSnoc(m: Meeting, ks: seq<Year>, j: nat)
    requires forall i :: 0 <= i < |ks| ==> ks[i] in m.values
    requires j < |ks|
    ensures KeyEntries(m, ks[..j + 1]) == KeyEntries(m, ks[..j]) + DescriptorEntries(ks[j], m.values[ks[j]])
  {
    assert ks[..j + 1][..j] == ks[..j];
  }

  /** `Entries` of one more meeting: the entries of that meeting follow. */
  lemma EntriesSnoc(ms: seq<Meeting>, i: nat)
    requires i < |ms|
    ensures Entries(ms[..i + 1]) == Entries(ms[..i]) + KeyEntries(ms[i], ms[i].keys)
  {
    assert ms[..i + 1][..i] == ms[..i];
  }

  // ---------------------------------------------------------------------------
  // The derivation, step by step as the setter runs it
  // ---------------------------------------------------------------------------

  /** The derived state of a SIG: `_associated_events` and `events_by_year`. */
  datatype Derived = Derived(events: seq<SIGEvent>, byYear: ODict<Year, seq<SIGEvent>>)

  /** The state right after the setter's reset: no events, no buckets. */
  function Initial(): (b: Derived)
    ensures b.events == [] && b.byYear.keys == [] && b.byYear.values == map[]
  {
    Derived([], Empty())
  }

  /** Lines 98-99: append `ev` to the flat list and to bucket `y`, creating the bucket if absent. */
  function File(b: Derived, y: Year, ev: SIGEvent): Derived
  {
    Derived(b.events + [ev], Put(b.byYear, y, GetOr(b.byYear, y, []) + [ev]))
  }

  /**
   * One iteration of the innermost loop. A string or mapping builds a new event; an unknown
   * shape re-appends the event of the previous iteration (the last one appended), or raises
   * (None) when no event has been built yet.
   */
  function Step(b: Derived, e: Entry): Option<Derived>
  {
    match MakeEvent(e.descriptor, e.year)
    case Some(ev) => Some(File(b, e.year, ev))
    case None =>
      if b.events == [] then None else Some(File(b, e.year, b.events[|b.events| - 1]))
  }

  /** The state after the setter has processed the entries `es`, or None if it raised. */
  function Run(es: seq<Entry>): Option<Derived>
  {
    if es == [] then Some(Initial())
    else
      match Run(es[..|es| - 1])
      case None => None
      case Some(b) => Step(b, es[|es| - 1])
  }

  /** The derived state after `data` is assigned `rec`, or None if the assignment raises. */
  function Derive(rec: Record): Option<Derived>
  {
    Run(Entries(rec.meetings))
  }

  /**
   * One more iteration of the setter's innermost loop: `ev` is the event the iteration
   * builds, or the one of the previous iteration when the shape is unknown.
   */
  lemma RunSnoc(done: seq<Entry>, b: Derived, e: Entry, prev: Option<SIGEvent>, ev: Option<SIGEvent>)
    requires Run(done) == Some(b)
    requires prev == if b.events == [] then None else Some(b.events[|b.events| - 1])
    requires ev == if e.descriptor.Other? then prev else MakeEvent(e.descriptor, e.year)
    requires ev.Some?
    ensures Run(done + [e]) == Some(File(b, e.year, ev.value))
  {
    assert (done + [e])[..|done|] == done;
  }

  /**
   * An unknown shape before any event was built: the assignment raises, and the state
   * it leaves has neither events nor buckets.
   */
  lemma RunRaises(done: seq<Entry>, b: Derived, e: Entry)
    requires Run(done) == Some(b) && b.events == []
    requires e.descriptor.Other?
    ensures Run(done + [e]).None?
    ensures b.byYear.keys == [] && b.byYear.values == map[]
  {
    RunExplains(done);
    RunExplains(done + [e]);
  }

  /**
   * Descriptor `l` of the list `ds` under year `y`, filed after the entries `done0` and the
   * descriptors before it: `ev` is the event the iteration appends (None when unbound).
   */
  lemma YearStep(done0: seq<Entry>, y: Year, ds: seq<Descriptor>, l: nat, b: Derived, prev: Option<SIGEvent>, ev: Option<SIGEvent>)
    requires l < |ds|
    requires Run(done0 + DescriptorEntries(y, ds[..l])) == Some(b)
    requires prev == if b.events == [] then None else Some(b.events[|b.events| - 1])
    requires ev == if ds[l].Other? then prev else MakeEvent(ds[l], y)
    ensures ev.Some? ==> Run(done0 + DescriptorEntries(y, ds[..l + 1])) == Some(File(b, y, ev.value))
    ensures ev.None? ==> Run(done0 + DescriptorEntries(y, ds)).None?
    ensures ev.None? ==> b.events == [] && b.byYear.keys == [] && b.byYear.values == map[]
  {
    var done, e := done0 + DescriptorEntries(y, ds[..l]), Entry(y, ds[l]);
    assert ds[..l + 1][..l] == ds[..l];
    assert done0 + DescriptorEntries(y, ds[..l + 1]) == done + [e];
    if ev.Some? {
      RunSnoc(done, b, e, prev, ev);
    } else {
      RunRaises(done, b, e);
      DescriptorEntriesPrefix(y, ds, l + 1);
      RunRaisesOnExtension(done + [e], done0 + DescriptorEntries(y, ds));
    }
  }

  /** Key `j` of meeting `m`, filed after the entries `done0` and the keys before it. */
  lemma KeyStep(done0: seq<Entry>, m: Meeting, j: nat)
    requires j < |m.keys|
    ensures var y := m.keys[j];
      done0 + KeyEntries(m, m.keys[..j + 1]) == done0 + KeyEntries(m, m.keys[..j]) + DescriptorEntries(y, m.values[y])
    ensures var y := m.keys[j];
      Run(done0 + KeyEntries(m, m.keys[..j]) + DescriptorEntries(y, m.values[y])).None? ==>
        Run(done0 + KeyEntries(m, m.keys)).None?
  {
    var y := m.keys[j];
    KeyEntriesSnoc(m, m.keys, j);
    if Run(done0 + KeyEntries(m, m.keys[..j]) + DescriptorEntries(y, m.values[y])).None? {
      KeyEntriesPrefix(m, m.keys, j + 1);
      RunRaisesOnExtension(done0 + KeyEntries(m, m.keys[..j + 1]), done0 + KeyEntries(m, m.keys));
    }
  }

  /** Meeting `i` raised: so does the whole assignment. */
  lemma MeetingRaises(ms: seq<Meeting>, i: nat)
    requires i < |ms|
    requires Run(Entries(ms[..i]) + KeyEntries(ms[i], ms[i].keys)).None?
    ensures Run(Entries(ms)).None?
  {
    EntriesSnoc(ms, i);
    EntriesPrefix(ms, i + 1);
    RunRaisesOnExtension(Entries(ms[..i + 1]), Entries(ms));
  }

  /** Once the setter has raised, it raises for every longer list of entries. */
  lemma RunRaisesOnExtension(p: seq<Entry>, q: seq<Entry>)
    requires Run(p).None? && p <= q
    ensures Run(q).None?
  {
    RunExplains(p);
    RunExplains(q);
  }

  // ---------------------------------------------------------------------------
  // What the derivation computes, stated without the loop
  // ---------------------------------------------------------------------------

  /** The distinct years of `es` in order of first appearance. */
  function YearOrder(es: seq<Entry>): seq<Year>
  {
    if es == [] then []
    else
      var n := |es| - 1;
      var prev := YearOrder(es[..n]);
      if es[n].year in prev then prev else prev + [es[n].year]
  }

  /** The events whose entries are listed under year `y`, in their relative order. */
  function Bucket(events: seq<SIGEvent>, es: seq<Entry>, y: Year): seq<SIGEvent>
    requires |events| == |es|
  {
    if es == [] then []
    else
      var n := |es| - 1;
      Bucket(events[..n], es[..n], y) + (if es[n].year == y then [events[n]] else [])
  }

  /** The events whose own `year` is `y`, in their relative order. */
  function EventsOfYear(events: seq<SIGEvent>, y: Year): seq<SIGEvent>
  {
    if events == [] then []
    else
      var n := |events| - 1;
      EventsOfYear(events[..n], y) + (if events[n].year == y then [events[n]] else [])
  }

  /** Every descriptor in `es` is a string or a mapping. */
  ghost predicate AllKnown(es: seq<Entry>)
  {
    forall i :: 0 <= i < |es| ==> !es[i].descriptor.Other?
  }

  /**
   * `b` is the derived state for the entries `es`: one event per entry, built from its
   * descriptor or repeating the previous event for an unknown shape; one bucket per year
   * that has an entry, in order of first appearance; each bucket holds the events of the
   * entries listed under its year.
   */
  ghost predicate Explains(b: Derived, es: seq<Entry>)
  {
    && |b.events| == |es|
    && (|es| > 0 ==> !es[0].descriptor.Other?)
    && (forall i :: 0 <= i < |es| && !es[i].descriptor.Other? ==>
          MakeEvent(es[i].descriptor, es[i].year) == Some(b.events[i]))
    && (forall i :: 0 < i < |es| && es[i].descriptor.Other? ==> b.events[i] == b.events[i - 1])
    && b.byYear.keys == YearOrder(es)
    && (forall y :: y in b.byYear.values ==> b.byYear.values[y] == Bucket(b.events, es, y))
  }

  lemma {:induction false} YearOrderMembers(es: seq<Entry>)
    ensures Distinct(YearOrder(es))
    ensures forall y :: y in YearOrder(es) <==> exists i :: 0 <= i < |es| && es[i].year == y
  {
    if es != [] {
      var n := |es| - 1;
      YearOrderMembers(es[..n]);
      forall y ensures y in YearOrder(es) <==> exists i :: 0 <= i < |es| && es[i].year == y {
        if y in YearOrder(es) && y != es[n].year {
          var i :| 0 <= i < n && es[..n][i].year == y;
          assert es[i].year == y;
        }
        if exists i :: 0 <= i < |es| && es[i].year == y {
          var i :| 0 <= i < |es| && es[i].year == y;
          if i < n {
            assert es[..n][i].year == y;
          }
        }
      }
    }
  }

  lemma {:induction false} BucketAbsent(events: seq<SIGEvent>, es: seq<Entry>, y: Year)
    requires |events| == |es|
    requires forall i :: 0 <= i < |es| ==> es[i].year != y
    ensures Bucket(events, es, y) == []
  {
    if es != [] {
      var n := |es| - 1;
      BucketAbsent(events[..n], es[..n], y);
    }
  }

  /** Filing one more event keeps `Explains`. */
  lemma FileExplains(b: Derived, p: seq<Entry>, e: Entry, ev: SIGEvent)
    requires Explains(b, p)
    requires MakeEvent(e.descriptor, e.year) == Some(ev)
          || (e.descriptor.Other? && |b.events| > 0 && ev == b.events[|b.events| - 1])
    ensures Explains(File(b, e.year, ev), p + [e])
  {
    var es := p + [e];
    var b' := File(b, e.year, ev);
    var n := |p|;
    assert es[..n] == p;
    assert b'.events[..n] == b.events;
    YearOrderMembers(p);
    assert e.year in b.byYear.values <==> e.year in YearOrder(p);
    forall y | y in b'.byYear.values
      ensures b'.byYear.values[y] == Bucket(b'.events, es, y)
    {
      assert Bucket(b'.events, es, y)
          == Bucket(b.events, p, y) + (if e.year == y then [ev] else []);
      if y == e.year && y !in b.byYear.values {
        BucketAbsent(b.events, p, y);
      }
    }
  }

  /**
   * The setter raises exactly when the very first descriptor has an unknown shape;
   * otherwise its result is explained by the entries.
   */
  lemma {:induction false} RunExplains(es: seq<Entry>)
    ensures Run(es).Some? <==> (es == [] || !es[0].descriptor.Other?)
    ensures Run(es).Some? ==> Explains(Run(es).value, es)
  {
    if es != [] {
      var n := |es| - 1;
      var p, e := es[..n], es[n];
      assert es == p + [e];
      RunExplains(p);
      if n > 0 {
        assert p[0] == es[0];
      }
      match Run(p)
      case None =>
      case Some(b) =>
        match MakeEvent(e.descriptor, e.year)
        case Some(ev) =>
          FileExplains(b, p, e, ev);
        case None =>
          if b.events != [] {
            FileExplains(b, p, e, b.events[|b.events| - 1]);
          }
    }
  }

  /** With every descriptor known, bucket `y` is exactly the events whose year is `y`. */
  lemma {:induction false} BucketIsEventsOfYear(events: seq<SIGEvent>, es: seq<Entry>, y: Year)
    requires |events| == |es|
    requires forall i :: 0 <= i < |es| ==> events[i].year == es[i].year
    ensures Bucket(events, es, y) == EventsOfYear(events, y)
  {
    if es != [] {
      var n := |es| - 1;
      BucketIsEventsOfYear(events[..n], es[..n], y);
    }
  }

  lemma {:induction false} BucketNonEmpty(events: seq<SIGEvent>, es: seq<Entry>, y: Year)
    requires |events| == |es|
    requires y in YearOrder(es)
    ensures |Bucket(events, es, y)| > 0
  {
    var n := |es| - 1;
    if es[n].year != y {
      assert y in YearOrder(es[..n]);
      BucketNonEmpty(events[..n], es[..n], y);
    }
  }

  /** Every year key has a non-empty bucket: keys are created only when an event is filed. */
  lemma YearsHaveEvents(b: Derived, es: seq<Entry>)
    requires Explains(b, es)
    ensures forall y :: y in b.byYear.values ==> |b.byYear.values[y]| > 0
  {
    forall y | y in b.byYear.values ensures |b.byYear.values[y]| > 0 {
      BucketNonEmpty(b.events, es, y);
    }
  }

  /**
   * When every descriptor is a string or a mapping, assigning `data` succeeds, builds one
   * event per descriptor in the order of `Meetings`, and bucket `y` is exactly the
   * subsequence of the events whose year is `y`.
   */
  lemma DeriveAllKnown(rec: Record)
    requires AllKnown(Entries(rec.meetings))
    ensures Derive(rec).Some?
    ensures var es, b := Entries(rec.meetings), Derive(rec).value;
      && |b.events| == |es| == DescriptorCount(rec.meetings)
      && (forall i :: 0 <= i < |es| ==> MakeEvent(es[i].descriptor, es[i].year) == Some(b.events[i]))
      && (forall y :: y in b.byYear.values ==> b.byYear.values[y] == EventsOfYear(b.events, y))
  {
    var es := Entries(rec.meetings);
    RunExplains(es);
    EntriesCount(rec.meetings);
    var b := Derive(rec).value;
    forall y | y in b.byYear.values ensures b.byYear.values[y] == EventsOfYear(b.events, y) {
      BucketIsEventsOfYear(b.events, es, y);
    }
  }

  /**
   * The index of the descriptor whose event the setter appends at entry `i`: `i` itself
   * for a known shape, otherwise the latest known one before it.
   */
  function Source(es: seq<Entry>, i: nat): (j: nat)
    requires i < |es| && !es[0].descriptor.Other?
    ensures j <= i && !es[j].descriptor.Other?
    ensures forall k :: j < k <= i ==> es[k].descriptor.Other?
  {
    if !es[i].descriptor.Other? then i else Source(es, i - 1)
  }

  /**
   * Every appended event is the event built from an earlier descriptor of known shape:
   * the latest one up to its own position (a stale event for an unknown shape).
   */
  lemma {:induction false} EventsFromSources(b: Derived, es: seq<Entry>, i: nat)
    requires Explains(b, es) && i < |es|
    ensures MakeEvent(es[Source(es, i)].descriptor, es[Source(es, i)].year) == Some(b.events[i])
  {
    if es[i].descriptor.Other? {
      EventsFromSources(b, es, i - 1);
    }
  }

  /**
   * `is_associated_with(x)` on the derived events holds iff `x` is listed as a plain
   * string descriptor: mapping descriptors never match, and re-appended stale events
   * add no new identifiers.
   */
  lemma AssociatedIffListed(b: Derived, es: seq<Entry>, x: string)
    requires Explains(b, es)
    ensures HasAnthologyId(b.events, x) <==> exists j :: 0 <= j < |es| && es[j].descriptor == Str(x)
  {
    if HasAnthologyId(b.events, x) {
      var i :| 0 <= i < |b.events| && b.events[i].anthologyId == Some(x);
      EventsFromSources(b, es, i);
      var j := Source(es, i);
      assert es[j].descriptor == Str(x);
    }
    if exists j :: 0 <= j < |es| && es[j].descriptor == Str(x) {
      var j :| 0 <= j < |es| && es[j].descriptor == Str(x);
      assert b.events[j].anthologyId == Some(x);
    }
  }

  /** `x` is listed as a plain string descriptor among the entries `es`. */
  ghost predicate Listed(es: seq<Entry>, x: string)
  {
    exists j :: 0 <= j < |es| && es[j].descriptor == Str(x)
  }

  /** The same, for the events derived from a record and the entries of its `Meetings`. */
  lemma DerivedAssociatedIffListed(rec: Record, b: Derived, x: string)
    requires Derive(rec) == Some(b)
    ensures HasAnthologyId(b.events, x) <==> Listed(Entries(rec.meetings), x)
  {
    RunExplains(Entries(rec.meetings));
    AssociatedIffListed(b, Entries(rec.meetings), x);
  }

  // ---------------------------------------------------------------------------
  // The buckets partition the flat list
  // ---------------------------------------------------------------------------

  /** The number of entries listed under year `y`. */
  function Count(es: seq<Entry>, y: Year): nat
  {
    if es == [] then 0
    else
      var n := |es| - 1;
      Count(es[..n], y) + (if es[n].year == y then 1 else 0)
  }

  /** The total size of the buckets of the years `ys`. */
  function BucketSizes(byYear: map<Year, seq<SIGEvent>>, ys: seq<Year>): nat
  {
    if ys == [] then 0
    else
      var n := |ys| - 1;
      BucketSizes(byYear, ys[..n]) + (if ys[n] in byYear then |byYear[ys[n]]| else 0)
  }

  function CountSum(es: seq<Entry>, ys: seq<Year>): nat
  {
    if ys == [] then 0
    else
      var n := |ys| - 1;
      CountSum(es, ys[..n]) + Count(es, ys[n])
  }

  lemma {:induction false} BucketLength(events: seq<SIGEvent>, es: seq<Entry>, y: Year)
    requires |events| == |es|
    ensures |Bucket(events, es, y)| == Count(es, y)
  {
    if es != [] {
      var n := |es| - 1;
      BucketLength(events[..n], es[..n], y);
    }
  }

  lemma {:induction false} CountSumSnoc(p: seq<Entry>, e: Entry, ys: seq<Year>)
    requires Distinct(ys)
    ensures CountSum(p + [e], ys) == CountSum(p, ys) + (if e.year in ys then 1 else 0)
  {
    assert (p + [e])[..|p|] == p;
    if ys != [] {
      var n := |ys| - 1;
      CountSumSnoc(p, e, ys[..n]);
      assert e.year in ys <==> e.year in ys[..n] || e.year == ys[n];
      if e.year == ys[n] {
        assert e.year !in ys[..n];
      }
    }
  }

  lemma {:induction false} CountAbsent(es: seq<Entry>, y: Year)
    requires forall i :: 0 <= i < |es| ==> es[i].year != y
    ensures Count(es, y) == 0
  {
    if es != [] {
      CountAbsent(es[..|es| - 1], y);
    }
  }

  lemma {:induction false} CountSumYearOrder(es: seq<Entry>)
    ensures CountSum(es, YearOrder(es)) == |es|
  {
    if es != [] {
      var n := |es| - 1;
      var p, e := es[..n], es[n];
      assert es == p + [e];
      CountSumYearOrder(p);
      YearOrderMembers(p);
      CountSumSnoc(p, e, YearOrder(p));
      if e.year !in YearOrder(p) {
        var ys := YearOrder(p) + [e.year];
        assert ys[..|ys| - 1] == YearOrder(p);
        CountAbsent(p, e.year);
      }
    }
  }

  lemma {:induction false} BucketSizesAsCounts(b: Derived, es: seq<Entry>, ys: seq<Year>)
    requires Explains(b, es)
    requires forall i :: 0 <= i < |ys| ==> ys[i] in b.byYear.values
    ensures BucketSizes(b.byYear.values, ys) == CountSum(es, ys)
  {
    if ys != [] {
      var n := |ys| - 1;
      BucketSizesAsCounts(b, es, ys[..n]);
      BucketLength(b.events, es, ys[n]);
    }
  }

  /**
   * The buckets, taken in key order, hold as many events as the flat list. Together
   * with `EventInItsBucket`, `BucketPositionsDistinct` and `BucketPositionsFilled`, each
   * position of the flat list fills exactly one bucket position. By value an event may
   * lie in two buckets (`StaleEventFiledUnderOtherYear`).
   */
  lemma BucketsPartitionEvents(b: Derived, es: seq<Entry>)
    requires Explains(b, es)
    ensures BucketSizes(b.byYear.values, b.byYear.keys) == |b.events|
  {
    BucketSizesAsCounts(b, es, b.byYear.keys);
    CountSumYearOrder(es);
  }

  /**
   * Entry `i` puts its event at position `Count(es[..i], y)` of the bucket of its year `y`.
   * With `BucketPositionsDistinct` and `BucketPositionsFilled`, the entries listed under
   * `y` and the positions of bucket `y` correspond one to one.
   */
  lemma {:induction false} BucketPosition(events: seq<SIGEvent>, es: seq<Entry>, i: nat)
    requires |events| == |es| && i < |es|
    ensures var y := es[i].year;
      Count(es[..i], y) < |Bucket(events, es, y)| && Bucket(events, es, y)[Count(es[..i], y)] == events[i]
  {
    var y, n := es[i].year, |es| - 1;
    BucketLength(events[..n], es[..n], y);
    if i < n {
      assert es[..n][..i] == es[..i];
      BucketPosition(events[..n], es[..n], i);
    } else {
      assert es[..n] == es[..i];
    }
  }

  /** Entry `i` and every entry before it counted towards `Count(es[..j], y)`, for `i < j`. */
  lemma {:induction false} CountGrows(es: seq<Entry>, i: nat, j: nat, y: Year)
    requires i < j <= |es|
    ensures Count(es[..i], y) + (if es[i].year == y then 1 else 0) <= Count(es[..j], y)
  {
    var n := j - 1;
    assert es[..j][..n] == es[..n];
    if i < n {
      CountGrows(es, i, n, y);
    } else {
      assert es[..j][n] == es[i];
    }
  }

  /**
   * Two different entries listed under the same year get different bucket positions, the
   * earlier entry the lower one.
   */
  lemma BucketPositionsDistinct(es: seq<Entry>, i: nat, j: nat)
    requires i < j < |es| && es[i].year == es[j].year
    ensures Count(es[..i], es[i].year) < Count(es[..j], es[j].year)
  {
    CountGrows(es, i, j, es[i].year);
  }

  /** Every position of bucket `y` is filled by some entry listed under `y`. */
  lemma {:induction false} BucketPositionsFilled(es: seq<Entry>, y: Year, p: nat)
    requires p < Count(es, y)
    ensures exists i :: 0 <= i < |es| && es[i].year == y && Count(es[..i], y) == p
  {
    var n := |es| - 1;
    if p < Count(es[..n], y) {
      BucketPositionsFilled(es[..n], y, p);
      var i :| 0 <= i < n && es[..n][i].year == y && Count(es[..n][..i], y) == p;
      assert es[..n][..i] == es[..i];
    } else {
      assert es[n].year == y && Count(es[..n], y) == p;
    }
  }

  /**
   * Each appended event sits in the bucket of the year its entry is listed under, at the
   * position given by the entries listed under that year before it. The positions of
   * different entries differ (`BucketPositionsDistinct`).
   */
  lemma EventInItsBucket(b: Derived, es: seq<Entry>, i: nat)
    requires Explains(b, es) && i < |es|
    ensures var y := es[i].year;
      && y in b.byYear.values
      && Count(es[..i], y) < |b.byYear.values[y]|
      && b.byYear.values[y][Count(es[..i], y)] == b.events[i]
  {
    YearOrderMembers(es);
    assert es[i].year in b.byYear.keys;
    BucketPosition(b.events, es, i);
  }

  /** The example meeting below, flattened. */
  lemma ExampleEntries(m: Meeting)
    requires m.keys == [2019, 2020]
    requires m.values == map[2019 := [Str("W19-0100")], 2020 := [Other]]
    ensures Entries([m]) == [Entry(2019, Str("W19-0100")), Entry(2020, Other)]
  {
    assert KeyEntries(m, [2019]) == [Entry(2019, Str("W19-0100"))] by {
      assert [2019][..0] == [];
    }
    assert m.keys[..1] == [2019];
    assert [m][..0] == [];
  }

  lemma ExampleRun(ev: SIGEvent)
    requires ev == SIGEvent(Some("W19-0100"), None, None, 2019)
    ensures Run([Entry(2019, Str("W19-0100")), Entry(2020, Other)])
         == Some(File(File(Initial(), 2019, ev), 2020, ev))
  {
    var e1, e2 := Entry(2019, Str("W19-0100")), Entry(2020, Other);
    assert [e1][..0] == [];
    assert Run([e1]) == Some(File(Initial(), 2019, ev));
    assert [e1, e2][..1] == [e1];
  }

  /**
   * The unknown-shape branch as written: a meeting `{2019: ["W19-0100"], 2020: [<number>]}`
   * files the 2019 event a second time, in the 2020 bucket.
   */
  lemma StaleEventFiledUnderOtherYear(m: Meeting)
    requires m.keys == [2019, 2020]
    requires m.values == map[2019 := [Str("W19-0100")], 2020 := [Other]]
    ensures
      var b := Derive(Record("SIGLEX", "Lexicon", None, [m]));
      var ev := SIGEvent(Some("W19-0100"), None, None, 2019);
      && b.Some?
      && b.value.events == [ev, ev]
      && 2020 in b.value.byYear.values
      && b.value.byYear.values[2020] == [ev]
      && b.value.byYear.values[2020][0].year != 2020
  {
    var ev := SIGEvent(Some("W19-0100"), None, None, 2019);
    ExampleEntries(m);
    ExampleRun(ev);
  }
}
