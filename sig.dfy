/**
 * `SIG`: one special interest group, its raw descriptor record and the events derived
 * from it (class `SIG` in bin/anthology/sigs.py).
 */
module Sigs {
  import opened OrderedDicts
  import opened SigEvents

  class SIG {
    var acronym: string
    var name: string
    var url: Option<string>
    /** `_data`; None stands for the empty dict a new SIG starts with. */
    var data: Option<Record>
    /** `_associated_events`. */
    var associatedEvents: seq<SIGEvent>
    /** `events_by_year`. */
    var eventsByYear: ODict<Year, seq<SIGEvent>>
    /** The (year, descriptor) entries the last assignment of `data` filed, in order. */
    ghost var filed: seq<Entry>

    /**
     * The flat list and the year buckets are what the setter derives from the entries
     * it filed; `Explained` below states what that means for the events and the buckets.
     */
    ghost predicate Valid()
      reads this
    {
      Run(filed) == Some(Derived(associatedEvents, eventsByYear))
    }

    /** The SIG holds exactly what `SIG.from_dict(rec)` builds. */
    ghost predicate Built(rec: Record)
      reads this
    {
      && acronym == rec.shortName && name == rec.name && url == rec.url
      && data == Some(rec)
      && Derive(rec) == Some(Derived(associatedEvents, eventsByYear))
      && filed == Entries(rec.meetings)
      && Valid()
    }

    /**
     * Midway through the setter: the events filed so far are those of the entries `done`,
     * and `ev` is the last one filed (unbound before the first).
     */
    ghost predicate Filing(done: seq<Entry>, ev: Option<SIGEvent>)
      reads this
    {
      && Run(done) == Some(Derived(associatedEvents, eventsByYear))
      && ev == if associatedEvents == [] then None else Some(associatedEvents[|associatedEvents| - 1])
    }

    /** `SIG(acronym, name, url)`: no data, no events, no years. */
    constructor (acronym: string, name: string, url: Option<string>)
      ensures Valid()
      ensures this.acronym == acronym && this.name == name && this.url == url
      ensures data.None? && associatedEvents == [] && eventsByYear.keys == [] && eventsByYear.values == map[]
    {
      this.acronym := acronym;
      this.name := name;
      this.url := url;
      data := None;
      associatedEvents := [];
      eventsByYear := Empty();
      filed := [];
    }

    /**
     * `SIG.from_dict(rec)`: a new SIG named by the record, with `data` assigned the record.
     * None when the assignment raises.
     */
    static method FromDict(rec: Record) returns (r: Option<SIG>)
      ensures r.Some? <==> Derive(rec).Some?
      ensures r.Some? ==> fresh(r.value) && r.value.Built(rec)
    {
      var sig := new SIG(rec.shortName, rec.name, rec.url);
      var ok := sig.SetData(rec);
      if ok {
        r := Some(sig);
      } else {
        r := None;
      }
    }

    /**
     * The `data` setter. It discards every previous event, then walks `Meetings` and files
     * one event per descriptor. An unknown descriptor shape files the event of the previous
     * iteration again; when there is none yet the setter raises (`ok` is false), leaving the
     * new record in `data` and no events.
     */
    method SetData(rec: Record) returns (ok: bool)
      modifies this
      ensures acronym == old(acronym) && name == old(name) && url == old(url)
      ensures data == Some(rec)
      ensures Valid()
      ensures ok <==> Derive(rec).Some?
      ensures ok ==> Derive(rec) == Some(Derived(associatedEvents, eventsByYear)) && filed == Entries(rec.meetings)
      ensures !ok ==> associatedEvents == [] && eventsByYear.keys == [] && eventsByYear.values == map[]
    {
      data := Some(rec);
      associatedEvents := [];
      eventsByYear := Empty();
      filed := [];
      ok := FileMeetings(rec.meetings);
      if ok {
        filed := Entries(rec.meetings);
      }
    }

    /** The setter's outer loop: file the descriptors of each `Meetings` mapping in turn. */
    method FileMeetings(ms: seq<Meeting>) returns (ok: bool)
      requires associatedEvents == [] && eventsByYear.keys == [] && eventsByYear.values == map[]
      modifies this`associatedEvents, this`eventsByYear
      ensures ok ==> Run(Entries(ms)) == Some(Derived(associatedEvents, eventsByYear))
      ensures !ok ==> Run(Entries(ms)).None?
      ensures !ok ==> associatedEvents == [] && eventsByYear.keys == [] && eventsByYear.values == map[]
    {
      // The Python local `ev`: unbound until the first event is built.
      var ev: Option<SIGEvent> := None;
      assert ms[..0] == [];
      var i := 0;
      while i < |ms|
        invariant 0 <= i <= |ms|
        invariant Filing(Entries(ms[..i]), ev)
      {
        EntriesSnoc(ms, i);
        ok, ev := FileMeeting(ms[i], ev, Entries(ms[..i]));
        if !ok {
          MeetingRaises(ms, i);
          return;
        }
        i := i + 1;
      }
      assert ms[..i] == ms;
      ok := true;
    }

    /** The setter's middle loop: file the descriptors of one `Meetings` mapping, key by key. */
    method FileMeeting(m: Meeting, ev0: Option<SIGEvent>, ghost done0: seq<Entry>) returns (ok: bool, ev: Option<SIGEvent>)
      requires Filing(done0, ev0)
      modifies this`associatedEvents, this`eventsByYear
      ensures ok ==> Filing(done0 + KeyEntries(m, m.keys), ev)
      ensures !ok ==> Run(done0 + KeyEntries(m, m.keys)).None?
      ensures !ok ==> associatedEvents == [] && eventsByYear.keys == [] && eventsByYear.values == map[]
    {
      ev := ev0;
      assert done0 + KeyEntries(m, m.keys[..0]) == done0;
      var j := 0;
      while j < |m.keys|
        invariant 0 <= j <= |m.keys|
        invariant Filing(done0 + KeyEntries(m, m.keys[..j]), ev)
      {
        var year := m.keys[j];
        KeyStep(done0, m, j);
        ok, ev := FileYear(year, m.values[year], ev, done0 + KeyEntries(m, m.keys[..j]));
        if !ok {
          return;
        }
        j := j + 1;
      }
      assert m.keys[..j] == m.keys;
      ok := true;
    }

    /** The setter's innermost loop: file the descriptors listed under one year. */
    method FileYear(year: Year, events: seq<Descriptor>, ev0: Option<SIGEvent>, ghost done0: seq<Entry>)
      returns (ok: bool, ev: Option<SIGEvent>)
      requires Filing(done0, ev0)
      modifies this`associatedEvents, this`eventsByYear
      ensures ok ==> Filing(done0 + DescriptorEntries(year, events), ev)
      ensures !ok ==> Run(done0 + DescriptorEntries(year, events)).None?
      ensures !ok ==> associatedEvents == [] && eventsByYear.keys == [] && eventsByYear.values == map[]
    {
      ev := ev0;
      assert done0 + DescriptorEntries(year, events[..0]) == done0;
      var l := 0;
      while l < |events|
        invariant 0 <= l <= |events|
        invariant Filing(done0 + DescriptorEntries(year, events[..l]), ev)
      {
        var event := events[l];
        ghost var b, prev := Derived(associatedEvents, eventsByYear), ev;
        if event.Str? {
          ev := Some(SIGEvent(Some(event.id), None, None, year));
        } else if event.Dict? {
          ev := Some(SIGEvent(None, Some(event.name), event.url, year));
        }
        // Any other shape only logs a warning and keeps the previous `ev`.
        YearStep(done0, year, events, l, b, prev, ev);
        if ev.None? {
          // `ev` is unbound: UnboundLocalError.
          return false, ev;
        }
        associatedEvents := associatedEvents + [ev.value];
        eventsByYear := Put(eventsByYear, year, GetOr(eventsByYear, year, []) + [ev.value]);
        assert Derived(associatedEvents, eventsByYear) == File(b, year, ev.value);
        assert Filing(done0 + DescriptorEntries(year, events[..l + 1]), ev);
        l := l + 1;
      }
      assert events[..l] == events;
      ok := true;
    }

    /**
     * The invariant spelled out: one event per filed entry, built from its descriptor or
     * repeating the previous event for an unknown shape; one year key per year with an
     * entry, in order of first appearance; each bucket holds, in order, the events of the
     * entries filed under its year; and the buckets hold as many events as the flat list.
     */
    lemma Explained()
      requires Valid()
      ensures Explains(Derived(associatedEvents, eventsByYear), filed)
      ensures BucketSizes(eventsByYear.values, eventsByYear.keys) == |associatedEvents|
    {
      RunExplains(filed);
      BucketsPartitionEvents(Derived(associatedEvents, eventsByYear), filed);
    }

    /** `is_associated_with(x)`: some event carries the anthology identifier `x`. */
    function IsAssociatedWith(x: string): (r: bool)
      reads this
      ensures r <==> exists i :: 0 <= i < |associatedEvents| && associatedEvents[i].anthologyId == Some(x)
    {
      HasAnthologyId(associatedEvents, x)
    }

    /**
     * `years`: the keys of `events_by_year`, that is, the distinct years that have an
     * entry, in order of first appearance, each with a non-empty bucket.
     */
    function Years(): (r: seq<Year>)
      reads this
      requires Valid()
      ensures r == YearOrder(filed)
      ensures Distinct(r)
      ensures forall y :: y in r <==> y in eventsByYear.values
      ensures forall y :: y in eventsByYear.values ==> eventsByYear.values[y] != []
    {
      RunExplains(filed);
      YearsHaveEvents(Derived(associatedEvents, eventsByYear), filed);
      eventsByYear.keys
    }

    /**
     * `volumes_by_year`: the same keys in the same order as `events_by_year`, each
     * bucket replaced position by position with the volume representations of its events.
     */
    function VolumesByYear(toVolumeId: string -> string): (r: ODict<Year, seq<Repr>>)
      reads this
      ensures r.keys == eventsByYear.keys
      ensures r.values.Keys == eventsByYear.values.Keys
      ensures forall y :: y in eventsByYear.values ==>
        |r.values[y]| == |eventsByYear.values[y]| &&
        forall i :: 0 <= i < |r.values[y]| ==> r.values[y][i] == SigEventToRepr(eventsByYear.values[y][i], toVolumeId)
    {
      KeyedMap(eventsByYear.keys, map y | y in eventsByYear.values :: Reprs(eventsByYear.values[y], toVolumeId))
    }

    /** `slug`: the acronym passed through `slugify`. */
    function Slug(slugify: string -> string): string
      reads this
    {
      slugify(acronym)
    }
  }

  function Reprs(events: seq<SIGEvent>, toVolumeId: string -> string): (r: seq<Repr>)
    ensures |r| == |events|
    ensures forall i :: 0 <= i < |events| ==> r[i] == SigEventToRepr(events[i], toVolumeId)
  {
    seq(|events|, i requires 0 <= i < |events| => SigEventToRepr(events[i], toVolumeId))
  }

  /**
   * A SIG built from a record is associated with `x` exactly when `x` is listed as a plain
   * string descriptor somewhere under `Meetings`.
   */
  lemma AssociatedIffListedInRecord(sig: SIG, rec: Record, x: string)
    requires sig.Built(rec)
    ensures sig.IsAssociatedWith(x) <==> Listed(Entries(rec.meetings), x)
  {
    DerivedAssociatedIffListed(rec, Derived(sig.associatedEvents, sig.eventsByYear), x);
  }
}
