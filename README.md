# SIG metadata index, modelled in Dafny

This project models the Special Interest Group (SIG) index of the ACL Anthology build
scripts, `bin/anthology/sigs.py`:

- `SIGEvent` and `_sigevent_to_repr`: an event is an anthology reference or a
  standalone name/URL meeting, tagged with a year. Its volume representation is the
  containing volume's identifier or `{name, url}` (`events.dfy`).
- `SIG`: assigning a parsed descriptor record to `data` resets the SIG. It then walks
  `Meetings` (a list of year-to-descriptor-list mappings) and builds one event per
  descriptor. Each event goes both into the flat `associated_events` list and into the
  `events_by_year[year]` bucket. The queries `is_associated_with`, `years` and
  `volumes_by_year` read that state (`sig.dfy`, class `Sigs.SIG`).
- `SIGIndex`: the registry from acronym to SIG. It loads records one by one, the last
  write for an acronym winning, and offers `get_associated_sigs` and `items`
  (`sig_index.dfy`, class `SigIndex.SIGIndex`).
- Python dicts keep insertion order. They are modelled as an ordered key sequence paired
  with a map (`dicts.dfy`, `OrderedDicts.ODict`). `Put` is `d[k] = v`.

The setter is imperative: three nested loops append to two fields in place
(`SetData`, `FileMeetings`, `FileMeeting`, `FileYear`). Each loop is proved against
a specification fold. `Entries` flattens `Meetings` into (year, descriptor) entries:
outer list order, then key order, then list order. `Run` folds the loop body `Step`
over those entries. A declarative predicate `Explains` then says what the fold
computes, without the loop. The registry load is a loop over the parsed records that
updates the class field `sigs` in place.

A descriptor that is neither a string nor a mapping is not skipped. The code only logs
a warning. It then appends the variable `ev` again, which still holds the event of the
previous iteration. That event may carry another year, yet it goes into the current
year's bucket. If no event has been built yet, the append raises `UnboundLocalError`.
The model does exactly this. `Step` re-appends the last event or fails, and
`StaleEventFiledUnderOtherYear` shows a concrete record where a 2019 event lands in the
2020 bucket. So bucket `y` holds the events of the entries listed under `y`.
When every descriptor is a string or a mapping, this equals "the events whose year is
`y`" (`DeriveAllKnown`). A stale event filed under another year breaks that equality
(`StaleEventFiledUnderOtherYear`).

## Model

| member | source | states |
|---|---|---|
| OrderedDicts.Put | bin/anthology/sigs.py:43 | dict assignment: `k` maps to `v` (the last write wins), every other key keeps its value, an existing key keeps its place in the key order, a new key goes last, and the keys stay distinct |
| SigEvents.MakeEvent | bin/anthology/sigs.py:86-91 | a string descriptor gives an event with that anthology id, no name, no URL and the listing year; a mapping gives no anthology id, its name, its optional URL and the year; any other shape builds no event |
| SigEvents.SigEventToRepr | bin/anthology/sigs.py:23-28 | the representation is a volume id exactly when the event has an anthology id, and then it is `to_volume_id` of that id; otherwise it is the event's name and URL verbatim |
| SigEvents.HasAnthologyId | bin/anthology/sigs.py:116 | true iff some event in the list has anthology id `x` |
| SigEvents.EntriesCount | bin/anthology/sigs.py:83-85 | the setter visits one entry per descriptor listed in `Meetings` |
| SigEvents.RunRaises | bin/anthology/sigs.py:92-98 | an unknown shape before any event exists makes the assignment raise, and at that point there are no events and no buckets |
| SigEvents.RunRaisesOnExtension | bin/anthology/sigs.py:83-98 | once the setter has raised, it has raised for every longer list of entries: the raise ends the assignment |
| SigEvents.RunExplains | bin/anthology/sigs.py:80-99 | the assignment raises iff the first descriptor has an unknown shape; otherwise there is one event per entry, built from its descriptor or repeating the previous event for an unknown shape, the year keys are the years with an entry in order of first appearance, and each bucket holds the events of the entries listed under its year, in order |
| SigEvents.YearOrderMembers | bin/anthology/sigs.py:82-99 | the year keys are distinct and are exactly the years under which some descriptor is listed |
| SigEvents.YearsHaveEvents | bin/anthology/sigs.py:98-99 | every year key has a non-empty bucket, because a key is only created by appending an event |
| SigEvents.BucketIsEventsOfYear | bin/anthology/sigs.py:98-99 | when every descriptor is a string or a mapping, bucket `y` is exactly the subsequence of the flat list whose year is `y` |
| SigEvents.BucketsPartitionEvents | bin/anthology/sigs.py:98-99 | the buckets, taken over the year keys, hold exactly as many events as the flat list |
| SigEvents.BucketPosition | bin/anthology/sigs.py:98-99 | entry `i` puts its event at position `Count(es[..i], y)` of the bucket of its year `y`, which with `BucketPositionsDistinct` and `BucketPositionsFilled` makes the entries under `y` and the positions of bucket `y` correspond one to one |
| SigEvents.BucketPositionsDistinct | bin/anthology/sigs.py:98-99 | two different entries listed under the same year take different positions of that year's bucket, the earlier entry the lower position |
| SigEvents.BucketPositionsFilled | bin/anthology/sigs.py:98-99 | every position of bucket `y` is taken by some entry listed under `y` |
| SigEvents.EventInItsBucket | bin/anthology/sigs.py:98-99 | every appended event is in the bucket of the year it was listed under, at the position given by the entries listed under that year before it; with `BucketPositionsDistinct`, `BucketPositionsFilled` and `BucketsPartitionEvents`, each position of the flat list fills exactly one bucket position; by value an event may lie in two buckets (`StaleEventFiledUnderOtherYear`) |
| SigEvents.DeriveAllKnown | bin/anthology/sigs.py:80-99 | with every descriptor a string or a mapping, the assignment succeeds, the flat list has one event per descriptor (as many as `Meetings` lists), event `i` is built from entry `i`, and bucket `y` is the subsequence of events whose year is `y` |
| SigEvents.Source | bin/anthology/sigs.py:86-97 | the entry whose event is appended at position `i`: `i` itself for a known shape, otherwise the latest known shape before it |
| SigEvents.EventsFromSources | bin/anthology/sigs.py:86-98 | every appended event is the event built from the latest descriptor of known shape up to its position |
| SigEvents.AssociatedIffListed | bin/anthology/sigs.py:86-98 | some derived event has anthology id `x` iff `x` is listed as a plain string descriptor: mappings never match and re-appended events add no identifier |
| SigEvents.DerivedAssociatedIffListed | bin/anthology/sigs.py:80-99 | the same for the state derived from a record and the entries of its `Meetings` |
| SigEvents.StaleEventFiledUnderOtherYear | bin/anthology/sigs.py:92-99 | for `Meetings` `[{2019: ["W19-0100"], 2020: [<other shape>]}]` the 2019 event is appended twice, the second time into the 2020 bucket |
| Sigs.SIG.constructor | bin/anthology/sigs.py:57-63 | a new SIG keeps its acronym, name and URL and has no data, no events and no years |
| Sigs.SIG.FromDict | bin/anthology/sigs.py:65-68 | returns a new SIG named by the record's `ShortName`, `Name` and `URL`, holding exactly the state the assignment derives from the record; None exactly when the assignment raises |
| Sigs.SIG.SetData | bin/anthology/sigs.py:78-99 | the acronym, name and URL are unchanged and `data` is the new record; the events and buckets are the derivation of the new record alone, so nothing of the previous state survives; on a raise there are no events and no buckets |
| Sigs.SIG.FileMeetings | bin/anthology/sigs.py:83-99 | the outer loop files the entries of all of `Meetings`, or reports the raise with empty state |
| Sigs.SIG.FileMeeting | bin/anthology/sigs.py:84-99 | the middle loop files the entries of one mapping, key by key, or reports the raise |
| Sigs.SIG.FileYear | bin/anthology/sigs.py:85-99 | the inner loop files the descriptors of one year, appending each event to the flat list and to the year's bucket, or reports the raise |
| Sigs.SIG.Explained | bin/anthology/sigs.py:80-99 | the state of a SIG is explained by the entries it filed (as in `RunExplains`), and its buckets hold as many events as its flat list |
| Sigs.SIG.IsAssociatedWith | bin/anthology/sigs.py:115-116 | true iff some associated event has anthology id `x`; so false for a SIG without events |
| Sigs.SIG.Years | bin/anthology/sigs.py:111-113 | the keys of `events_by_year`: the distinct years with an entry, in order of first appearance, each with a non-empty bucket |
| Sigs.SIG.VolumesByYear | bin/anthology/sigs.py:105-109 | the same keys in the same order as `events_by_year`; each list is as long as its bucket and holds the representation of the bucket's event at each position |
| Sigs.AssociatedIffListedInRecord | bin/anthology/sigs.py:115-116 | a SIG built from a record is associated with `x` iff `x` is listed as a string descriptor somewhere under its `Meetings` |
| SigIndex.SIGIndex.constructor | bin/anthology/sigs.py:32-33 | a new registry is empty |
| SigIndex.SIGIndex.Insert | bin/anthology/sigs.py:43 | `sigs[sig.acronym] = sig`: the registry becomes `Put` of the old one, and every SIG stays stored under its own acronym |
| SigIndex.SIGIndex.LoadRecords | bin/anthology/sigs.py:37-43 | loads the records in order and stops at the first one whose SIG cannot be built; the key order is the old one extended by each new acronym at its first insertion; each acronym loaded maps to the SIG built from its last record, and every other entry is untouched |
| SigIndex.SIGIndex.LoadOne | bin/anthology/sigs.py:42-43 | one iteration: builds the SIG of one record and inserts it, extending the key order and the registry's correspondence to the loaded records by that record; on a raise nothing changes |
| SigIndex.LeadingCountStops | bin/anthology/sigs.py:37-43 | the number of records loaded covers records that all build, and the record after them (if any) raises |
| SigIndex.LeadingCountAt | bin/anthology/sigs.py:37-43 | when the first `i` records build and record `i` raises (or there is none), exactly `i` records load |
| SigIndex.KeysStep | bin/anthology/sigs.py:43 | inserting one more acronym extends the key order as `KeysAfter` says |
| SigIndex.ReflectsStep | bin/anthology/sigs.py:42-43 | inserting the SIG built from one more record keeps every entry equal to the SIG of the last record with its acronym |
| SigIndex.SIGIndex.AssociatedSigs | bin/anthology/sigs.py:45-50 | the acronyms whose SIG is associated with `x`, each exactly once, as a subsequence of the registry's insertion order |
| SigIndex.SIGIndex.FilterAssociated | bin/anthology/sigs.py:45-50 | the comprehension's filter over a key list: keeps exactly the associated acronyms, in order, without duplicates when the keys are distinct |
| SigIndex.SIGIndex.Items | bin/anthology/sigs.py:52-53 | the (acronym, SIG) pairs in insertion order |

## Left out

- File opening, path formatting, YAML parsing and the `SIG_FILES` manifest of
  `load_from_dir` are I/O. `LoadRecords` takes the already parsed records in manifest
  order, and `SIGIndex(srcdir)` is the constructor followed by `LoadRecords`. The
  module `.data` is not part of this model.
- Records are typed. A record always has `ShortName`, `Name` and `Meetings`, and a
  mapping descriptor always has `Name`. The `KeyError`s that missing keys raise are not
  modelled.
- Year keys are integers. Whether YAML reads them as int or str is left out.
- The warning logged for an unknown descriptor shape is left out. The shape itself is
  modelled, as described above.
- A raised exception is modelled as a result: `ok == false` from `SetData`, None from
  `FromDict`, and `ok == false` from `LoadRecords`, which then stops with the SIGs
  already inserted kept. Exception propagation itself is not modelled.
- `slugify` and `to_volume_id` are foreign calls. They are function parameters here.
- Sigs.SIG.Slug: carries no contract, since `slug` is exactly `slugify(acronym)` with
  `slugify` a parameter.
- The `data` and `associated_events` properties are plain field reads.
- `events_by_year` is a `defaultdict` after the setter. A read of a missing year would
  insert an empty bucket. No modelled operation reads a missing year, so this is left out.
- Sigs.SIG.IsAssociatedWith: takes a string. A Python call with `None` would match
  every mapping event, and that case is not modelled.
- SigIndex.SIGIndex.LoadRecords: does not state that the SIGs it stores are newly
  allocated objects, only that each equals in content the SIG built from its record.
