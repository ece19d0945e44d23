/**
 * `SIGIndex`: the registry from SIG acronym to SIG (class `SIGIndex` in
 * bin/anthology/sigs.py).
 */
module SigIndex {
  import opened OrderedDicts
  import opened SigEvents
  import opened Sigs

  /** `r` keeps some of the elements of `s`, in their order in `s`. */
  ghost predicate SubsequenceOf<T>(r: seq<T>, s: seq<T>)
    decreases |s|
  {
    r == [] || (s != [] && ((r[0] == s[0] && SubsequenceOf(r[1..], s[1..])) || SubsequenceOf(r, s[1..])))
  }

  /** The number of leading elements of `xs` that satisfy `p`. */
  function LeadingCount<T>(xs: seq<T>, p: T -> bool): (n: nat)
    ensures n <= |xs|
  {
    if xs == [] || !p(xs[0]) then 0 else 1 + LeadingCount(xs[1..], p)
  }

  /** The first `n` elements of `xs` satisfy `p`. */
  ghost predicate HoldsFor<T>(xs: seq<T>, p: T -> bool, n: nat)
  {
    n <= |xs| && forall k :: 0 <= k < n ==> p(xs[k])
  }

  /** `SIG.from_dict(rec)` returns rather than raises. */
  predicate Accepts(rec: Record)
  {
    Derive(rec).Some?
  }

  /** The number of leading records that `SIG.from_dict` accepts. */
  function Loadable(records: seq<Record>): (n: nat)
    ensures n <= |records|
  {
    LeadingCount(records, Accepts)
  }

  /** The key order after inserting the acronyms of `records` one after the other. */
  function KeysAfter(keys: seq<string>, records: seq<Record>): seq<string>
  {
    if records == [] then keys
    else
      var n := |records| - 1;
      var prev := KeysAfter(keys, records[..n]);
      if records[n].shortName in prev then prev else prev + [records[n].shortName]
  }

  /** For each acronym, the last of `records` that carries it. */
  function LastRecord(records: seq<Record>): map<string, Record>
  {
    if records == [] then map[]
    else
      var n := |records| - 1;
      LastRecord(records[..n])[records[n].shortName := records[n]]
  }

  class SIGIndex {
    /** `sigs`: acronym to SIG, in insertion order. */
    var sigs: ODict<string, SIG>

    ghost function Members(): set<SIG>
      reads this
    {
      sigs.values.Values
    }

    /** Every SIG is stored under its own acronym. */
    ghost predicate Valid()
      reads this, Members()
    {
      forall a :: a in sigs.values ==> sigs.values[a].acronym == a
    }

    /** `SIGIndex()`: an empty registry. */
    constructor ()
      ensures Valid()
      ensures sigs.keys == [] && sigs.values == map[]
    {
      sigs := Empty();
    }

    /** `self.sigs[sig.acronym] = sig`. */
    method Insert(sig: SIG)
      requires Valid()
      modifies this`sigs
      ensures Valid()
      ensures sigs == Put(old(sigs), sig.acronym, sig)
    {
      sigs := Put(sigs, sig.acronym, sig);
    }

    /**
     * `load_from_dir` over already parsed records: build a SIG from each record in turn and
     * insert it under its acronym, without clearing what is there. The first record whose
     * SIG cannot be built aborts the load (`ok` is false) and the SIGs inserted before it stay.
     */
    method LoadRecords(records: seq<Record>) returns (ok: bool)
      requires Valid()
      modifies this`sigs
      ensures Valid()
      ensures ok <==> Loadable(records) == |records|
      ensures sigs.keys == KeysAfter(old(sigs.keys), records[..Loadable(records)])
      ensures Reflects(sigs.values, records[..Loadable(records)], old(sigs.values))
    {
      ghost var keys0, olds := sigs.keys, sigs.values;
      ok := true;
      var i := 0;
      while i < |records|
        invariant 0 <= i <= |records|
        invariant HoldsFor(records, Accepts, i)
        invariant Valid()
        invariant sigs.keys == KeysAfter(keys0, records[..i])
        invariant Reflects(sigs.values, records[..i], olds)
      {
        assert records[..i + 1] == records[..i] + [records[i]];
        ok := LoadOne(records[i], records[..i], keys0, olds);
        if !ok {
          break;
        }
        HoldsForOneMore(records, Accepts, i);
        i := i + 1;
      }
      LeadingCountAt(records, Accepts, i);
      assert Loadable(records) == i;
      assert ok ==> records[..i] == records;
    }

    /** One iteration of `load_from_dir`: build the SIG of `rec` and insert it under its acronym. */
    method LoadOne(rec: Record, ghost done: seq<Record>, ghost keys0: seq<string>, ghost olds: map<string, SIG>)
      returns (ok: bool)
      requires Valid()
      requires sigs.keys == KeysAfter(keys0, done) && Reflects(sigs.values, done, olds)
      modifies this`sigs
      ensures Valid()
      ensures ok <==> Accepts(rec)
      ensures ok ==> sigs.keys == KeysAfter(keys0, done + [rec]) && Reflects(sigs.values, done + [rec], olds)
      ensures !ok ==> sigs == old(sigs)
      ensures !ok ==> sigs.keys == KeysAfter(keys0, done) && Reflects(sigs.values, done, olds)
    {
      var r := SIG.FromDict(rec);
      if r.None? {
        return false;
      }
      KeysStep(sigs, keys0, done, rec, r.value);
      ReflectsStep(sigs, done, rec, r.value, olds);
      Insert(r.value);
      ok := true;
    }

    /**
     * `get_associated_sigs(x)`: the acronyms of the SIGs associated with `x`, each once,
     * in the registry's insertion order.
     */
    function AssociatedSigs(x: string): (r: seq<string>)
      reads this, Members()
      ensures SubsequenceOf(r, sigs.keys)
      ensures Distinct(r)
      ensures forall a :: a in r <==> a in sigs.values && sigs.values[a].IsAssociatedWith(x)
    {
      FilterAssociated(sigs.keys, x)
    }

    /** The acronyms among `ks` whose SIG is associated with `x`, in the order of `ks`. */
    function FilterAssociated(ks: seq<string>, x: string): (r: seq<string>)
      reads this, Members()
      requires forall i :: 0 <= i < |ks| ==> ks[i] in sigs.values
      ensures SubsequenceOf(r, ks)
      ensures Distinct(ks) ==> Distinct(r)
      ensures forall a :: a in r <==> a in ks && sigs.values[a].IsAssociatedWith(x)
    {
      if ks == [] then []
      else
        var rest := FilterAssociated(ks[1..], x);
        if sigs.values[ks[0]].IsAssociatedWith(x) then [ks[0]] + rest else rest
    }

    /** `items()`: every (acronym, SIG) pair, in insertion order. */
    function Items(): (r: seq<(string, SIG)>)
      reads this
      ensures |r| == |sigs.keys|
      ensures forall i :: 0 <= i < |r| ==> r[i].0 == sigs.keys[i] && r[i].1 == sigs.values[sigs.keys[i]]
    {
      seq(|sigs.keys|, i requires 0 <= i < |sigs.keys| reads this => (sigs.keys[i], sigs.values[sigs.keys[i]]))
    }
  }

  /**
   * Each SIG in `d` is the one built from the last of `done` with its acronym, or, when
   * no record of `done` has its acronym, the SIG `olds` held before.
   */
  ghost predicate Reflects(d: map<string, SIG>, done: seq<Record>, olds: map<string, SIG>)
    reads d.Values
  {
    forall a :: a in d ==>
      var last := LastRecord(done);
      if a in last then d[a].Built(last[a]) else a in olds && d[a] == olds[a]
  }

  /** Inserting the acronym of one more record extends the key order as `KeysAfter` says. */
  lemma KeysStep(d: ODict<string, SIG>, keys0: seq<string>, done: seq<Record>, rec: Record, sig: SIG)
    requires sig.acronym == rec.shortName
    requires d.keys == KeysAfter(keys0, done)
    ensures Put(d, sig.acronym, sig).keys == KeysAfter(keys0, done + [rec])
  {
    assert (done + [rec])[..|done|] == done;
    assert sig.acronym in d.values <==> sig.acronym in d.keys;
  }

  /** Inserting the SIG built from one more record keeps `Reflects`. */
  lemma ReflectsStep(d: ODict<string, SIG>, done: seq<Record>, rec: Record, sig: SIG, olds: map<string, SIG>)
    requires Reflects(d.values, done, olds)
    requires sig.Built(rec)
    ensures Reflects(Put(d, sig.acronym, sig).values, done + [rec], olds)
  {
    assert (done + [rec])[..|done|] == done;
  }

  lemma HoldsForOneMore<T>(xs: seq<T>, p: T -> bool, i: nat)
    requires HoldsFor(xs, p, i) && i < |xs| && p(xs[i])
    ensures HoldsFor(xs, p, i + 1)
  {
  }

  /** `LeadingCount` stops at the first element that fails `p`. */
  lemma {:induction false} LeadingCountStops<T>(xs: seq<T>, p: T -> bool)
    ensures HoldsFor(xs, p, LeadingCount(xs, p))
    ensures LeadingCount(xs, p) < |xs| ==> !p(xs[LeadingCount(xs, p)])
  {
    if xs != [] && p(xs[0]) {
      LeadingCountStops(xs[1..], p);
      forall k | 0 <= k < LeadingCount(xs, p) ensures p(xs[k]) {
        if k > 0 {
          assert xs[k] == xs[1..][k - 1];
        }
      }
    }
  }

  /** When the first `i` elements satisfy `p` and element `i` does not (or there is none), `i` is the count. */
  lemma {:induction false} LeadingCountAt<T>(xs: seq<T>, p: T -> bool, i: nat)
    requires HoldsFor(xs, p, i)
    requires i < |xs| ==> !p(xs[i])
    ensures LeadingCount(xs, p) == i
  {
    if i > 0 {
      assert HoldsFor(xs[1..], p, i - 1) by {
        forall k | 0 <= k < i - 1 ensures p(xs[1..][k]) {
          assert xs[1..][k] == xs[k + 1];
        }
      }
      LeadingCountAt(xs[1..], p, i - 1);
    }
  }
}
