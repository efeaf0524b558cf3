/**
 * Citation alerts: building the reference records from the bibliography
 * entries already parsed out of the TEI document, and the filter that keeps
 * the references older than a given number of years. The current year is a
 * parameter.
 */
module CitationAlerts {
  import opened Wrappers
  import opened Seqs
  import opened PyStr
  import opened Json

  /**
   * One parsed `biblStruct`: the text of its first title element (null when
   * there is no title element or it has no text) and the "when" attribute
   * of its first date element (None when there is no such attribute).
   */
  datatype ParsedEntry = ParsedEntry(title: Value, when: Option<string>)

  /** A reference record: a title and a year, each a string or null. */
  datatype Reference = Reference(title: Value, year: Value)

  /** The year: the first four characters of the date's "when" attribute, or null when there is no such attribute. */
  function YearOf(e: ParsedEntry): (year: Value)
    ensures year.Null? <==> e.when.None?
    ensures year.Str? ==> |year.s| == Min(4, |e.when.value|) && year.s == e.when.value[..|year.s|]
  {
    if e.when.None? then Null else Str(e.when.value[..Min(4, |e.when.value|)])
  }

  function ToReference(e: ParsedEntry): Reference
  {
    Reference(e.title, YearOf(e))
  }

  /** An entry is kept when its title or its year is a non-empty string. */
  predicate IsKept(e: ParsedEntry)
  {
    Truthy(e.title) || Truthy(YearOf(e))
  }

  /** The records of the kept entries, in entry order. */
  function KeptReferences(entries: seq<ParsedEntry>): seq<Reference>
    decreases |entries|
  {
    if |entries| == 0 then []
    else
      var n := |entries| - 1;
      KeptReferences(entries[..n]) + (if IsKept(entries[n]) then [ToReference(entries[n])] else [])
  }

  /** A record with a truthy title or year: the records `if title or year` keeps. */
  predicate HasTitleOrYear(r: Reference)
  {
    Truthy(r.title) || Truthy(r.year)
  }

  /**
   * A record is produced exactly for the entries with a truthy title or
   * year, once per such entry, and the records follow the entries' order.
   */
  lemma {:induction false} KeptReferencesSpec(entries: seq<ParsedEntry>)
    ensures forall r :: r in KeptReferences(entries) <==>
              exists k :: 0 <= k < |entries| && IsKept(entries[k]) && r == ToReference(entries[k])
    ensures forall r :: multiset(KeptReferences(entries))[r] ==
              if HasTitleOrYear(r) then multiset(Map(ToReference, entries))[r] else 0
    ensures IsSubsequence(KeptReferences(entries), Map(ToReference, entries))
    decreases |entries|
  {
    KeptReferencesCount(entries);
    if |entries| > 0 {
      var n := |entries| - 1;
      var init := entries[..n];
      KeptReferencesSpec(init);
      var prev := KeptReferences(init);
      var all := Map(ToReference, entries);
      assert Map(ToReference, init) == all[..n];
      if IsKept(entries[n]) {
        var kept := prev + [ToReference(entries[n])];
        assert KeptReferences(entries) == kept;
        assert kept[..|kept| - 1] == prev;
      } else {
        assert KeptReferences(entries) == prev;
      }
      forall r | r in KeptReferences(entries)
        ensures exists k :: 0 <= k < |entries| && IsKept(entries[k]) && r == ToReference(entries[k])
      {
        if r in prev {
          var k :| 0 <= k < |init| && IsKept(init[k]) && r == ToReference(init[k]);
          assert init[k] == entries[k];
        }
      }
      forall r, k | 0 <= k < |entries| && IsKept(entries[k]) && r == ToReference(entries[k])
        ensures r in KeptReferences(entries)
      {
        if k < n {
          assert init[k] == entries[k];
        }
      }
    }
  }

  /** Each kept record occurs as often as the entries that produce it. */
  lemma {:induction false} KeptReferencesCount(entries: seq<ParsedEntry>)
    ensures forall r :: multiset(KeptReferences(entries))[r] ==
              if HasTitleOrYear(r) then multiset(Map(ToReference, entries))[r] else 0
    decreases |entries|
  {
    if |entries| > 0 {
      var n := |entries| - 1;
      var init := entries[..n];
      KeptReferencesCount(init);
      var prev := KeptReferences(init);
      var last := ToReference(entries[n]);
      var all := Map(ToReference, entries);
      assert Map(ToReference, init) == all[..n];
      assert all == all[..n] + [last];
      assert multiset(all) == multiset(all[..n]) + multiset{last};
      assert IsKept(entries[n]) <==> HasTitleOrYear(last);
      if IsKept(entries[n]) {
        assert KeptReferences(entries) == prev + [last];
        assert multiset(prev + [last]) == multiset(prev) + multiset{last};
      } else {
        assert KeptReferences(entries) == prev;
      }
    }
  }

  /** The record-building loop of extract_references_from_grobid. */
  method ExtractReferences(entries: seq<ParsedEntry>) returns (references: seq<Reference>)
    ensures references == KeptReferences(entries)
  {
    references := [];
    var i := 0;
    while i < |entries|
      invariant 0 <= i <= |entries|
      invariant references == KeptReferences(entries[..i])
    {
      assert entries[..i + 1][..i] == entries[..i];
      var year: Value := Null;
      var title: Value := Null;
      if entries[i].when.Some? {
        var when := entries[i].when.value;
        year := Str(when[..Min(4, |when|)]);
      }
      title := entries[i].title;
      if Truthy(title) || Truthy(year) {
        references := references + [Reference(title, year)];
      }
      i := i + 1;
    }
    assert entries[..i] == entries;
  }

  // ------------------------------------------------------------ outdated filter

  /**
   * A reference is outdated when its year is a non-empty digit string and
   * `currentYear` minus its value exceeds `yearThreshold`.
   */
  predicate IsOutdated(r: Reference, yearThreshold: int, currentYear: int)
  {
    Truthy(r.year) && IsDigits(r.year.s) && currentYear - DigitsToNat(r.year.s) > yearThreshold
  }

  /** The outdated references, in input order. */
  function Outdated(refs: seq<Reference>, yearThreshold: int, currentYear: int): seq<Reference>
    decreases |refs|
  {
    if |refs| == 0 then []
    else
      var n := |refs| - 1;
      Outdated(refs[..n], yearThreshold, currentYear)
        + (if IsOutdated(refs[n], yearThreshold, currentYear) then [refs[n]] else [])
  }

  /**
   * The outdated references are exactly the inputs with a digit year older
   * than the threshold, each kept as often as it occurs, in their order.
   */
  lemma {:induction false} OutdatedSpec(refs: seq<Reference>, yearThreshold: int, currentYear: int)
    ensures forall r :: r in Outdated(refs, yearThreshold, currentYear) <==>
              r in refs && IsOutdated(r, yearThreshold, currentYear)
    ensures forall r :: multiset(Outdated(refs, yearThreshold, currentYear))[r] ==
              if IsOutdated(r, yearThreshold, currentYear) then multiset(refs)[r] else 0
    ensures IsSubsequence(Outdated(refs, yearThreshold, currentYear), refs)
    decreases |refs|
  {
    if |refs| > 0 {
      var n := |refs| - 1;
      var init := refs[..n];
      OutdatedSpec(init, yearThreshold, currentYear);
      assert refs == init + [refs[n]];
      var prev := Outdated(init, yearThreshold, currentYear);
      assert multiset(refs) == multiset(init) + multiset{refs[n]};
      if IsOutdated(refs[n], yearThreshold, currentYear) {
        var kept := prev + [refs[n]];
        assert Outdated(refs, yearThreshold, currentYear) == kept;
        assert kept[..|kept| - 1] == prev;
        assert multiset(kept) == multiset(prev) + multiset{refs[n]};
      } else {
        assert Outdated(refs, yearThreshold, currentYear) == prev;
      }
    }
  }

  /**
   * The age comparison is strict: a year exactly `yearThreshold` years back
   * is not outdated, one year more is; and a reference without a digit year
   * is never outdated.
   */
  lemma OutdatedBoundary(title: Value, year: nat, yearThreshold: int)
    ensures !IsOutdated(Reference(title, Str(NatToDigits(year))), yearThreshold, year + yearThreshold)
    ensures IsOutdated(Reference(title, Str(NatToDigits(year))), yearThreshold, year + yearThreshold + 1)
    ensures forall r: Reference, cy: int :: !(Truthy(r.year) && IsDigits(r.year.s)) ==> !IsOutdated(r, yearThreshold, cy)
  {
    DigitsRoundTrip(year);
  }

  /** check_outdated_references with the current year as a parameter. */
  method CheckOutdatedReferences(references: seq<Reference>, yearThreshold: int, currentYear: int)
    returns (outdated: seq<Reference>)
    ensures outdated == Outdated(references, yearThreshold, currentYear)
  {
    outdated := [];
    var i := 0;
    while i < |references|
      invariant 0 <= i <= |references|
      invariant outdated == Outdated(references[..i], yearThreshold, currentYear)
    {
      assert references[..i + 1][..i] == references[..i];
      var r := references[i];
      if Truthy(r.year) && IsDigits(r.year.s) {
        if currentYear - DigitsToNat(r.year.s) > yearThreshold {
          outdated := outdated + [r];
        }
      }
      i := i + 1;
    }
    assert references[..i] == references;
  }

  /** The saved citation report. */
  datatype CitationReport = CitationReport(totalReferences: nat, outdatedReferences: seq<Reference>)

  /**
   * The script's main without its I/O: total_references counts the kept
   * records, and the outdated list filters those same records.
   */
  method CitationAlerts(entries: seq<ParsedEntry>, yearThreshold: int, currentYear: int)
    returns (report: CitationReport)
    ensures report.totalReferences == |KeptReferences(entries)|
    ensures report.outdatedReferences == Outdated(KeptReferences(entries), yearThreshold, currentYear)
  {
    var refs := ExtractReferences(entries);
    var outdatedRefs := CheckOutdatedReferences(refs, yearThreshold, currentYear);
    report := CitationReport(|refs|, outdatedRefs);
  }
}
