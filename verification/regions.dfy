/**
 * The region filter that opens `Sniff` in both engines: the configured
 * entries (`"P"` for a whole province, `"P-c"` for one city of it) select a
 * sub-map of the province-to-cities codebook.  The two engines carry the
 * same code, so it is modelled once.
 */
module Regions {
  import opened Domain
  import opened Strings

  /** A configured region entry, as splitting it on `-` classifies it. */
  datatype Entry = WholeProvince(province: string) | OneCity(province: string, city: string) | Malformed

  function ParseEntry(region: string): Entry
  {
    var parts := Split(region, "-");
    if |parts| == 1 then WholeProvince(parts[0])
    else if |parts| == 2 then OneCity(parts[0], parts[1])
    else Malformed
  }

  /**
   * What an entry names: a bare entry is the whole string and has no dash,
   * a city entry is exactly one dash between two dash-free names, and
   * every other string is malformed.
   */
  lemma ParseEntryMeaning(region: string)
    ensures ParseEntry(region).WholeProvince? ==>
      region == ParseEntry(region).province && '-' !in region
    ensures ParseEntry(region).OneCity? ==>
      region == ParseEntry(region).province + "-" + ParseEntry(region).city &&
      '-' !in ParseEntry(region).province && '-' !in ParseEntry(region).city
  {
    var parts := Split(region, "-");
    JoinSplit(region, "-");
    SplitPiecesFree(region, '-');
    if |parts| == 2 {
      assert parts[1..] == [parts[1]];
    }
  }

  /** Formatting a province, or a province and a city, and parsing it back gives the same entry. */
  lemma ParseEntryRoundTrip(p: string, c: string)
    requires '-' !in p && '-' !in c
    ensures ParseEntry(p) == WholeProvince(p)
    ensures ParseEntry(p + "-" + c) == OneCity(p, c)
  {
    SplitOnChar(p, '-', c);
  }

  /** The selection built so far, with the entries reported as not matching. */
  datatype Selection = Selection(chosen: Codebook, unmatched: seq<string>)

  /** The first city called `name`, if any. */
  function FirstNamed(cities: seq<City>, name: string): (r: Option<City>)
    ensures r.None? <==> forall k :: 0 <= k < |cities| ==> cities[k].name != name
    ensures r.Some? ==> exists k :: (0 <= k < |cities| && cities[k] == r.value &&
      r.value.name == name && forall j :: 0 <= j < k ==> cities[j].name != name)
  {
    if |cities| == 0 then None
    else if cities[0].name == name then Some(cities[0])
    else
      var r := FirstNamed(cities[1..], name);
      assert forall k :: 1 <= k < |cities| ==> cities[1..][k - 1] == cities[k];
      r
  }

  /** The message of the panic a `"P-c"` entry with an unknown `P` raises. */
  const MissingProvincePanic := "interface conversion: interface {} is nil, not []interface {}"

  /** One entry applied to the selection built so far. */
  function Apply(book: Codebook, sel: Selection, region: string): Result<Selection>
  {
    match ParseEntry(region)
    case WholeProvince(p) =>
      if p in book then Success(Selection(sel.chosen[p := book[p]], sel.unmatched))
      else Success(Selection(sel.chosen, sel.unmatched + [region]))
    case OneCity(p, c) =>
      if p !in book then Failure(Panic(MissingProvincePanic))
      else (match FirstNamed(book[p], c)
        case Some(city) => Success(Selection(sel.chosen[p := [city]], sel.unmatched))
        case None => Success(Selection(sel.chosen - {p}, sel.unmatched + [region])))
    case Malformed => Success(Selection(sel.chosen, sel.unmatched + [region]))
  }

  /** The entries applied one after another, starting from an empty selection. */
  function Fold(book: Codebook, regions: seq<string>): Result<Selection>
    decreases |regions|
  {
    if |regions| == 0 then Success(Selection(map[], []))
    else match Fold(book, regions[..|regions| - 1])
      case Failure(e) => Failure(e)
      case Success(sel) => Apply(book, sel, regions[|regions| - 1])
  }

  /** The region filter: no entries at all select the whole codebook. */
  function Select(book: Codebook, regions: seq<string>): Result<Selection>
  {
    if |regions| == 0 then Success(Selection(book, [])) else Fold(book, regions)
  }

  /** Once an entry has panicked, no later entry is looked at. */
  lemma {:induction false} FoldFailureSticks(book: Codebook, regions: seq<string>, n: nat)
    requires n <= |regions|
    requires Fold(book, regions[..n]).Failure?
    ensures Fold(book, regions) == Fold(book, regions[..n])
    decreases |regions| - n
  {
    if n < |regions| {
      assert regions[..n + 1][..n] == regions[..n];
      FoldFailureSticks(book, regions, n + 1);
    } else {
      assert regions[..n] == regions;
    }
  }

  /**
   * One pass of the source's loop over the entries: a whole province is
   * copied, a city entry resets its province before looking for the named
   * city and deletes it again when no city matched, and anything else is
   * reported as unmatched.
   */
  method ApplyEntry(book: Codebook, chosen: Codebook, unmatched: seq<string>, region: string) returns (r: Result<Selection>)
    ensures r == Apply(book, Selection(chosen, unmatched), region)
    ensures r.Failure? ==> r.error == Panic(MissingProvincePanic)
  {
    var parts := Split(region, "-");
    if |parts| == 1 {
      if parts[0] in book {
        return Success(Selection(chosen[parts[0] := book[parts[0]]], unmatched));
      }
    } else if |parts| == 2 {
      var p, c := parts[0], parts[1];
      if p !in book {
        return Failure(Panic(MissingProvincePanic));
      }
      var next := chosen[p := []];
      var cities := book[p];
      var j := 0;
      while j < |cities|
        invariant 0 <= j <= |cities|
        invariant next == chosen[p := []]
        invariant forall k :: 0 <= k < j ==> cities[k].name != c
      {
        if cities[j].name == c {
          assert next[p] + [cities[j]] == [cities[j]];
          next := next[p := next[p] + [cities[j]]];
          break;
        }
        j := j + 1;
      }
      if |next[p]| > 0 {
        assert FirstNamed(cities, c) == Some(cities[j]);
        assert next == chosen[p := [cities[j]]];
        return Success(Selection(next, unmatched));
      }
      assert FirstNamed(cities, c) == None;
      assert next - {p} == chosen - {p};
      return Success(Selection(next - {p}, unmatched + [region]));
    }
    return Success(Selection(chosen, unmatched + [region]));
  }

  /**
   * The loop of the source: builds the selection entry by entry and stops
   * at the first entry that panics.
   */
  method SelectRegions(book: Codebook, regions: seq<string>) returns (r: Result<Selection>)
    ensures r == Select(book, regions)
    ensures |regions| == 0 ==> r == Success(Selection(book, []))
  {
    if |regions| == 0 {
      return Success(Selection(book, []));
    }
    var chosen: Codebook := map[];
    var unmatched: seq<string> := [];
    var i := 0;
    while i < |regions|
      invariant 0 <= i <= |regions|
      invariant Fold(book, regions[..i]) == Success(Selection(chosen, unmatched))
    {
      assert regions[..i + 1][..i] == regions[..i];
      var next := ApplyEntry(book, chosen, unmatched, regions[i]);
      if next.Failure? {
        FoldFailureSticks(book, regions, i + 1);
        return next;
      }
      chosen, unmatched := next.value.chosen, next.value.unmatched;
      i := i + 1;
    }
    assert regions[..i] == regions;
    return Success(Selection(chosen, unmatched));
  }

  /** Every selected province is a province of the codebook, with either all its cities or one of them. */
  ghost predicate WithinBook(chosen: Codebook, book: Codebook)
  {
    forall p | p in chosen :: p in book &&
      (chosen[p] == book[p] || (|chosen[p]| == 1 && chosen[p][0] in book[p]))
  }

  lemma {:induction false} FoldWithinBook(book: Codebook, regions: seq<string>)
    ensures Fold(book, regions).Success? ==> WithinBook(Fold(book, regions).value.chosen, book)
    decreases |regions|
  {
    if |regions| > 0 {
      FoldWithinBook(book, regions[..|regions| - 1]);
      var r := Fold(book, regions[..|regions| - 1]);
      if r.Success? {
        match ParseEntry(regions[|regions| - 1])
        case WholeProvince(p) =>
        case OneCity(p, c) =>
          if p in book {
            var f := FirstNamed(book[p], c);
            if f.Some? {
              var k :| 0 <= k < |book[p]| && book[p][k] == f.value;
            }
          }
        case Malformed =>
      }
    }
  }

  /** The filter never selects anything the codebook does not hold. */
  lemma SelectionWithinBook(book: Codebook, regions: seq<string>)
    ensures Select(book, regions).Success? ==> WithinBook(Select(book, regions).value.chosen, book)
  {
    FoldWithinBook(book, regions);
  }

  /** An entry `"P-c"` whose province `P` is not in the codebook. */
  predicate PanicsOn(book: Codebook, region: string)
  {
    ParseEntry(region).OneCity? && ParseEntry(region).province !in book
  }

  /**
   * The filter fails exactly when some entry names a city of a province the
   * codebook lacks, and then with the panic of the failed type assertion;
   * unknown bare provinces and malformed entries never fail it.
   */
  lemma {:induction false} FailsExactlyOnUnknownProvince(book: Codebook, regions: seq<string>)
    ensures Fold(book, regions).Failure? <==> exists i :: 0 <= i < |regions| && PanicsOn(book, regions[i])
    ensures Fold(book, regions).Failure? ==> Fold(book, regions).error == Panic(MissingProvincePanic)
    decreases |regions|
  {
    if |regions| > 0 {
      var front := regions[..|regions| - 1];
      FailsExactlyOnUnknownProvince(book, front);
      assert forall i :: 0 <= i < |front| ==> front[i] == regions[i];
      if exists i :: 0 <= i < |regions| && PanicsOn(book, regions[i]) {
        var i :| 0 <= i < |regions| && PanicsOn(book, regions[i]);
        if i < |front| {
          assert PanicsOn(book, front[i]);
        }
      }
    }
  }

  /** Whether an entry selects anything, judged on the codebook alone. */
  predicate Matches(book: Codebook, region: string)
  {
    match ParseEntry(region)
    case WholeProvince(p) => p in book
    case OneCity(p, c) => p in book && exists k :: 0 <= k < |book[p]| && book[p][k].name == c
    case Malformed => false
  }

  /**
   * The entries reported as not matching are exactly the configured entries
   * that select nothing: unknown bare provinces, cities not found, and
   * entries with more than one dash.
   */
  lemma {:induction false} UnmatchedAreReported(book: Codebook, regions: seq<string>)
    ensures Fold(book, regions).Success? ==>
      forall r :: r in Fold(book, regions).value.unmatched <==> r in regions && !Matches(book, r)
    decreases |regions|
  {
    if |regions| > 0 {
      var front, last := regions[..|regions| - 1], regions[|regions| - 1];
      UnmatchedAreReported(book, front);
      assert regions == front + [last];
      var r := Fold(book, front);
      if r.Success? {
        match ParseEntry(last)
        case WholeProvince(p) =>
        case OneCity(p, c) =>
          if p in book {
            var f := FirstNamed(book[p], c);
            if f.Some? {
              var k :| 0 <= k < |book[p]| && book[p][k] == f.value && f.value.name == c;
              assert Matches(book, last);
            }
          }
        case Malformed =>
      }
    }
  }

  /** A later bare entry `P` replaces whatever was selected for `P` by the whole province; nothing else changes. */
  lemma WholeEntryCopies(book: Codebook, regions: seq<string>, p: string)
    requires '-' !in p && p in book
    requires Fold(book, regions).Success?
    ensures var before := Fold(book, regions).value;
      Select(book, regions + [p]) == Success(Selection(before.chosen[p := book[p]], before.unmatched))
  {
    ParseEntryRoundTrip(p, "");
    assert (regions + [p])[..|regions|] == regions;
  }

  /** A later malformed entry, or a bare entry naming no province of the codebook, is only reported; the selection is kept. */
  lemma SkippedEntryKeepsSelection(book: Codebook, regions: seq<string>, e: string)
    requires ParseEntry(e).Malformed? || (ParseEntry(e).WholeProvince? && e !in book)
    requires Fold(book, regions).Success?
    ensures var before := Fold(book, regions).value;
      Select(book, regions + [e]) == Success(Selection(before.chosen, before.unmatched + [e]))
  {
    ParseEntryMeaning(e);
    assert (regions + [e])[..|regions|] == regions;
  }

  /**
   * A later entry `"P-c"` resets `P` and keeps only the first city named `c`,
   * whatever was selected for `P` before; nothing else changes.
   */
  lemma CityEntryOverrides(book: Codebook, regions: seq<string>, p: string, c: string, k: nat)
    requires '-' !in p && '-' !in c && p in book
    requires k < |book[p]| && book[p][k].name == c
    requires forall j :: 0 <= j < k ==> book[p][j].name != c
    requires Fold(book, regions).Success?
    ensures var before := Fold(book, regions).value;
      Select(book, regions + [p + "-" + c]) == Success(Selection(before.chosen[p := [book[p][k]]], before.unmatched))
  {
    ParseEntryRoundTrip(p, c);
    assert (regions + [p + "-" + c])[..|regions|] == regions;
    var f := FirstNamed(book[p], c);
    var m :| 0 <= m < |book[p]| && book[p][m] == f.value && f.value.name == c &&
      forall j :: 0 <= j < m ==> book[p][j].name != c;
    assert m == k;
  }

  /**
   * A later entry `"P-c"` naming no city of `P` removes `P` from the
   * selection, even if an earlier entry had selected it, and is reported.
   */
  lemma CityEntryMissDeletes(book: Codebook, regions: seq<string>, p: string, c: string)
    requires '-' !in p && '-' !in c && p in book
    requires forall j :: 0 <= j < |book[p]| ==> book[p][j].name != c
    requires Fold(book, regions).Success?
    ensures var before := Fold(book, regions).value;
      Select(book, regions + [p + "-" + c]) ==
        Success(Selection(before.chosen - {p}, before.unmatched + [p + "-" + c]))
  {
    ParseEntryRoundTrip(p, c);
    assert (regions + [p + "-" + c])[..|regions|] == regions;
  }

  /** The worked scenario: with provinces A and B, the filter `["A"]` keeps A alone. */
  lemma SelectOneProvince()
    ensures var a1, b1 := City("a1", "001"), City("b1", "002");
      Select(map["A" := [a1], "B" := [b1]], ["A"]) == Success(Selection(map["A" := [a1]], []))
  {
    ParseEntryRoundTrip("A", "");
    assert ["A"][..0] == [];
  }
}
