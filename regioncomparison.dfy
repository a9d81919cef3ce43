/** The comparison between regions (`scripts/comparar_regiones.py`): the
    `NIVEL GENERAL` rows of every region, the sorted list of regions, the
    12- and 24-month windows anchored at the latest period, the ranking of
    regions by their growth over the last twelve months, the region × month
    heatmap of monthly changes, and the rows of the current period ordered
    by index. */
module RegionComparison {

  import opened Wrappers
  import opened Sequences
  import opened Text
  import opened Periods
  import opened CpiTable

  const GeneralLevel: string := "NIVEL GENERAL"

  /** Line 34: the rows whose description is `NIVEL GENERAL`, in table
      order; a missing description never matches. */
  function GeneralLevelRows(rows: seq<Row>): (r: seq<Row>)
    ensures forall x :: x in r <==> x in rows && x.description == Some(GeneralLevel)
    ensures forall x :: multiset(r)[x] == if x.description == Some(GeneralLevel) then multiset(rows)[x] else 0
  {
    Filter(rows, (x: Row) => x.description == Some(GeneralLevel))
  }

  /** Lines 173-175 and 214-215: the twelve-month window lies inside the
      24-month window, is the same as the twelve-month window taken of it,
      and both end at the latest period of the whole table. */
  lemma {:induction false} YearWithinTwoYears(ng: seq<Row>)
    ensures Window(Window(ng, 24), 12) == Window(ng, 12)
    ensures forall x :: x in Window(ng, 12) ==> x in Window(ng, 24)
    ensures ng != [] ==>
              Window(ng, 12) != [] && LatestPeriod(Window(ng, 12)) == LatestPeriod(ng) &&
              Window(ng, 24) != [] && LatestPeriod(Window(ng, 24)) == LatestPeriod(ng)
  {
    WindowNested(ng, 12, 24);
    if ng != [] {
      WindowBounds(ng, 12);
      WindowBounds(ng, 24);
      WindowLatest(ng, 12);
      WindowLatest(ng, 24);
    }
  }

  // ---- the ranking (lines 178-187)

  /** One row of `inflacion_por_region`; `None` is a NaN growth. */
  datatype RankEntry = RankEntry(region: string, value: Option<real>)

  function EntryValue(e: RankEntry): Option<real> { e.value }

  function EntryRegion(e: RankEntry): string { e.region }

  /** Line 180: the window's rows of one region, in period order. */
  function RegionRows(window: seq<Row>, region: string): seq<Row> {
    SortBy(OfRegion(window, region), PeriodKey)
  }

  /** Lines 181-185 for one region: an entry computed from its first and
      last rows when it has at least two. */
  function EntryOf(window: seq<Row>, region: string, growth: (Row, Row) -> Option<real>): (r: seq<RankEntry>)
    ensures |r| <= 1
    ensures r != [] <==> |OfRegion(window, region)| >= 2
    ensures forall e :: e in r ==> e.region == region
  {
    if |RegionRows(window, region)| >= 2 then [EntryFrom(region, RegionRows(window, region), growth)] else []
  }

  /** The entry of a region whose rows, in period order, are `d`. */
  function EntryFrom(region: string, d: seq<Row>, growth: (Row, Row) -> Option<real>): RankEntry
    requires d != []
  {
    RankEntry(region, growth(d[0], d[|d| - 1]))
  }

  /** The entries the loop appends for `regions`, in their order. */
  function Entries(regions: seq<string>, window: seq<Row>, growth: (Row, Row) -> Option<real>): seq<RankEntry>
    decreases |regions|
  {
    if regions == [] then []
    else Entries(regions[..|regions| - 1], window, growth) + EntryOf(window, regions[|regions| - 1], growth)
  }

  /** Region `g` has an entry in `s`. */
  predicate HasEntry(s: seq<RankEntry>, g: string) {
    exists e :: e in s && e.region == g
  }

  /** One region's step appends an entry for it exactly when it has at least
      two rows in the window. */
  lemma {:induction false} EntryOfEligible(window: seq<Row>, region: string, growth: (Row, Row) -> Option<real>, g: string)
    ensures HasEntry(EntryOf(window, region, growth), g) <==> region == g && |OfRegion(window, g)| >= 2
  {
    if region == g && |RegionRows(window, region)| >= 2 {
      assert EntryOf(window, region, growth)[0].region == g;
    }
  }

  /** An entry of a concatenation is an entry of one of its parts. */
  lemma {:induction false} HasEntryAppend(a: seq<RankEntry>, b: seq<RankEntry>, g: string)
    ensures HasEntry(a + b, g) <==> HasEntry(a, g) || HasEntry(b, g)
  {
    if HasEntry(a + b, g) {
      var e :| e in a + b && e.region == g;
      assert e in a || e in b;
    }
    if HasEntry(a, g) {
      var e :| e in a && e.region == g;
      assert e in a + b;
    }
    if HasEntry(b, g) {
      var e :| e in b && e.region == g;
      assert e in a + b;
    }
  }

  /** A region has an entry exactly when it is listed and has at least two
      rows in the window. */
  lemma {:induction false} EntriesEligible(regions: seq<string>, window: seq<Row>, growth: (Row, Row) -> Option<real>, g: string)
    ensures HasEntry(Entries(regions, window, growth), g) <==> g in regions && |OfRegion(window, g)| >= 2
    decreases |regions|
  {
    if regions != [] {
      var init := regions[..|regions| - 1];
      var last := regions[|regions| - 1];
      EntriesEligible(init, window, growth, g);
      EntryOfEligible(window, last, growth, g);
      HasEntryAppend(Entries(init, window, growth), EntryOf(window, last, growth), g);
      InitLast(regions);
    }
  }

  /** Listed regions that are distinct get distinct entries. */
  lemma {:induction false} EntriesDistinct(regions: seq<string>, window: seq<Row>, growth: (Row, Row) -> Option<real>)
    requires StrictlyAscending(regions)
    ensures DistinctBy(Entries(regions, window, growth), EntryRegion)
    decreases |regions|
  {
    if regions != [] {
      var init := regions[..|regions| - 1];
      var last := regions[|regions| - 1];
      assert StrictlyAscending(init) by {
        forall i, j | 0 <= i < j < |init| ensures LexLess(init[i], init[j]) {
          assert init[i] == regions[i] && init[j] == regions[j];
        }
      }
      EntriesDistinct(init, window, growth);
      var front := Entries(init, window, growth);
      var tail := EntryOf(window, last, growth);
      forall i, j | 0 <= i < |front| && 0 <= j < |tail| ensures EntryRegion(front[i]) != EntryRegion(tail[j]) {
        assert front[i] in front && tail[j] in tail;
        EarlierRegion(regions, window, growth, front[i]);
      }
      DistinctByAppend(front, tail, EntryRegion);
    }
  }

  /** The entries for all but the last listed region are for regions that
      sort before it. */
  lemma {:induction false} EarlierRegion(regions: seq<string>, window: seq<Row>, growth: (Row, Row) -> Option<real>, e: RankEntry)
    requires StrictlyAscending(regions) && regions != []
    requires e in Entries(regions[..|regions| - 1], window, growth)
    ensures e.region != regions[|regions| - 1]
  {
    var init := regions[..|regions| - 1];
    var last := regions[|regions| - 1];
    assert HasEntry(Entries(init, window, growth), e.region);
    EntriesEligible(init, window, growth, e.region);
    var k :| 0 <= k < |init| && init[k] == e.region;
    assert LexLess(regions[k], regions[|regions| - 1]);
    LexLessIrreflexive(last);
  }

  /** `e` was computed from row `a`, the region's earliest row of the
      window, and row `b`, its latest. */
  predicate FromEndpoints(window: seq<Row>, growth: (Row, Row) -> Option<real>, e: RankEntry, a: Row, b: Row) {
    a in window && b in window && a.region == e.region && b.region == e.region &&
    (forall x :: x in window && x.region == e.region ==> a.period <= x.period <= b.period) &&
    e.value == growth(a, b)
  }

  /** The first and last of a region's rows in period order are its
      earliest and latest rows of the window. */
  lemma {:induction false} EntryOfEndpoints(window: seq<Row>, region: string, growth: (Row, Row) -> Option<real>, e: RankEntry)
    requires e in EntryOf(window, region, growth)
    ensures exists a, b :: FromEndpoints(window, growth, e, a, b)
  {
    var d := RegionRows(window, region);
    assert e == EntryFrom(region, d, growth);
    EndpointsEntry(window, region, growth, d);
  }

  lemma {:induction false} EndpointsEntry(window: seq<Row>, region: string, growth: (Row, Row) -> Option<real>, d: seq<Row>)
    requires d == RegionRows(window, region) && d != []
    ensures FromEndpoints(window, growth, EntryFrom(region, d, growth), d[0], d[|d| - 1])
  {
    RegionEndpoints(window, region, d);
  }

  /** The first and last of a region's rows in period order are rows of that
      region in the window, and bound the periods of all of them. */
  lemma {:induction false} RegionEndpoints(window: seq<Row>, region: string, d: seq<Row>)
    requires d == RegionRows(window, region) && d != []
    ensures d[0] in window && d[0].region == region
    ensures d[|d| - 1] in window && d[|d| - 1].region == region
    ensures forall x :: x in window && x.region == region ==> d[0].period <= x.period <= d[|d| - 1].period
  {
    var own := OfRegion(window, region);
    SortedEndpoints(own, d);
    forall x | x in window && x.region == region ensures d[0].period <= x.period <= d[|d| - 1].period {
      assert x in own;
    }
  }

  /** The first and last rows of a non-empty list sorted by period bound the
      periods of every row it holds. */
  lemma {:induction false} SortedEndpoints(own: seq<Row>, d: seq<Row>)
    requires multiset(d) == multiset(own) && SortedBy(d, PeriodKey) && d != []
    ensures d[0] in own && d[|d| - 1] in own
    ensures forall x :: x in own ==> d[0].period <= x.period <= d[|d| - 1].period
  {
    assert d[0] in multiset(d) && d[|d| - 1] in multiset(d);
    forall x | x in own
      ensures d[0].period <= x.period <= d[|d| - 1].period
    {
      assert x in multiset(d);
      var k :| 0 <= k < |d| && d[k] == x;
      assert PeriodKey(d[0]) <= PeriodKey(d[k]);
      if k < |d| - 1 {
        assert PeriodKey(d[k]) <= PeriodKey(d[|d| - 1]);
      }
    }
  }

  /** Lines 180-184: an entry's figure comes from its region's earliest and
      latest rows in the window. */
  lemma {:induction false} EntriesEndpoints(regions: seq<string>, window: seq<Row>, growth: (Row, Row) -> Option<real>, e: RankEntry)
    requires e in Entries(regions, window, growth)
    ensures exists a, b :: FromEndpoints(window, growth, e, a, b)
    decreases |regions|
  {
    var init := regions[..|regions| - 1];
    var last := regions[|regions| - 1];
    if e in Entries(init, window, growth) {
      EntriesEndpoints(init, window, growth, e);
    } else {
      EntryOfEndpoints(window, last, growth, e);
    }
  }

  /** Lines 178-187: the entries of the regions that have at least two rows
      in the twelve-month window, sorted by growth with NaN last; an empty
      list cannot be sorted by a column it does not have, and aborts. */
  function RankingOf(ng: seq<Row>, growth: (Row, Row) -> Option<real>): (r: Result<seq<RankEntry>, Error>)
    ensures r.Failure? ==> r.error == EmptyRanking
    ensures r.Success? ==> r.value != []
  {
    var entries := Entries(AvailableRegions(ng), Window(ng, 12), growth);
    if entries == [] then Failure(EmptyRanking) else Success(SortNoneLast(entries, EntryValue, false))
  }

  /** Lines 178-187: the loop over the sorted regions builds the entries,
      which are then sorted. */
  method Ranking(ng: seq<Row>, growth: (Row, Row) -> Option<real>) returns (r: Result<seq<RankEntry>, Error>)
    ensures r == RankingOf(ng, growth)
  {
    var regions := AvailableRegions(ng);
    var window := Window(ng, 12);
    var ranking: seq<RankEntry> := [];
    var i := 0;
    while i < |regions|
      invariant 0 <= i <= |regions|
      invariant ranking == Entries(regions[..i], window, growth)
    {
      var datos := RegionRows(window, regions[i]);
      EntriesStep(regions, i, window, growth);
      if |datos| >= 2 {
        ranking := ranking + [EntryFrom(regions[i], datos, growth)];
      }
      i := i + 1;
    }
    assert regions[..i] == regions;
    if ranking == [] {
      r := Failure(EmptyRanking);
    } else {
      r := Success(SortNoneLast(ranking, EntryValue, false));
    }
  }

  /** The ranking aborts exactly when no region has two rows in the
      twelve-month window. */
  lemma {:induction false} RankingFails(ng: seq<Row>, growth: (Row, Row) -> Option<real>)
    ensures RankingOf(ng, growth).Failure? <==> forall g :: |OfRegion(Window(ng, 12), g)| < 2
    ensures RankingOf(ng, growth).Failure? ==> RankingOf(ng, growth).error == EmptyRanking
  {
    RankingEmpty(ng, growth);
  }

  /** A ranking holds the entries, one per region with two rows in the
      window, with the figures in ascending order and NaN last. */
  lemma {:induction false} RankingSorted(ng: seq<Row>, growth: (Row, Row) -> Option<real>)
    requires RankingOf(ng, growth).Success?
    ensures multiset(RankingOf(ng, growth).value) == multiset(Entries(AvailableRegions(ng), Window(ng, 12), growth))
    ensures forall g :: HasEntry(RankingOf(ng, growth).value, g) <==> |OfRegion(Window(ng, 12), g)| >= 2
    ensures DistinctBy(RankingOf(ng, growth).value, EntryRegion)
    ensures forall i, j :: 0 <= i < j < |RankingOf(ng, growth).value| && RankingOf(ng, growth).value[j].value.Some? ==>
              RankingOf(ng, growth).value[i].value.Some?
    ensures forall i, j ::
              0 <= i < j < |RankingOf(ng, growth).value| &&
              RankingOf(ng, growth).value[i].value.Some? && RankingOf(ng, growth).value[j].value.Some? ==>
              RankingOf(ng, growth).value[i].value.value <= RankingOf(ng, growth).value[j].value.value
  {
    var sorted := RankingOf(ng, growth).value;
    SortedRanking(ng, growth, sorted);
    forall i, j | 0 <= i < j < |sorted| ensures EntryValue(sorted[i]) == sorted[i].value && EntryValue(sorted[j]) == sorted[j].value {
    }
  }

  /** One more region appends that region's entry, if any. */
  lemma {:induction false} EntriesStep(regions: seq<string>, i: nat, window: seq<Row>, growth: (Row, Row) -> Option<real>)
    requires i < |regions|
    ensures Entries(regions[..i + 1], window, growth) ==
              Entries(regions[..i], window, growth) + EntryOf(window, regions[i], growth)
  {
    assert regions[..i + 1][..i] == regions[..i];
  }

  /** The ranking is empty exactly when no region has two rows in the
      window. */
  lemma {:induction false} RankingEmpty(ng: seq<Row>, growth: (Row, Row) -> Option<real>)
    ensures Entries(AvailableRegions(ng), Window(ng, 12), growth) == [] <==>
              forall g :: |OfRegion(Window(ng, 12), g)| < 2
  {
    var ranking := Entries(AvailableRegions(ng), Window(ng, 12), growth);
    if ranking != [] {
      assert HasEntry(ranking, ranking[0].region);
      EntriesEligible(AvailableRegions(ng), Window(ng, 12), growth, ranking[0].region);
    } else {
      EligibleListed(ng);
      forall g ensures |OfRegion(Window(ng, 12), g)| < 2 {
        EntriesEligible(AvailableRegions(ng), Window(ng, 12), growth, g);
      }
    }
  }

  /** Any reordering of the ranking holds one entry per region with two rows
      in the window. */
  lemma {:induction false} SortedRanking(ng: seq<Row>, growth: (Row, Row) -> Option<real>, sorted: seq<RankEntry>)
    requires multiset(sorted) == multiset(Entries(AvailableRegions(ng), Window(ng, 12), growth))
    ensures DistinctBy(sorted, EntryRegion)
    ensures forall g :: HasEntry(sorted, g) <==> |OfRegion(Window(ng, 12), g)| >= 2
  {
    var regions := AvailableRegions(ng);
    var window := Window(ng, 12);
    var ranking := Entries(regions, window, growth);
    EntriesDistinct(regions, window, growth);
    PermutationDistinctBy(ranking, sorted, EntryRegion);
    EligibleListed(ng);
    forall g ensures HasEntry(sorted, g) <==> |OfRegion(window, g)| >= 2 {
      EntriesEligible(regions, window, growth, g);
      forall e ensures e in sorted <==> e in ranking {
        assert e in sorted <==> e in multiset(sorted);
        assert e in ranking <==> e in multiset(ranking);
      }
    }
  }

  /** A region with rows in the window is among the regions listed. */
  lemma {:induction false} EligibleListed(ng: seq<Row>)
    ensures forall g :: |OfRegion(Window(ng, 12), g)| >= 2 ==> g in AvailableRegions(ng)
  {
    forall g | |OfRegion(Window(ng, 12), g)| >= 2 ensures g in AvailableRegions(ng) {
      var own := OfRegion(Window(ng, 12), g);
      assert own[0] in Window(ng, 12);
      if ng != [] {
        WindowBounds(ng, 12);
      }
      var k :| 0 <= k < |ng| && ng[k] == own[0];
    }
  }

  // ---- the regional heatmap (lines 218-223)

  /** Region × month pivot of the 24-month window. */
  function RegionalHeatmap(ng: seq<Row>): (r: Pivot)
    ensures WellFormed(r)
    ensures StrictlyAscending(r.rowKeys) && StrictlyAscending(r.columns)
  {
    PivotFirst(Window(ng, 24), ByRegion)
  }

  /** The regional heatmap's columns are month labels in chronological
      order. */
  lemma {:induction false} RegionalHeatmapChronological(ng: seq<Row>)
    ensures Chronological(RegionalHeatmap(ng).columns)
  {
    PivotColumnsChronological(Window(ng, 24), ByRegion);
  }

  /** The regional heatmap's columns are months of the 24 ending at the
      latest period, and so at most 24. */
  lemma {:induction false} RegionalHeatmapSpan(ng: seq<Row>)
    ensures ng != [] ==> LabelsWithin(RegionalHeatmap(ng).columns, LatestPeriod(ng) - 23, 24)
    ensures |RegionalHeatmap(ng).columns| <= 24
  {
    if ng == [] {
      assert Window(ng, 24) == [];
      PivotColumnsWithin([], ByRegion, 0, 24);
    } else {
      WindowWithin(ng, 24, LatestPeriod(ng) - 23);
    }
  }

  /** The heatmap window's pivot columns lie in its `n` months. */
  lemma {:induction false} WindowWithin(ng: seq<Row>, n: nat, lo: int)
    requires ng != [] && n >= 1 && lo == LatestPeriod(ng) - (n - 1)
    ensures LabelsWithin(PivotFirst(Window(ng, n), ByRegion).columns, lo, n)
    ensures |PivotFirst(Window(ng, n), ByRegion).columns| <= n
  {
    WindowBounds(ng, n);
    PivotColumnsWithin(Window(ng, n), ByRegion, lo, n);
  }

  /** A regional cell holds the first monthly change that a row of the
      window offers for that region and month, and each row is a region
      with a monthly change in the window. */
  lemma {:induction false} RegionalHeatmapCells(ng: seq<Row>)
    ensures forall g :: g in RegionalHeatmap(ng).rowKeys <==>
              exists i :: 0 <= i < |Window(ng, 24)| && Window(ng, 24)[i].region == g && Window(ng, 24)[i].monthly.Some?
    ensures forall i, j :: 0 <= i < |RegionalHeatmap(ng).rowKeys| && 0 <= j < |RegionalHeatmap(ng).columns| ==>
              RegionalHeatmap(ng).cells[i][j] ==
                FirstValue(Window(ng, 24), ByRegion, RegionalHeatmap(ng).rowKeys[i], RegionalHeatmap(ng).columns[j])
  {
    var w := Window(ng, 24);
    forall g ensures g in RegionalHeatmap(ng).rowKeys <==>
             exists i :: 0 <= i < |w| && w[i].region == g && w[i].monthly.Some?
    {
      if exists i :: 0 <= i < |w| && w[i].region == g && w[i].monthly.Some? {
        var i :| 0 <= i < |w| && w[i].region == g && w[i].monthly.Some?;
        assert OffersKey(w[i], ByRegion, g);
      }
    }
  }

  // ---- the current period (line 253)

  function IndexValue(r: Row): Option<real> { r.index }

  /** The rows of the latest period sorted by index, highest first and
      NaN last. */
  function CurrentRows(ng: seq<Row>): (r: seq<Row>)
    ensures ng == [] ==> r == []
    ensures ng != [] ==>
              forall x :: multiset(r)[x] == if x.period == LatestPeriod(ng) then multiset(ng)[x] else 0
    ensures forall i, j :: 0 <= i < j < |r| && r[j].index.Some? ==> r[i].index.Some?
    ensures forall i, j :: 0 <= i < j < |r| && r[i].index.Some? && r[j].index.Some? ==>
              r[i].index.value >= r[j].index.value
  {
    if ng == [] then []
    else
      var top := LatestPeriod(ng);
      SortNoneLast(Filter(ng, (x: Row) => x.period == top), IndexValue, true)
  }
}
