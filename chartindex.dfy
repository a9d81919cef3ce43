/** The chart index: every chart file is classified by region and chart
    type, the charts of each region are ordered by type, and the regions
    with charts become the groups of the index page, the regional
    comparison first. */
module ChartIndex {
  import opened Wrappers
  import opened Sequences
  import opened Text

  /** One entry of a region's list of charts. */
  datatype Chart = Chart(filename: string, title: string, description: string, kind: string)

  /** Where a classified file goes: the position of its region and its
      chart. */
  datatype Placement = Placement(region: nat, chart: Chart)

  /** One section of the index page. */
  datatype Group = Group(regionLabel: string, charts: seq<Chart>, regionKey: string)

  /** The tables the index is built from: the region keys with their labels
      and the position of the comparison among them, the chart types with
      their titles and descriptions, and the order of types within a
      region. The script's own tables are `Script`; the proofs below hold
      for any tables that are `Valid`. */
  datatype Tables = Tables(
    regionKeys: seq<string>, regionLabels: seq<string>, comparison: nat,
    typeKeys: seq<string>, typeTitles: seq<string>, typeDescriptions: seq<string>,
    typeOrder: seq<string>)

  /** No key is listed twice. */
  predicate DistinctKeys(keys: seq<string>) {
    forall a, b :: 0 <= a < b < |keys| ==> keys[a] != keys[b]
  }

  /** Every region has a label, the comparison is a region, region keys are
      distinct and non-empty, and every chart type has a non-empty title
      and a description. Keys and titles are tested for truth at lines 84
      and 99, so the non-empty ones are exactly those the script keeps. */
  predicate Valid(t: Tables) {
    |t.regionKeys| == |t.regionLabels| && t.comparison < |t.regionKeys| && DistinctKeys(t.regionKeys) &&
    (forall r :: 0 <= r < |t.regionKeys| ==> t.regionKeys[r] != []) &&
    |t.typeKeys| == |t.typeTitles| == |t.typeDescriptions| &&
    (forall k :: 0 <= k < |t.typeTitles| ==> t.typeTitles[k] != [])
  }

  const ChartsDir: string := "graficos"
  const DefaultDescription: string := "Gráfico del IPC"
  const ComparisonKey: string := "comparacion"
  const UnknownRank: real := 999.0

  const RegionKeys: seq<string> :=
    ["nacional", "gba", "pampeana", "noreste", "noroeste", "cuyo", "patagonia", "comparacion"]
  const RegionLabels: seq<string> :=
    ["Nacional", "GBA (Gran Buenos Aires)", "Pampeana", "Noreste (NEA)", "Noroeste (NOA)",
     "Cuyo", "Patagonia", "Comparación entre Regiones"]
  const TypeKeys: seq<string> :=
    ["indice", "variacion_mensual", "variacion_interanual", "ultimos_12_meses", "heatmap", "acumulado", "ranking"]
  const TypeTitles: seq<string> :=
    ["Evolución del Índice", "Variación Mensual", "Variación Interanual", "Últimos 12 Meses",
     "Mapa de Calor", "Inflación Acumulada", "Ranking Regional"]
  const TypeDescriptions: seq<string> :=
    ["Evolución del índice de precios por división",
     "Variación porcentual mensual del IPC",
     "Variación porcentual interanual del IPC",
     "Comparación de variación mensual en los últimos 12 meses",
     "Mapa de calor de variación mensual por división",
     "Inflación acumulada desde diciembre 2016",
     "Ranking de inflación acumulada en últimos 12 meses"]
  const TypeOrder: seq<string> :=
    ["indice", "variacion_mensual", "variacion_interanual", "ultimos_12_meses", "heatmap", "acumulado", "ranking"]

  const Script: Tables :=
    Tables(RegionKeys, RegionLabels, 7, TypeKeys, TypeTitles, TypeDescriptions, TypeOrder)

  /** The script's tables are valid, the comparison is `comparacion`, and
      the type order lists exactly the chart types. */
  lemma {:induction false} ScriptTables()
    ensures Valid(Script) && Script.regionKeys[Script.comparison] == ComparisonKey
    ensures |Script.regionKeys| == 8 && |Script.typeKeys| == 7
    ensures Script.typeOrder == Script.typeKeys
  {
  }

  lemma {:induction false} KeyPosition(keys: seq<string>, a: int, b: int)
    requires DistinctKeys(keys) && 0 <= a < |keys| && 0 <= b < |keys| && keys[a] == keys[b]
    ensures a == b
  {
  }

  // ---- classification of one file (lines 74-107)

  /** A file belongs to a region when its name contains `ipc_<key>_`. */
  function RegionPattern(key: string): string {
    "ipc_" + key + "_"
  }

  /** The patterns of the given region keys, in their order. */
  function Patterns(keys: seq<string>): (r: seq<string>)
    ensures |r| == |keys| && forall i :: 0 <= i < |keys| ==> r[i] == RegionPattern(keys[i])
  {
    if keys == [] then [] else [RegionPattern(keys[0])] + Patterns(keys[1..])
  }

  /** The region position and the chart of a file, when its name has both a
      region pattern and a chart type; the first of each in declaration
      order wins. */
  function Classify(t: Tables, basename: string): (r: Option<Placement>)
    requires Valid(t)
    ensures r.Some? ==> r.value.region < |t.regionKeys|
    ensures r.Some? ==> r.value.chart.filename == ChartsDir + "/" + basename
    ensures r.Some? ==> r.value.chart.kind in t.typeKeys && Contains(basename, r.value.chart.kind)
  {
    match FirstContained(Patterns(t.regionKeys), basename)
    case None => None
    case Some(r) =>
      match FirstContained(t.typeKeys, basename)
      case None => None
      case Some(k) =>
        Some(Placement(r, Chart(ChartsDir + "/" + basename, t.typeTitles[k], t.typeDescriptions[k], t.typeKeys[k])))
  }

  /** A file is skipped exactly when its name has no region pattern or no
      chart type. */
  lemma {:induction false} ClassifySkipped(t: Tables, basename: string)
    requires Valid(t)
    ensures Classify(t, basename).None? <==>
              (forall r :: 0 <= r < |t.regionKeys| ==> !Contains(basename, RegionPattern(t.regionKeys[r]))) ||
              (forall k :: 0 <= k < |t.typeKeys| ==> !Contains(basename, t.typeKeys[k]))
  {
  }

  /** A classified file goes to the first region whose pattern its name
      contains, as a chart of the first type its name contains, titled and
      described after that type and linked under the charts directory. */
  lemma {:induction false} ClassifyChart(t: Tables, basename: string)
    requires Valid(t) && Classify(t, basename).Some?
    ensures var r, c := Classify(t, basename).value.region, Classify(t, basename).value.chart;
      r < |t.regionKeys| && Contains(basename, RegionPattern(t.regionKeys[r])) &&
      (forall j :: 0 <= j < r ==> !Contains(basename, RegionPattern(t.regionKeys[j]))) &&
      c.filename == ChartsDir + "/" + basename &&
      exists k :: 0 <= k < |t.typeKeys| && Contains(basename, t.typeKeys[k]) &&
        (forall j :: 0 <= j < k ==> !Contains(basename, t.typeKeys[j])) &&
        c.kind == t.typeKeys[k] && c.title == t.typeTitles[k] && c.description == t.typeDescriptions[k]
  {
    var k := FirstContained(t.typeKeys, basename).value;
  }

  /** Lines 78-82: the position of the first region whose pattern the name
      contains. */
  method FindRegion(t: Tables, basename: string) returns (region: Option<nat>)
    requires Valid(t)
    ensures region == FirstContained(Patterns(t.regionKeys), basename)
  {
    region := None;
    var k := 0;
    while k < |t.regionKeys|
      invariant 0 <= k <= |t.regionKeys|
      invariant forall j :: 0 <= j < k ==> !Contains(basename, Patterns(t.regionKeys)[j])
      invariant region == None
    {
      if Contains(basename, RegionPattern(t.regionKeys[k])) {
        region := Some(k);
        break;
      }
      k := k + 1;
    }
  }

  /** Lines 88-97: the type, title and description of the first chart type
      the name contains; no type or title, and the default description,
      when it contains none. */
  method FindType(t: Tables, basename: string) returns (kind: Option<string>, title: Option<string>, description: string)
    requires Valid(t)
    ensures match FirstContained(t.typeKeys, basename)
            case None => kind.None? && title.None? && description == DefaultDescription
            case Some(k) =>
              kind == Some(t.typeKeys[k]) && title == Some(t.typeTitles[k]) && description == t.typeDescriptions[k]
  {
    kind, title, description := None, None, DefaultDescription;
    var k := 0;
    while k < |t.typeKeys|
      invariant 0 <= k <= |t.typeKeys|
      invariant forall j :: 0 <= j < k ==> !Contains(basename, t.typeKeys[j])
      invariant kind.None? && title.None? && description == DefaultDescription
    {
      if Contains(basename, t.typeKeys[k]) {
        kind, title, description := Some(t.typeKeys[k]), Some(t.typeTitles[k]), t.typeDescriptions[k];
        break;
      }
      k := k + 1;
    }
  }

  /** Lines 75-100 for one file: its region and chart, or nothing when the
      file is skipped. */
  method ClassifyFile(t: Tables, basename: string) returns (placement: Option<Placement>)
    requires Valid(t)
    ensures placement == Classify(t, basename)
  {
    placement := None;
    var region := FindRegion(t, basename);
    if region.Some? {
      var kind, title, description := FindType(t, basename);
      if title.Some? {
        placement := Some(Placement(region.value, Chart(ChartsDir + "/" + basename, title.value, description, kind.value)));
      }
    }
  }

  // ---- the charts of each region (lines 72-107)

  /** The chart a placement adds to region `r`, if any. */
  function Placed(p: Option<Placement>, r: nat): seq<Chart> {
    if p.Some? && p.value.region == r then [p.value.chart] else []
  }

  /** The charts that the placements `ps` add to region `r`, in order. */
  function Gather(ps: seq<Option<Placement>>, r: nat): seq<Chart>
    decreases |ps|
  {
    if ps == [] then [] else Gather(ps[..|ps| - 1], r) + Placed(ps[|ps| - 1], r)
  }

  /** The placement of every file, in file order. */
  function Placements(t: Tables, names: seq<string>): (ps: seq<Option<Placement>>)
    requires Valid(t)
    ensures |ps| == |names|
    decreases |names|
  {
    if names == [] then [] else Placements(t, names[..|names| - 1]) + [Classify(t, names[|names| - 1])]
  }

  /** The charts of region `r`, following the order of the files. */
  function ChartsOf(t: Tables, names: seq<string>, r: nat): seq<Chart>
    requires Valid(t)
  {
    Gather(Placements(t, names), r)
  }

  lemma {:induction false} PlacementsStep(t: Tables, names: seq<string>, i: nat)
    requires Valid(t) && i < |names|
    ensures Placements(t, names[..i + 1]) == Placements(t, names[..i]) + [Classify(t, names[i])]
  {
    assert names[..i + 1][..i] == names[..i];
  }

  lemma {:induction false} GatherStep(ps: seq<Option<Placement>>, p: Option<Placement>, r: nat)
    ensures Gather(ps + [p], r) == Gather(ps, r) + Placed(p, r)
  {
    assert (ps + [p])[..|ps|] == ps;
  }

  /** `lists` holds, for each of `n` regions, the charts the placements `ps`
      add to it. */
  ghost predicate Gathered(lists: seq<seq<Chart>>, ps: seq<Option<Placement>>, n: nat) {
    |lists| == n && forall r :: 0 <= r < n ==> lists[r] == Gather(ps, r)
  }

  /** One turn of the loop: a classified file's chart joins its region's
      list. */
  function AddChart(lists: seq<seq<Chart>>, p: Option<Placement>): seq<seq<Chart>> {
    if p.Some? && p.value.region < |lists| then lists[p.value.region := lists[p.value.region] + [p.value.chart]] else lists
  }

  /** Adding one placement's chart gathers that placement too. */
  lemma {:induction false} GatherOne(lists: seq<seq<Chart>>, ps: seq<Option<Placement>>, p: Option<Placement>, n: nat)
    requires Gathered(lists, ps, n) && (p.Some? ==> p.value.region < n)
    ensures Gathered(AddChart(lists, p), ps + [p], n)
  {
    forall r | 0 <= r < n {
      GatherStep(ps, p, r);
    }
  }

  lemma {:induction false} WholePrefix<T>(s: seq<T>)
    ensures s[..|s|] == s
  {
  }

  /** Lines 72-107: each region's list starts empty and receives, in file
      order, the chart of every file classified under it. The dictionary
      keyed by region is the list of its values in key order. */
  method CollectCharts(t: Tables, names: seq<string>) returns (lists: seq<seq<Chart>>)
    requires Valid(t)
    ensures |lists| == |t.regionKeys|
    ensures forall r :: 0 <= r < |t.regionKeys| ==> lists[r] == ChartsOf(t, names, r)
  {
    lists := seq(|t.regionKeys|, _ => []);
    ghost var ps: seq<Option<Placement>> := [];
    assert names[..0] == [];
    var i := 0;
    while i < |names|
      invariant 0 <= i <= |names|
      invariant ps == Placements(t, names[..i])
      invariant Gathered(lists, ps, |t.regionKeys|)
    {
      var basename := names[i];
      var placement := ClassifyFile(t, basename);
      GatherOne(lists, ps, placement, |t.regionKeys|);
      PlacementsStep(t, names, i);
      ghost var next := AddChart(lists, placement);
      if placement.Some? {
        var r := placement.value.region;
        lists := lists[r := lists[r] + [placement.value.chart]];
      }
      assert lists == next;
      ps := ps + [placement];
      assert ps == Placements(t, names[..i + 1]) && Gathered(lists, ps, |t.regionKeys|);
      i := i + 1;
    }
    WholePrefix(names);
  }

  /** File `j` of `names` is classified under region `r` as chart `c`. */
  ghost predicate FromFile(t: Tables, names: seq<string>, r: nat, c: Chart)
    requires Valid(t)
  {
    exists j :: 0 <= j < |names| && Classify(t, names[j]) == Some(Placement(r, c))
  }

  lemma {:induction false} GatherOrigin(ps: seq<Option<Placement>>, r: nat, c: Chart)
    requires c in Gather(ps, r)
    ensures exists j :: 0 <= j < |ps| && ps[j] == Some(Placement(r, c))
    decreases |ps|
  {
    var front := ps[..|ps| - 1];
    if c in Gather(front, r) {
      GatherOrigin(front, r, c);
      var j :| 0 <= j < |front| && front[j] == Some(Placement(r, c));
      assert ps[j] == front[j];
    } else {
      assert ps[|ps| - 1] == Some(Placement(r, c));
    }
  }

  lemma {:induction false} PlacementsAt(t: Tables, names: seq<string>, j: nat)
    requires Valid(t) && j < |names|
    ensures Placements(t, names)[j] == Classify(t, names[j])
    decreases |names|
  {
    if j < |names| - 1 {
      PlacementsAt(t, names[..|names| - 1], j);
    }
  }

  /** Every chart of a region comes from a file classified under that
      region. */
  lemma {:induction false} ChartOrigin(t: Tables, names: seq<string>, r: nat, c: Chart)
    requires Valid(t) && c in ChartsOf(t, names, r)
    ensures FromFile(t, names, r, c)
  {
    GatherOrigin(Placements(t, names), r, c);
    var j :| 0 <= j < |names| && Placements(t, names)[j] == Some(Placement(r, c));
    PlacementsAt(t, names, j);
  }

  /** Lines 102-107: a chart's link names its file, and a file has one
      region, so charts of two regions never share a link. */
  lemma {:induction false} OneRegionPerFile(t: Tables, names: seq<string>, r1: nat, r2: nat, c: Chart, d: Chart)
    requires Valid(t) && c in ChartsOf(t, names, r1) && d in ChartsOf(t, names, r2)
    requires c.filename == d.filename
    ensures r1 == r2
  {
    ChartOrigin(t, names, r1, c);
    ChartOrigin(t, names, r2, d);
    var j1 :| 0 <= j1 < |names| && Classify(t, names[j1]) == Some(Placement(r1, c));
    var j2 :| 0 <= j2 < |names| && Classify(t, names[j2]) == Some(Placement(r2, d));
    ClassifyChart(t, names[j1]);
    ClassifyChart(t, names[j2]);
    var prefix := ChartsDir + "/";
    assert c.filename == prefix + names[j1] && d.filename == prefix + names[j2];
    assert names[j1] == (prefix + names[j1])[|prefix|..];
    assert names[j2] == (prefix + names[j2])[|prefix|..];
  }

  // ---- ordering within a region (lines 110-116)

  /** A chart's position in the type order, or 999 for a type it does not
      list. */
  function TypeRank(t: Tables, c: Chart): (r: real)
    ensures c.kind in t.typeOrder ==>
              exists i :: 0 <= i < |t.typeOrder| && r == i as real && t.typeOrder[i] == c.kind &&
                forall j :: 0 <= j < i ==> t.typeOrder[j] != c.kind
    ensures c.kind !in t.typeOrder ==> r == UnknownRank
  {
    if c.kind in t.typeOrder then
      var i := IndexOf(t.typeOrder, c.kind);
      i as real
    else UnknownRank
  }

  /** The sort key of lines 114-116. */
  function RankOf(t: Tables): Chart -> real {
    c => TypeRank(t, c)
  }

  /** Lines 113-116: every region's list is sorted by type rank. */
  method SortCharts(t: Tables, lists: seq<seq<Chart>>) returns (sorted: seq<seq<Chart>>)
    ensures |sorted| == |lists|
    ensures forall r :: 0 <= r < |lists| ==> sorted[r] == SortBy(lists[r], RankOf(t))
  {
    sorted := lists;
    var r := 0;
    while r < |lists|
      invariant 0 <= r <= |lists| && |sorted| == |lists|
      invariant forall q :: 0 <= q < r ==> sorted[q] == SortBy(lists[q], RankOf(t))
      invariant forall q :: r <= q < |lists| ==> sorted[q] == lists[q]
    {
      sorted := sorted[r := SortBy(sorted[r], RankOf(t))];
      r := r + 1;
    }
  }

  /** Charts of equal type keep their relative order: the sort is stable. */
  lemma {:induction false} SortChartsStable(t: Tables, s: seq<Chart>, v: real)
    ensures KeyClass(SortBy(s, RankOf(t)), RankOf(t), v) == KeyClass(s, RankOf(t), v)
  {
    SortByStable(s, RankOf(t), v);
  }

  /** Lines 40-69 and 110-111: when the type order lists every chart type,
      every classified chart ranks below the number of types, so the 999
      fallback is never used. */
  lemma {:induction false} RankKnown(t: Tables, names: seq<string>, r: nat, c: Chart)
    requires Valid(t) && c in ChartsOf(t, names, r)
    requires forall k :: 0 <= k < |t.typeKeys| ==> t.typeKeys[k] in t.typeOrder
    ensures c.kind in t.typeOrder && TypeRank(t, c) < |t.typeOrder| as real
  {
    ChartOrigin(t, names, r, c);
    var j :| 0 <= j < |names| && Classify(t, names[j]) == Some(Placement(r, c));
    ClassifyChart(t, names[j]);
  }

  // ---- group assembly (lines 119-136)

  /** The index group of region position `r`. */
  function GroupOf(t: Tables, lists: seq<seq<Chart>>, r: nat): Group
    requires Valid(t) && |lists| == |t.regionKeys| && r < |t.regionKeys|
  {
    Group(t.regionLabels[r], lists[r], t.regionKeys[r])
  }

  /** The groups of the regions before position `n` that are not the
      comparison and have charts, in declaration order. */
  function Others(t: Tables, lists: seq<seq<Chart>>, n: nat): seq<Group>
    requires Valid(t) && |lists| == |t.regionKeys| && n <= |t.regionKeys|
  {
    if n == 0 then []
    else
      Others(t, lists, n - 1) +
      (if t.regionKeys[n - 1] != t.regionKeys[t.comparison] && lists[n - 1] != [] then [GroupOf(t, lists, n - 1)] else [])
  }

  /** The comparison group, when it has charts, and then the others. */
  function Assemble(t: Tables, lists: seq<seq<Chart>>): seq<Group>
    requires Valid(t) && |lists| == |t.regionKeys|
  {
    (if lists[t.comparison] != [] then [GroupOf(t, lists, t.comparison)] else []) + Others(t, lists, |t.regionKeys|)
  }

  /** Lines 119-136: the comparison group first, when it has charts; then
      every other region with charts, in declaration order. */
  method GroupCharts(t: Tables, lists: seq<seq<Chart>>) returns (groups: seq<Group>)
    requires Valid(t) && |lists| == |t.regionKeys|
    ensures groups == Assemble(t, lists)
  {
    var c := t.comparison;
    groups := [];
    if lists[c] != [] {
      groups := groups + [Group(t.regionLabels[c], lists[c], t.regionKeys[c])];
    }
    ghost var head := groups;
    var r := 0;
    while r < |t.regionKeys|
      invariant 0 <= r <= |t.regionKeys|
      invariant groups == head + Others(t, lists, r)
    {
      if t.regionKeys[r] != t.regionKeys[c] && lists[r] != [] {
        groups := groups + [Group(t.regionLabels[r], lists[r], t.regionKeys[r])];
      }
      r := r + 1;
    }
  }

  /** Group `i` of `g` is the group of region position `r`, which has
      charts. */
  predicate GroupAt(t: Tables, lists: seq<seq<Chart>>, g: seq<Group>, i: int, r: int)
    requires Valid(t) && |lists| == |t.regionKeys|
  {
    0 <= i < |g| && 0 <= r < |t.regionKeys| && g[i] == GroupOf(t, lists, r) && lists[r] != []
  }

  /** Region position `r` has a group in `g`. */
  ghost predicate HasGroup(t: Tables, lists: seq<seq<Chart>>, g: seq<Group>, r: int)
    requires Valid(t) && |lists| == |t.regionKeys|
  {
    exists i :: GroupAt(t, lists, g, i, r)
  }

  /** Group `i` of `g` is the group of some region. */
  ghost predicate OfSomeRegion(t: Tables, lists: seq<seq<Chart>>, g: seq<Group>, i: int)
    requires Valid(t) && |lists| == |t.regionKeys|
  {
    exists r :: GroupAt(t, lists, g, i, r)
  }

  /** Every group is the group of a region with charts. */
  ghost predicate FromRegions(t: Tables, lists: seq<seq<Chart>>, g: seq<Group>)
    requires Valid(t) && |lists| == |t.regionKeys|
  {
    forall i :: 0 <= i < |g| ==> OfSomeRegion(t, lists, g, i)
  }

  lemma {:induction false} OthersRegions(t: Tables, lists: seq<seq<Chart>>, n: nat)
    requires Valid(t) && |lists| == |t.regionKeys| && n <= |t.regionKeys|
    ensures FromRegions(t, lists, Others(t, lists, n))
    ensures forall r :: 0 <= r < |t.regionKeys| ==>
              (HasGroup(t, lists, Others(t, lists, n), r) <==> r < n && r != t.comparison && lists[r] != [])
  {
    if n > 0 {
      OthersRegions(t, lists, n - 1);
      var front := Others(t, lists, n - 1);
      var g := Others(t, lists, n);
      assert g[..|front|] == front;
      forall i | 0 <= i < |g| ensures OfSomeRegion(t, lists, g, i) {
        if i < |front| {
          assert OfSomeRegion(t, lists, front, i);
          var r :| GroupAt(t, lists, front, i, r);
          assert GroupAt(t, lists, g, i, r);
        } else {
          assert GroupAt(t, lists, g, i, n - 1);
        }
      }
      forall r | 0 <= r < |t.regionKeys|
        ensures HasGroup(t, lists, g, r) <==> r < n && r != t.comparison && lists[r] != []
      {
        if HasGroup(t, lists, front, r) {
          var i :| GroupAt(t, lists, front, i, r);
          assert GroupAt(t, lists, g, i, r);
        }
        if r == n - 1 && r != t.comparison && lists[r] != [] {
          if t.regionKeys[r] == t.regionKeys[t.comparison] {
            KeyPosition(t.regionKeys, r, t.comparison);
          }
          assert GroupAt(t, lists, g, |front|, r);
        }
        if HasGroup(t, lists, g, r) {
          var i :| GroupAt(t, lists, g, i, r);
          if i < |front| {
            assert GroupAt(t, lists, front, i, r);
          } else {
            KeyPosition(t.regionKeys, r, n - 1);
          }
        }
      }
    }
  }

  lemma {:induction false} OthersOrder(t: Tables, lists: seq<seq<Chart>>, n: nat)
    requires Valid(t) && |lists| == |t.regionKeys| && n <= |t.regionKeys|
    ensures forall i, j, r, s ::
              0 <= i < j && GroupAt(t, lists, Others(t, lists, n), i, r) && GroupAt(t, lists, Others(t, lists, n), j, s)
              ==> r < s
  {
    if n > 0 {
      OthersOrder(t, lists, n - 1);
      OthersRegions(t, lists, n - 1);
      var front := Others(t, lists, n - 1);
      var g := Others(t, lists, n);
      assert g[..|front|] == front;
      forall i, j, r, s | 0 <= i < j && GroupAt(t, lists, g, i, r) && GroupAt(t, lists, g, j, s)
        ensures r < s
      {
        assert GroupAt(t, lists, front, i, r);
        if j < |front| {
          assert GroupAt(t, lists, front, j, s);
        } else {
          KeyPosition(t.regionKeys, s, n - 1);
          assert HasGroup(t, lists, front, r);
        }
      }
    }
  }

  /** The groups are exactly those of the regions with charts. */
  lemma {:induction false} AssembleRegions(t: Tables, lists: seq<seq<Chart>>)
    requires Valid(t) && |lists| == |t.regionKeys|
    ensures FromRegions(t, lists, Assemble(t, lists))
    ensures forall r :: 0 <= r < |t.regionKeys| ==> (HasGroup(t, lists, Assemble(t, lists), r) <==> lists[r] != [])
  {
    var c := t.comparison;
    var head := if lists[c] != [] then [GroupOf(t, lists, c)] else [];
    var others := Others(t, lists, |t.regionKeys|);
    var g := Assemble(t, lists);
    OthersRegions(t, lists, |t.regionKeys|);
    forall i | 0 <= i < |g| ensures OfSomeRegion(t, lists, g, i) {
      if i < |head| {
        assert GroupAt(t, lists, g, i, c);
      } else {
        assert OfSomeRegion(t, lists, others, i - |head|);
        var r :| GroupAt(t, lists, others, i - |head|, r);
        assert GroupAt(t, lists, g, i, r);
      }
    }
    forall r | 0 <= r < |t.regionKeys| ensures HasGroup(t, lists, g, r) <==> lists[r] != [] {
      if lists[r] != [] {
        if r == c {
          assert GroupAt(t, lists, g, 0, r);
        } else {
          var i :| GroupAt(t, lists, others, i, r);
          assert GroupAt(t, lists, g, i + |head|, r);
        }
      }
    }
  }

  /** The comparison group, if any, comes first, and the others follow in
      declaration order. */
  lemma {:induction false} AssembleOrder(t: Tables, lists: seq<seq<Chart>>)
    requires Valid(t) && |lists| == |t.regionKeys|
    ensures forall i, j, r, s ::
              0 <= i < j && GroupAt(t, lists, Assemble(t, lists), i, r) && GroupAt(t, lists, Assemble(t, lists), j, s)
              ==> s != t.comparison && (r == t.comparison || r < s)
  {
    var c := t.comparison;
    var head := if lists[c] != [] then [GroupOf(t, lists, c)] else [];
    var others := Others(t, lists, |t.regionKeys|);
    var g := Assemble(t, lists);
    OthersRegions(t, lists, |t.regionKeys|);
    OthersOrder(t, lists, |t.regionKeys|);
    forall i, j, r, s | 0 <= i < j && GroupAt(t, lists, g, i, r) && GroupAt(t, lists, g, j, s)
      ensures s != c && (r == c || r < s)
    {
      assert GroupAt(t, lists, others, j - |head|, s);
      assert HasGroup(t, lists, others, s);
      if i < |head| {
        KeyPosition(t.regionKeys, r, c);
      } else {
        assert GroupAt(t, lists, others, i - |head|, r);
      }
    }
  }

  // ---- the total (line 325)

  /** The number of charts over all groups. */
  function TotalCharts(groups: seq<Group>): nat
    decreases |groups|
  {
    if groups == [] then 0 else TotalCharts(groups[..|groups| - 1]) + |groups[|groups| - 1].charts|
  }

  lemma {:induction false} TotalAppend(a: seq<Group>, b: seq<Group>)
    ensures TotalCharts(a + b) == TotalCharts(a) + TotalCharts(b)
    decreases |b|
  {
    if b != [] {
      var front := b[..|b| - 1];
      assert (a + b)[..|a + b| - 1] == a + front;
      TotalAppend(a, front);
    } else {
      assert a + b == a;
    }
  }

  /** The number of charts in the first `n` lists. */
  function SizeSum(lists: seq<seq<Chart>>, n: nat): nat
    requires n <= |lists|
  {
    if n == 0 then 0 else SizeSum(lists, n - 1) + |lists[n - 1]|
  }

  /** One more list adds its charts to the other groups unless it is the
      comparison region's. */
  lemma {:induction false} TotalOthersStep(t: Tables, lists: seq<seq<Chart>>, n: nat)
    requires Valid(t) && |lists| == |t.regionKeys| && 0 < n <= |t.regionKeys|
    ensures TotalCharts(Others(t, lists, n))
         == TotalCharts(Others(t, lists, n - 1)) + (if n - 1 == t.comparison then 0 else |lists[n - 1]|)
  {
    var front := Others(t, lists, n - 1);
    if t.regionKeys[n - 1] != t.regionKeys[t.comparison] && lists[n - 1] != [] {
      var g := GroupOf(t, lists, n - 1);
      assert Others(t, lists, n) == front + [g];
      assert (front + [g])[..|front|] == front;
    } else {
      assert Others(t, lists, n) == front + [] == front;
      if n - 1 != t.comparison && t.regionKeys[n - 1] == t.regionKeys[t.comparison] {
        KeyPosition(t.regionKeys, n - 1, t.comparison);
      }
    }
  }

  lemma {:induction false} TotalOthers(t: Tables, lists: seq<seq<Chart>>, n: nat)
    requires Valid(t) && |lists| == |t.regionKeys| && n <= |t.regionKeys|
    ensures TotalCharts(Others(t, lists, n)) + (if t.comparison < n then |lists[t.comparison]| else 0) == SizeSum(lists, n)
  {
    if n > 0 {
      TotalOthers(t, lists, n - 1);
      TotalOthersStep(t, lists, n);
    }
  }

  /** Every chart of every list is counted exactly once. */
  lemma {:induction false} TotalAssemble(t: Tables, lists: seq<seq<Chart>>)
    requires Valid(t) && |lists| == |t.regionKeys|
    ensures TotalCharts(Assemble(t, lists)) == SizeSum(lists, |lists|)
  {
    var c := t.comparison;
    var head := if lists[c] != [] then [GroupOf(t, lists, c)] else [];
    TotalOthers(t, lists, |lists|);
    TotalAppend(head, Others(t, lists, |lists|));
    assert head != [] ==> head[..0] == [];
  }

  /** The number of placements that put a chart in one of the first `n`
      regions. */
  function CountBelow(ps: seq<Option<Placement>>, n: nat): nat
    decreases |ps|
  {
    if ps == [] then 0
    else CountBelow(ps[..|ps| - 1], n) + (if ps[|ps| - 1].Some? && ps[|ps| - 1].value.region < n then 1 else 0)
  }

  /** The number of charts the placements add to the first `n` regions. */
  function GatherSizes(ps: seq<Option<Placement>>, n: nat): nat {
    if n == 0 then 0 else GatherSizes(ps, n - 1) + |Gather(ps, n - 1)|
  }

  lemma {:induction false} GatherSizesStep(ps: seq<Option<Placement>>, p: Option<Placement>, n: nat)
    ensures GatherSizes(ps + [p], n) == GatherSizes(ps, n) + (if p.Some? && p.value.region < n then 1 else 0)
  {
    if n > 0 {
      GatherSizesStep(ps, p, n - 1);
      GatherStep(ps, p, n - 1);
    }
  }

  lemma {:induction false} GatherSizesCount(ps: seq<Option<Placement>>, n: nat)
    ensures GatherSizes(ps, n) == CountBelow(ps, n)
    decreases |ps|
  {
    if ps == [] {
      GatherSizesEmpty(n);
    } else {
      var front := ps[..|ps| - 1];
      assert ps == front + [ps[|ps| - 1]];
      GatherSizesCount(front, n);
      GatherSizesStep(front, ps[|ps| - 1], n);
    }
  }

  lemma {:induction false} GatherSizesEmpty(n: nat)
    ensures GatherSizes([], n) == 0
  {
    if n > 0 {
      GatherSizesEmpty(n - 1);
    }
  }

  /** The number of files that are classified, and so become charts. */
  function Classified(t: Tables, names: seq<string>): nat
    requires Valid(t)
    decreases |names|
  {
    if names == [] then 0
    else Classified(t, names[..|names| - 1]) + (if Classify(t, names[|names| - 1]).Some? then 1 else 0)
  }

  lemma {:induction false} ClassifiedCount(t: Tables, names: seq<string>)
    requires Valid(t)
    ensures CountBelow(Placements(t, names), |t.regionKeys|) == Classified(t, names)
    decreases |names|
  {
    if names != [] {
      var front := names[..|names| - 1];
      ClassifiedCount(t, front);
      var ps := Placements(t, names);
      assert ps[..|ps| - 1] == Placements(t, front);
    }
  }

  lemma {:induction false} SizeSumCharts(t: Tables, names: seq<string>, lists: seq<seq<Chart>>, n: nat)
    requires Valid(t) && n <= |lists|
    requires forall r :: 0 <= r < |lists| ==> |lists[r]| == |ChartsOf(t, names, r)|
    ensures SizeSum(lists, n) == GatherSizes(Placements(t, names), n)
  {
    if n > 0 {
      SizeSumCharts(t, names, lists, n - 1);
    }
  }

  // ---- the index (lines 16-136 and 325)

  /** The files of the listing that the pattern `ipc_*.html` matches. */
  predicate IsChartFile(name: string) {
    |name| >= 9 && name[..4] == "ipc_" && name[|name| - 5..] == ".html"
  }

  /** Line 25: the matching files in ascending order, each once. Every
      path has the same directory prefix, so ordering the paths orders
      their base names. */
  function IndexFiles(listing: seq<string>): (names: seq<string>)
    ensures StrictlyAscending(names)
    ensures forall n :: n in names <==> n in listing && IsChartFile(n)
  {
    SortedUnique(Filter(listing, IsChartFile))
  }

  /** Every region's charts, ordered by type. */
  function SortedLists(t: Tables, names: seq<string>): (lists: seq<seq<Chart>>)
    requires Valid(t)
    ensures |lists| == |t.regionKeys|
    ensures forall r :: 0 <= r < |t.regionKeys| ==> lists[r] == SortBy(ChartsOf(t, names, r), RankOf(t))
  {
    seq(|t.regionKeys|, r requires 0 <= r < |t.regionKeys| => SortBy(ChartsOf(t, names, r), RankOf(t)))
  }

  /** The groups of the index page for the given files. */
  function IndexGroups(t: Tables, names: seq<string>): seq<Group>
    requires Valid(t)
  {
    Assemble(t, SortedLists(t, names))
  }

  /** Lines 16-136 and 325: the groups of the index page and the number of
      charts on it, for the script's tables and a directory listing. */
  method BuildIndex(listing: seq<string>) returns (groups: seq<Group>, total: nat)
    ensures Valid(Script)
    ensures groups == IndexGroups(Script, IndexFiles(listing))
    ensures total == Classified(Script, IndexFiles(listing))
  {
    ScriptTables();
    var names := IndexFiles(listing);
    var lists := CollectCharts(Script, names);
    lists := SortCharts(Script, lists);
    assert lists == SortedLists(Script, names);
    groups := GroupCharts(Script, lists);
    total := TotalCharts(groups);
    IndexTotal(Script, names);
  }

  /** The page has a group for exactly the regions with charts, the
      comparison first and the others in declaration order. */
  lemma {:induction false} IndexLayout(t: Tables, names: seq<string>)
    requires Valid(t)
    ensures FromRegions(t, SortedLists(t, names), IndexGroups(t, names))
    ensures forall r :: 0 <= r < |t.regionKeys| ==>
              (HasGroup(t, SortedLists(t, names), IndexGroups(t, names), r) <==> ChartsOf(t, names, r) != [])
    ensures forall i, j, r, s ::
              0 <= i < j && GroupAt(t, SortedLists(t, names), IndexGroups(t, names), i, r) &&
              GroupAt(t, SortedLists(t, names), IndexGroups(t, names), j, s)
              ==> s != t.comparison && (r == t.comparison || r < s)
  {
    var lists := SortedLists(t, names);
    AssembleRegions(t, lists);
    AssembleOrder(t, lists);
  }

  /** A region's group holds its label and key and all of its charts,
      each from a file classified under it, ordered by type, charts of one
      type in file order. */
  lemma {:induction false} IndexCharts(t: Tables, names: seq<string>, i: nat, r: nat)
    requires Valid(t) && GroupAt(t, SortedLists(t, names), IndexGroups(t, names), i, r)
    ensures IndexGroups(t, names)[i].regionKey == t.regionKeys[r]
    ensures IndexGroups(t, names)[i].regionLabel == t.regionLabels[r]
    ensures SortedBy(IndexGroups(t, names)[i].charts, RankOf(t))
    ensures multiset(IndexGroups(t, names)[i].charts) == multiset(ChartsOf(t, names, r))
    ensures forall v :: KeyClass(IndexGroups(t, names)[i].charts, RankOf(t), v) == KeyClass(ChartsOf(t, names, r), RankOf(t), v)
    ensures forall c :: c in IndexGroups(t, names)[i].charts ==> FromFile(t, names, r, c)
  {
    var charts := ChartsOf(t, names, r);
    forall v ensures KeyClass(IndexGroups(t, names)[i].charts, RankOf(t), v) == KeyClass(charts, RankOf(t), v) {
      SortChartsStable(t, charts, v);
    }
    forall c | c in IndexGroups(t, names)[i].charts ensures FromFile(t, names, r, c) {
      assert c in multiset(charts);
      ChartOrigin(t, names, r, c);
    }
  }

  /** No file is linked from two groups. */
  lemma {:induction false} IndexDisjoint(t: Tables, names: seq<string>, i: nat, j: nat, c: Chart, d: Chart)
    requires Valid(t) && i < j < |IndexGroups(t, names)|
    requires c in IndexGroups(t, names)[i].charts && d in IndexGroups(t, names)[j].charts
    ensures c.filename != d.filename
  {
    var lists := SortedLists(t, names);
    var g := IndexGroups(t, names);
    AssembleRegions(t, lists);
    AssembleOrder(t, lists);
    assert OfSomeRegion(t, lists, g, i) && OfSomeRegion(t, lists, g, j);
    var r :| GroupAt(t, lists, g, i, r);
    var s :| GroupAt(t, lists, g, j, s);
    assert c in multiset(ChartsOf(t, names, r)) && d in multiset(ChartsOf(t, names, s));
    if c.filename == d.filename {
      OneRegionPerFile(t, names, r, s, c, d);
    }
  }

  /** Line 325: the total is the number of classified files. */
  lemma {:induction false} IndexTotal(t: Tables, names: seq<string>)
    requires Valid(t)
    ensures TotalCharts(IndexGroups(t, names)) == Classified(t, names)
  {
    var lists := SortedLists(t, names);
    TotalAssemble(t, lists);
    SizeSumCharts(t, names, lists, |lists|);
    GatherSizesCount(Placements(t, names), |lists|);
    ClassifiedCount(t, names);
  }
}
