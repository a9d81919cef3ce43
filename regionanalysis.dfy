/** The single-region analysis (`scripts/analizar_ipc.py`): select one
    region's rows from an optional starting period on, in period order; take
    the last twelve months; keep the principal divisions; build the
    division × month heatmap of monthly changes limited to its last 24
    months; and derive the title and description of each chart listed in the
    region's index page. */
module RegionAnalysis {

  import opened Wrappers
  import opened Sequences
  import opened Text
  import opened Periods
  import opened CpiTable

  /** Whether `--periodo-inicial` asks for a lower bound: `if args.periodo_inicial:`
      is false for a missing and for an empty argument. */
  predicate HasStart(start: Option<string>) {
    start.Some? && start.value != ""
  }

  /** Row `x` is at or after the optional starting period. */
  predicate AfterStart(x: Row, start: Option<string>) {
    HasStart(start) ==> ParsePeriod(start.value).Some? && x.period >= ParsePeriod(start.value).value
  }

  /** Row `x` survives the region filter and the optional lower bound. */
  predicate Retained(x: Row, region: string, start: Option<string>) {
    x.region == region && AfterStart(x, start)
  }

  /** Lines 58-72: the region's rows, or the exit that lists the regions
      present; then the rows from the starting period on (a starting period
      that does not parse aborts the run); then sorted by period. */
  function SelectRegion(rows: seq<Row>, region: string, start: Option<string>): (r: Result<seq<Row>, Error>)
    ensures r.Failure? <==>
              (forall x :: x in rows ==> x.region != region) ||
              (HasStart(start) && ParsePeriod(start.value).None?)
    ensures (forall x :: x in rows ==> x.region != region) ==>
              r == Failure(UnknownRegion(region, AvailableRegions(rows)))
    ensures (exists x :: x in rows && x.region == region) && HasStart(start) && ParsePeriod(start.value).None? ==>
              r == Failure(MalformedPeriod(start.value))
    ensures r.Success? ==> SortedBy(r.value, PeriodKey)
    ensures r.Success? ==>
              forall x :: multiset(r.value)[x] == if Retained(x, region, start) then multiset(rows)[x] else 0
  {
    var own := OfRegion(rows, region);
    if own == [] then
      assert forall x :: x in rows ==> x.region != region;
      Failure(UnknownRegion(region, AvailableRegions(rows)))
    else
      assert own[0] in rows;
      FromStart(own, start)
  }

  /** Lines 62-72 for a region's rows: the rows from the starting period on,
      sorted by period; a starting period that does not parse aborts. */
  function FromStart(own: seq<Row>, start: Option<string>): (r: Result<seq<Row>, Error>)
    ensures r.Failure? <==> HasStart(start) && ParsePeriod(start.value).None?
    ensures r.Failure? ==> r == Failure(MalformedPeriod(start.value))
    ensures r.Success? ==> SortedBy(r.value, PeriodKey)
    ensures r.Success? ==>
              forall x :: multiset(r.value)[x] == if AfterStart(x, start) then multiset(own)[x] else 0
  {
    if !HasStart(start) then
      Success(SortBy(own, PeriodKey))
    else
      match ParsePeriod(start.value)
      case None => Failure(MalformedPeriod(start.value))
      case Some(lo) =>
        var kept := AtOrAfter(own, lo);
        AtOrAfterCount(own, lo);
        Success(SortBy(kept, PeriodKey))
  }

  /** The rows of the selection, in period order, are the retained rows. */
  lemma {:induction false} SelectionMembers(rows: seq<Row>, region: string, start: Option<string>)
    requires SelectRegion(rows, region, start).Success?
    ensures forall x :: x in SelectRegion(rows, region, start).value <==> x in rows && Retained(x, region, start)
    ensures forall i, j :: 0 <= i < j < |SelectRegion(rows, region, start).value| ==>
              SelectRegion(rows, region, start).value[i].period <= SelectRegion(rows, region, start).value[j].period
  {
    var sel := SelectRegion(rows, region, start).value;
    forall x ensures x in sel <==> x in rows && Retained(x, region, start) {
      assert x in sel <==> multiset(sel)[x] > 0;
      assert x in rows <==> multiset(rows)[x] > 0;
    }
  }

  // ---- principal divisions (lines 192-195 and 229-232)

  /** `re.match(r'^\d+$', s)` on ASCII input: one or more digits, where
      `$` also matches just before a final newline. */
  predicate MatchesDigitsAsWritten(s: string) {
    (|s| >= 1 && AllDigits(s)) ||
    (|s| >= 2 && s[|s| - 1] == '\n' && AllDigits(s[..|s| - 1]))
  }

  /** The filter as written: `Codigo.str.len() <= 2` and
      `Codigo.str.match(r'^\d+$', na=False)`; a missing code fails both. */
  predicate IsPrincipalCodeAsWritten(code: Option<string>) {
    code.Some? && |code.value| <= 2 && MatchesDigitsAsWritten(code.value)
  }

  /** The filter as intended: a code of one or two decimal digits. */
  predicate IsPrincipalCode(code: Option<string>) {
    code.Some? && 1 <= |code.value| <= 2 && AllDigits(code.value)
  }

  /** The filter as written lets a one-digit code followed by a newline
      through. */
  lemma {:induction false} PrincipalCodeAdmitsNewline()
    ensures IsPrincipalCodeAsWritten(Some("7\n"))
    ensures !IsPrincipalCode(Some("7\n"))
  {
    assert "7\n"[..1] == "7";
  }

  /** The two filters differ exactly on a digit followed by a newline. */
  lemma {:induction false} PrincipalCodeAgreement(code: Option<string>)
    ensures IsPrincipalCodeAsWritten(code) <==>
              IsPrincipalCode(code) || (code.Some? && |code.value| == 2 && IsDigit(code.value[0]) && code.value[1] == '\n')
  {
    if code.Some? && |code.value| == 2 && code.value[1] == '\n' {
      assert code.value[..1] == [code.value[0]];
    }
  }

  /** The principal divisions: rows whose code is one or two digits. */
  function PrincipalRows(rows: seq<Row>): (r: seq<Row>)
    ensures forall x :: x in r <==> x in rows && x.code.Some? && 1 <= |x.code.value| <= 2 && AllDigits(x.code.value)
    ensures forall x :: multiset(r)[x] == if IsPrincipalCode(x.code) then multiset(rows)[x] else 0
  {
    Filter(rows, (x: Row) => IsPrincipalCode(x.code))
  }

  /** Lines 229-241: the division × month pivot of the principal divisions,
      limited to its last 24 month columns. */
  function DivisionHeatmap(selected: seq<Row>): (r: Pivot)
    ensures WellFormed(r)
    ensures |r.columns| <= 24
    ensures StrictlyAscending(r.rowKeys)
  {
    LastColumns(PivotFirst(PrincipalRows(selected), ByDescription), 24)
  }

  /** The heatmap has at most 24 columns, and each cell holds the first
      monthly change a principal row offers for it. */
  lemma {:induction false} DivisionHeatmapCells(selected: seq<Row>)
    ensures WellFormed(DivisionHeatmap(selected))
    ensures |DivisionHeatmap(selected).columns| <= 24
    ensures forall i, j :: 0 <= i < |DivisionHeatmap(selected).rowKeys| && 0 <= j < |DivisionHeatmap(selected).columns| ==>
              DivisionHeatmap(selected).cells[i][j] ==
                FirstValue(PrincipalRows(selected), ByDescription, DivisionHeatmap(selected).rowKeys[i], DivisionHeatmap(selected).columns[j])
  {
  }

  /** Every row of the heatmap is a description that some principal row
      offers a monthly change for... */
  lemma {:induction false} DivisionHeatmapRowsOffered(selected: seq<Row>, k: string)
    requires k in DivisionHeatmap(selected).rowKeys
    ensures exists i :: 0 <= i < |selected| && IsPrincipalCode(selected[i].code) && OffersKey(selected[i], ByDescription, k)
  {
    var principal := PrincipalRows(selected);
    var pv := PivotFirst(principal, ByDescription);
    assert DivisionHeatmap(selected).rowKeys == pv.rowKeys;
    var i :| 0 <= i < |principal| && OffersKey(principal[i], ByDescription, k);
    var x := principal[i];
    assert x in principal;
    assert x in selected && IsPrincipalCode(x.code);
    var j :| 0 <= j < |selected| && selected[j] == x;
  }

  /** ...and every such description has a row. */
  lemma {:induction false} DivisionHeatmapRowsComplete(selected: seq<Row>, i: int, k: string)
    requires 0 <= i < |selected| && IsPrincipalCode(selected[i].code) && OffersKey(selected[i], ByDescription, k)
    ensures k in DivisionHeatmap(selected).rowKeys
  {
    var principal := PrincipalRows(selected);
    var pv := PivotFirst(principal, ByDescription);
    assert DivisionHeatmap(selected).rowKeys == pv.rowKeys;
    assert selected[i] in principal;
    var j :| 0 <= j < |principal| && principal[j] == selected[i];
    assert OffersKey(principal[j], ByDescription, k);
  }

  /** The heatmap has a row exactly for each description that some
      principal row offers a monthly change for. */
  lemma {:induction false} DivisionHeatmapRows(selected: seq<Row>)
    ensures forall k :: k in DivisionHeatmap(selected).rowKeys <==>
              exists i :: 0 <= i < |selected| && IsPrincipalCode(selected[i].code) && OffersKey(selected[i], ByDescription, k)
  {
    forall k ensures k in DivisionHeatmap(selected).rowKeys <==>
              exists i :: 0 <= i < |selected| && IsPrincipalCode(selected[i].code) && OffersKey(selected[i], ByDescription, k)
    {
      if k in DivisionHeatmap(selected).rowKeys {
        DivisionHeatmapRowsOffered(selected, k);
      }
      if exists i :: 0 <= i < |selected| && IsPrincipalCode(selected[i].code) && OffersKey(selected[i], ByDescription, k) {
        var i :| 0 <= i < |selected| && IsPrincipalCode(selected[i].code) && OffersKey(selected[i], ByDescription, k);
        DivisionHeatmapRowsComplete(selected, i, k);
      }
    }
  }

  /** The heatmap's columns are the latest months of the full pivot: all of
      them when there are fewer than 24, the last 24 otherwise. */
  lemma {:induction false} DivisionHeatmapLatest(selected: seq<Row>)
    ensures DivisionHeatmap(selected).columns ==
              PivotFirst(PrincipalRows(selected), ByDescription).columns[|PivotFirst(PrincipalRows(selected), ByDescription).columns| - |DivisionHeatmap(selected).columns|..]
    ensures |DivisionHeatmap(selected).columns| ==
              if |PivotFirst(PrincipalRows(selected), ByDescription).columns| < 24
              then |PivotFirst(PrincipalRows(selected), ByDescription).columns| else 24
  {
  }

  /** The heatmap's columns run in chronological order. */
  lemma {:induction false} DivisionHeatmapChronological(selected: seq<Row>)
    ensures Chronological(DivisionHeatmap(selected).columns)
  {
    LastColumnsChronological(PrincipalRows(selected), ByDescription, 24);
  }

  // ---- the index page (lines 336-376)

  /** One chart of the index page. */
  datatype Entry = Entry(filename: string, title: string, description: string)

  /** The keys of `file_descriptions`, in declaration order. */
  const EntryKeys: seq<string> :=
    ["indice", "variacion_mensual", "variacion_interanual", "ultimos_12_meses", "heatmap", "acumulado"]

  /** `titulo_map`, key by key. */
  const EntryTitles: seq<string> :=
    ["Evolución del Índice", "Variación Mensual", "Variación Interanual",
     "Últimos 12 Meses", "Mapa de Calor", "Inflación Acumulada"]

  /** `file_descriptions`, key by key. */
  const EntryDescriptions: seq<string> :=
    ["Evolución del índice de precios por división", "Variación porcentual mensual del IPC",
     "Variación porcentual interanual del IPC", "Comparación de variación mensual en los últimos 12 meses",
     "Mapa de calor de variación mensual por división", "Inflación acumulada desde diciembre 2016"]

  const DefaultDescription: string := "Gráfico del IPC"

  const ChartsDir: string := "graficos"

  /** The title of a chart no key names: the `ipc_` and `.html` pieces
      replaced away, underscores turned into spaces, then Python's `title()`.
      No underscore is left in it. */
  function FallbackTitle(basename: string): (r: string)
    ensures forall i :: 0 <= i < |r| ==> r[i] != '_'
  {
    var s := ReplaceAll(ReplaceAll(basename, "ipc_", ""), ".html", "");
    var spaced := ReplaceAll(s, "_", " ");
    ReplaceChar(s, '_', ' ');
    TitleFromAt(spaced, false);
    TitleCase(spaced)
  }

  /** For a chart file `ipc_<x>.html` whose stem has no `ipc_` and no dot,
      the fallback title is the stem with spaces for underscores, title-cased. */
  lemma {:induction false} FallbackTitleOfName(x: string)
    requires !Contains(x, "ipc_") && '.' !in x
    ensures FallbackTitle("ipc_" + x + ".html") == TitleCase(ReplaceAll(x, "_", " "))
  {
    var name := "ipc_" + x + ".html";
    assert "ipc_" <= name;
    assert name[|"ipc_"|..] == x + ".html";
    AbsentByFirst(".html", "ipc_");
    AbsentAcross(x, ".html", "ipc_");
    ReplaceAbsent(x + ".html", "ipc_", "");
    assert ReplaceAll(name, "ipc_", "") == x + ".html";
    ReplaceTrailing(x, ".html", "");
    assert ReplaceAll(x + ".html", ".html", "") == x;
  }

  /** `file_descriptions` and `titulo_map`: the chart keys in declaration
      order, with their titles and descriptions. The script's own tables are
      `Descriptions`; the proofs below hold for any tables that are
      `ValidEntryTables`. */
  datatype EntryTables = EntryTables(keys: seq<string>, titles: seq<string>, descriptions: seq<string>)

  /** Every key has a title and a description. */
  predicate ValidEntryTables(t: EntryTables) {
    |t.keys| == |t.titles| == |t.descriptions|
  }

  const Descriptions: EntryTables := EntryTables(EntryKeys, EntryTitles, EntryDescriptions)

  /** The script's tables list six keys, each with a title and a
      description. */
  lemma {:induction false} DescriptionsValid()
    ensures ValidEntryTables(Descriptions) && |Descriptions.keys| == 6
  {
  }

  /** The index entry of one chart file. */
  function EntryFor(t: EntryTables, basename: string): (e: Entry)
    requires ValidEntryTables(t)
    ensures e.filename == ChartsDir + "/" + basename
    ensures e.title in t.titles || e.title == FallbackTitle(basename)
    ensures e.description in t.descriptions || e.description == DefaultDescription
  {
    match FirstContained(t.keys, basename)
    case Some(k) => Entry(ChartsDir + "/" + basename, t.titles[k], t.descriptions[k])
    case None => Entry(ChartsDir + "/" + basename, FallbackTitle(basename), DefaultDescription)
  }

  /** A chart's entry links to `graficos/<basename>`; its title and
      description are those of the first key the name contains, or the
      fallback title and the default description when it contains none. */
  lemma {:induction false} EntryForMeaning(t: EntryTables, basename: string)
    requires ValidEntryTables(t)
    ensures EntryFor(t, basename).filename == ChartsDir + "/" + basename
    ensures forall k :: (0 <= k < |t.keys| && Contains(basename, t.keys[k]) &&
                         forall j :: 0 <= j < k ==> !Contains(basename, t.keys[j])) ==>
              EntryFor(t, basename).title == t.titles[k] && EntryFor(t, basename).description == t.descriptions[k]
    ensures (forall k :: 0 <= k < |t.keys| ==> !Contains(basename, t.keys[k])) ==>
              EntryFor(t, basename).title == FallbackTitle(basename) && EntryFor(t, basename).description == DefaultDescription
  {
    match FirstContained(t.keys, basename)
    case Some(k) =>
    case None =>
  }

  /** Lines 351-370 for one file: the fallback title and description,
      replaced by those of the first key the name contains. */
  method DescribeChart(t: EntryTables, basename: string) returns (e: Entry)
    requires ValidEntryTables(t)
    ensures e == EntryFor(t, basename)
  {
    var title := FallbackTitle(basename);
    var desc := DefaultDescription;
    var k := 0;
    while k < |t.keys|
      invariant 0 <= k <= |t.keys|
      invariant forall j :: 0 <= j < k ==> !Contains(basename, t.keys[j])
      invariant title == FallbackTitle(basename) && desc == DefaultDescription
    {
      if Contains(basename, t.keys[k]) {
        desc := t.descriptions[k];
        title := t.titles[k];
        break;
      }
      k := k + 1;
    }
    e := Entry(ChartsDir + "/" + basename, title, desc);
  }

  /** Lines 349-376: one entry per chart file, in the order given. */
  method ChartEntries(t: EntryTables, basenames: seq<string>) returns (entries: seq<Entry>)
    requires ValidEntryTables(t)
    ensures |entries| == |basenames|
    ensures forall i :: 0 <= i < |basenames| ==> entries[i] == EntryFor(t, basenames[i])
  {
    entries := [];
    var n := 0;
    while n < |basenames|
      invariant 0 <= n <= |basenames|
      invariant |entries| == n
      invariant forall i :: 0 <= i < n ==> entries[i] == EntryFor(t, basenames[i])
    {
      var e := DescribeChart(t, basenames[n]);
      entries := entries + [e];
      n := n + 1;
    }
  }

  /** Lines 336-376 with the script's own tables. */
  method IndexEntries(basenames: seq<string>) returns (entries: seq<Entry>)
    ensures ValidEntryTables(Descriptions)
    ensures |entries| == |basenames|
    ensures forall i :: 0 <= i < |basenames| ==> entries[i] == EntryFor(Descriptions, basenames[i])
  {
    DescriptionsValid();
    entries := ChartEntries(Descriptions, basenames);
  }
}
