# ipc-historico: verified model of the chart index and the CPI row logic

This project models the sequential logic of three scripts of the
`ipc-historico` repository, which turn INDEC's consumer price index (IPC)
series into HTML charts:

- `scripts/generar_index.py` builds the site's index page. It classifies
  every `graficos/ipc_*.html` file by region (the first region key `k`
  whose pattern `ipc_k_` occurs in the name) and by chart type (the first
  type key occurring in the name), and drops files that lack either a
  region pattern or a chart type. It
  stable-sorts each region's charts by the fixed type order. Then it emits
  the groups: `comparacion` first, then the other regions in declaration
  order, skipping empty ones. It also counts the charts.
- `scripts/analizar_ipc.py` analyses one region:
  - converts the `Periodo` column (`%Y%m`) and labels months `YYYY-MM`;
  - selects the region's rows, aborting with the sorted list of regions when
    there are none;
  - applies the optional starting period and sorts by period;
  - takes the 12-month window;
  - keeps the principal divisions (codes of at most two digits);
  - builds the division × month heatmap (`pivot_table(aggfunc='first')`,
    last 24 columns);
  - derives each chart's title and description for the region's index page.
- `scripts/comparar_regiones.py` compares regions:
  - keeps the `NIVEL GENERAL` rows and lists the regions;
  - takes the 12- and 24-month windows anchored at the latest period;
  - ranks the regions that have at least two rows in the 12-month window,
    by the growth between their earliest and latest rows;
  - builds the region × month heatmap;
  - lists the rows of the latest period by descending index.

Modules:

| module | file | what it holds |
|---|---|---|
| `Wrappers` | `wrappers.dfy` | `Option` and `Result` |
| `Sequences` | `sequences.dfy` | order-preserving filter, stable insertion sort by a numeric key, sort with missing values last, distinctness by a key |
| `Text` | `text.dfy` | substring search, lexicographic string order, sorted de-duplication, `str.replace`, ASCII `str.title` |
| `Periods` | `periods.dfy` | months as integers `year * 12 + month - 1`, `%Y%m` parsing, `%Y-%m` labels |
| `CpiTable` | `cpitable.dfy` | table rows, loading the period column, period bounds, trailing windows, the region list, `pivot_table(aggfunc='first')` and `iloc[:, -n:]` |
| `RegionAnalysis` | `regionanalysis.dfy` | `analizar_ipc.py` |
| `RegionComparison` | `regioncomparison.dfy` | `comparar_regiones.py` |
| `ChartIndex` | `chartindex.dfy` | `generar_index.py` |

The index builder is imperative, as in the source:
- a loop fills each region's list with `break`-on-first-match inner loops;
- each list is sorted;
- the groups are appended one by one.

Each method is proved equal to a specification function. The properties are
lemmas about that function, stated for any valid tables and separately
instantiated for the script's own tables.

The two analysis scripts are modelled as functions over a sequence of rows.
Their two loops are methods proved against a function:
- the ranking loop (`RegionComparison.Ranking`);
- the index-entry loop (`RegionAnalysis.ChartEntries`).

Numeric values (index, monthly and yearly change) are optional reals;
`None` is pandas' NaN. The ranking's growth formula is a parameter
`growth: (Row, Row) -> Option<real>`.

Three behaviours of the code to note:
- The period format `%Y%m` is parsed as `strptime` does. The starting
  period's help text at `scripts/analizar_ipc.py:38` asks for `YYYYMM`, but
  a one-digit month is also accepted, so `20161` is January 2016
  (`Periods.ParseShortMonth`, `Periods.ParsePeriodSound`).
- Any unparsable period aborts the whole load
  (`CpiTable.LoadTable`).
- Asking for a ranking when no region qualifies raises an error. The
  source sorts an empty `DataFrame` by a column it lacks, which is a
  `KeyError`; the model returns `Failure(EmptyRanking)`.

## Model

| member | source | states |
|---|---|---|
| ChartIndex.ScriptTables | scripts/generar_index.py:28-69 | the script's region and type tables are valid: distinct non-empty region keys with labels, `comparacion` among them, every type with a non-empty title and a description; the type order lists exactly the seven chart types |
| ChartIndex.Classify | scripts/generar_index.py:78-100 | a kept file has a region position within the region table, links to `graficos/<basename>` and has a type key its name contains; the exact choice is `ChartIndex.ClassifySkipped` and `ChartIndex.ClassifyChart` |
| ChartIndex.ClassifySkipped | scripts/generar_index.py:78-100 | a file is skipped exactly when its name contains no region pattern or no type key |
| ChartIndex.ClassifyChart | scripts/generar_index.py:78-107 | a kept file goes to the first region (in declaration order) whose pattern it contains, with the title and description of the first type key it contains, linked as `graficos/<basename>` |
| ChartIndex.FindRegion | scripts/generar_index.py:78-82 | the first-match loop with `break` returns the first region whose pattern the name contains, or none |
| ChartIndex.FindType | scripts/generar_index.py:88-97 | the first-match loop returns the kind, title and description of the first type key the name contains, or no kind, no title and `Gráfico del IPC` |
| ChartIndex.ClassifyFile | scripts/generar_index.py:75-100 | the two loops and the two `continue` tests classify a file exactly as the specification of first matches does |
| ChartIndex.CollectCharts | scripts/generar_index.py:72-107 | after the loop over the files every region list holds, in file order, the charts of exactly the files classified under that region |
| ChartIndex.ChartOrigin | scripts/generar_index.py:102-107 | every chart in a region's list comes from some input file classified under that region |
| ChartIndex.OneRegionPerFile | scripts/generar_index.py:102-107 | charts with the same link are in the same region's list: no file is appended to two regions |
| ChartIndex.SortCharts | scripts/generar_index.py:113-116 | every region's list is replaced by its sort by type rank, the others untouched while the loop runs |
| ChartIndex.SortChartsStable | scripts/generar_index.py:113-116 | charts of equal rank keep their relative (file-name) order, as Python's stable `list.sort` promises |
| ChartIndex.TypeRank | scripts/generar_index.py:110-116 | a listed type ranks at the position of its first occurrence in the type order; an unlisted type ranks 999 |
| ChartIndex.RankKnown | scripts/generar_index.py:110-116 | when the type order lists every chart type, every classified chart's rank is its position in that order, below the number of types, so the fallback 999 is never used |
| ChartIndex.GroupCharts | scripts/generar_index.py:119-136 | the appends build the comparison group (if non-empty) followed by every other non-empty region in declaration order |
| ChartIndex.OthersRegions | scripts/generar_index.py:129-136 | the second loop produces a group for exactly the non-comparison regions with charts among those visited, each the group of its region |
| ChartIndex.OthersOrder | scripts/generar_index.py:129-136 | groups produced by the second loop follow region declaration order |
| ChartIndex.AssembleRegions | scripts/generar_index.py:121-136 | every group is the group of a region with charts, and every region with charts has a group |
| ChartIndex.AssembleOrder | scripts/generar_index.py:121-136 | the comparison group, if present, precedes all others, and the others follow declaration order |
| ChartIndex.TotalAssemble | scripts/generar_index.py:325 | the total over the groups equals the sum of all region list sizes: no chart is counted twice or dropped by skipping empty groups |
| ChartIndex.IndexFiles | scripts/generar_index.py:25 | the file list is strictly ascending and holds exactly the listed names of the form `ipc_*.html` |
| ChartIndex.BuildIndex | scripts/generar_index.py:23-136 | the whole script (glob result to groups and total) yields exactly the specified index groups and the number of classified files |
| ChartIndex.IndexLayout | scripts/generar_index.py:119-136 | on the index page a region has a group iff some file is classified under it; the comparison comes first and the others follow declaration order |
| ChartIndex.IndexCharts | scripts/generar_index.py:102-136 | a region's group carries its key and label, holds a permutation of its classified charts, is sorted by type rank and keeps file order within a type, and every chart comes from a file of that region |
| ChartIndex.IndexDisjoint | scripts/generar_index.py:102-136 | no file is linked from two different groups |
| ChartIndex.IndexTotal | scripts/generar_index.py:325 | `total_graficos` equals the number of input files that received both a region and a type |
| Periods.ParsePeriod | scripts/analizar_ipc.py:55 | a string that parses has five or six characters, all decimal digits; what it parses to is `Periods.ParsePeriodSound` |
| Periods.Label | scripts/analizar_ipc.py:56 | a label has seven characters with the dash at index 4; its digits and order are `Periods.LabelShape` and `Periods.LabelOrder` |
| Periods.ParsePeriodText | scripts/analizar_ipc.py:55 | every month reads back from the YYYYMM integer the CSV holds |
| Periods.ParseShortMonth | scripts/analizar_ipc.py:55 | `%Y%m` also accepts a one-digit month for January to September |
| Periods.ParsePeriodSound | scripts/analizar_ipc.py:55 | a string that parses is the two-digit-month spelling of the month, or its one-digit-month spelling |
| Periods.LabelShape | scripts/analizar_ipc.py:56 | a `year_month` label has 7 characters, digits around a `-` at index 4, and is the YYYYMM text with the dash inserted |
| Periods.LabelRoundTrip | scripts/analizar_ipc.py:55-56 | removing the dash from a label gives back text that parses to the same month |
| Periods.LabelOrder | scripts/analizar_ipc.py:56 | labels compare as strings exactly as their months compare in time |
| Periods.LabelInjective | scripts/analizar_ipc.py:56 | two months have the same label iff they are the same month |
| CpiTable.LoadTable | scripts/analizar_ipc.py:55 | the load succeeds iff every period parses; then every row is kept, in order, with its parsed month; otherwise it fails on the first malformed period |
| CpiTable.LatestPeriod | scripts/analizar_ipc.py:186 | the latest period is at least every row's period |
| CpiTable.LatestPeriodIsMax | scripts/analizar_ipc.py:186 | the latest period bounds every row's period and is the period of some row |
| CpiTable.AtOrAfter | scripts/analizar_ipc.py:69 | the lower-bound filter keeps exactly the rows at or after the bound |
| CpiTable.AtOrAfterCount | scripts/analizar_ipc.py:69 | the lower-bound filter keeps every copy of a row at or after the bound and no row before it |
| CpiTable.OfRegion | scripts/analizar_ipc.py:59 | the region filter keeps every copy of the rows of that region and no other row |
| CpiTable.AvailableRegions | scripts/comparar_regiones.py:46 | the region list is strictly ascending (sorted, no duplicates) and holds exactly the regions that occur in the table |
| CpiTable.Window | scripts/analizar_ipc.py:186-188 | a window keeps only rows of the table, no more of them than the table has, none after the latest period |
| CpiTable.WindowBounds | scripts/analizar_ipc.py:186-188 | the 12-month window keeps exactly the rows with period at least the latest period minus 11, all of them at most the latest period |
| CpiTable.WindowLatest | scripts/analizar_ipc.py:186-188 | a window of a non-empty table keeps the rows of the latest period, so it is non-empty and has the same latest period |
| CpiTable.WindowSpan | scripts/analizar_ipc.py:186-188 | a window of `n` months contains the latest period and covers at most `n` distinct periods |
| CpiTable.WindowPeriods | scripts/analizar_ipc.py:186-188 | the periods a window of `n` months covers are exactly the table's periods from the latest minus `n - 1` on |
| CpiTable.WindowComplete | scripts/analizar_ipc.py:186-188 | when the table has all `n` months ending at its latest period, a window of `n` months covers exactly those `n` periods |
| CpiTable.WindowNested | scripts/comparar_regiones.py:173-175 | the 12-month window of the 24-month window is the 12-month window of the table |
| CpiTable.FirstValue | scripts/analizar_ipc.py:233-238 | a cell is NaN iff no row with its key and month has a monthly change; otherwise it holds the value of the first such row in table order |
| CpiTable.FirstWins | scripts/analizar_ipc.py:233-238 | the cell holds the value of the first row that offers one |
| CpiTable.LaterRowsIgnored | scripts/analizar_ipc.py:233-238 | appending rows never changes a cell that already holds a value |
| CpiTable.PivotFirst | scripts/analizar_ipc.py:233-238 | row keys and columns are strictly ascending; a key or a month appears iff some row with a key offers a value for it; every cell is the first value offered |
| CpiTable.PivotColumnsChronological | scripts/analizar_ipc.py:233-238 | the pivot's columns are month labels in chronological order |
| CpiTable.PivotColumnsWithin | scripts/comparar_regiones.py:218-223 | when every row lies in `n` consecutive months, every column names one of them and there are at most `n` columns |
| CpiTable.LastColumns | scripts/analizar_ipc.py:241 | keeps the row keys, the last `min(n, columns)` columns, and each kept cell's value |
| CpiTable.LastColumnsChronological | scripts/analizar_ipc.py:241 | the kept columns are still in chronological order |
| RegionAnalysis.SelectRegion | scripts/analizar_ipc.py:58-72 | fails iff the region has no rows (reporting the sorted regions present) or the starting period does not parse; otherwise it is sorted by period and a permutation of the region's rows at or after the start |
| RegionAnalysis.FromStart | scripts/analizar_ipc.py:66-72 | a missing or empty start keeps all rows, a parsed start keeps the rows at or after it, an unparsable start aborts; the result is sorted by period |
| RegionAnalysis.SelectionMembers | scripts/analizar_ipc.py:58-72 | the selection holds exactly the rows of the region at or after the start, in non-decreasing period order |
| RegionAnalysis.PrincipalCodeAdmitsNewline | scripts/analizar_ipc.py:192-195 | the filter as written accepts the code `"7\n"`, which is not one or two digits |
| RegionAnalysis.PrincipalCodeAgreement | scripts/analizar_ipc.py:192-195 | the filter as written accepts exactly the one- or two-digit codes plus a digit followed by a newline |
| RegionAnalysis.PrincipalRows | scripts/analizar_ipc.py:229-232 | keeps exactly the rows whose code is present, non-empty, of at most two characters, all decimal digits (every copy of them) |
| RegionAnalysis.DivisionHeatmap | scripts/analizar_ipc.py:229-241 | the heatmap is a well-formed pivot with strictly ascending division rows and at most 24 month columns |
| RegionAnalysis.DivisionHeatmapCells | scripts/analizar_ipc.py:229-241 | the heatmap has at most 24 columns and each cell is the first monthly change a principal row offers for its division and month |
| RegionAnalysis.DivisionHeatmapRows | scripts/analizar_ipc.py:229-238 | the heatmap has a row exactly for each description that a principal row offers a monthly change for |
| RegionAnalysis.DivisionHeatmapRowsOffered | scripts/analizar_ipc.py:229-238 | every heatmap row is a description that a principal row offers a value for |
| RegionAnalysis.DivisionHeatmapRowsComplete | scripts/analizar_ipc.py:229-238 | every description a principal row offers a value for has a heatmap row |
| RegionAnalysis.DivisionHeatmapLatest | scripts/analizar_ipc.py:241 | the heatmap's columns are the last 24 (or all, when fewer) of the full pivot's columns |
| RegionAnalysis.DivisionHeatmapChronological | scripts/analizar_ipc.py:233-241 | the heatmap's columns run in chronological order |
| RegionAnalysis.FallbackTitle | scripts/analizar_ipc.py:354 | a fallback title has no underscore left |
| RegionAnalysis.FallbackTitleOfName | scripts/analizar_ipc.py:354 | for a chart file `ipc_<x>.html` whose stem has no `ipc_` and no dot, the fallback title is the stem with underscores turned into spaces, title-cased |
| RegionAnalysis.DescriptionsValid | scripts/analizar_ipc.py:339-368 | the script's six keys each have a title and a description |
| RegionAnalysis.EntryFor | scripts/analizar_ipc.py:350-376 | an entry links to `graficos/<basename>`; its title is a table title or the fallback title, its description a table description or `Gráfico del IPC`; the exact choice is `RegionAnalysis.EntryForMeaning` |
| RegionAnalysis.EntryForMeaning | scripts/analizar_ipc.py:350-376 | an entry links to `graficos/<basename>`; title and description are those of the first key the name contains, or the fallback title and `Gráfico del IPC` when it contains none |
| RegionAnalysis.DescribeChart | scripts/analizar_ipc.py:351-370 | the loop with `break` produces the specified entry of one file |
| RegionAnalysis.ChartEntries | scripts/analizar_ipc.py:349-376 | one entry per file, in the given order, each the specified entry |
| RegionAnalysis.IndexEntries | scripts/analizar_ipc.py:336-376 | the same, with the script's own tables |
| RegionComparison.GeneralLevelRows | scripts/comparar_regiones.py:34 | keeps every copy of the `NIVEL GENERAL` rows and no other row (a missing description never matches) |
| RegionComparison.YearWithinTwoYears | scripts/comparar_regiones.py:173-175 | the 12-month window is inside the 24-month window and is the 12-month window of it; both are anchored at the table's latest period |
| RegionComparison.EntryOf | scripts/comparar_regiones.py:180-185 | one region's step appends at most one entry, for that region, and one exactly when the region has at least two rows in the window |
| RegionComparison.EntryOfEligible | scripts/comparar_regiones.py:180-185 | one region's step appends an entry iff it has at least two rows in the window |
| RegionComparison.EntriesEligible | scripts/comparar_regiones.py:178-185 | a region has an entry iff it is listed and has at least two rows in the window; regions with fewer rows are omitted, not errors |
| RegionComparison.EntriesDistinct | scripts/comparar_regiones.py:178-185 | distinct listed regions give entries with distinct regions |
| RegionComparison.RegionEndpoints | scripts/comparar_regiones.py:180-183 | the first and last of a region's rows sorted by period are its earliest and latest rows in the window |
| RegionComparison.EntryOfEndpoints | scripts/comparar_regiones.py:180-184 | a step's entry is computed from the region's earliest and latest rows in the window |
| RegionComparison.EntriesEndpoints | scripts/comparar_regiones.py:180-184 | every entry's figure is computed from its region's earliest and latest rows in the window |
| RegionComparison.RankingOf | scripts/comparar_regiones.py:178-187 | a ranking that fails fails with `EmptyRanking`; one that succeeds is non-empty; the full meaning is `RegionComparison.RankingFails` and `RegionComparison.RankingSorted` |
| RegionComparison.Ranking | scripts/comparar_regiones.py:178-187 | the loop over the sorted regions followed by the sort gives exactly the specified ranking |
| RegionComparison.RankingEmpty | scripts/comparar_regiones.py:178-185 | no entry is built iff no region has two rows in the 12-month window |
| RegionComparison.RankingFails | scripts/comparar_regiones.py:187 | the ranking fails iff no region has two rows in the 12-month window, and then with `EmptyRanking` |
| RegionComparison.RankingSorted | scripts/comparar_regiones.py:178-187 | a ranking is a permutation of the entries, has one entry per region with two rows in the window and no region twice, is ascending by figure and has NaN figures last |
| RegionComparison.EligibleListed | scripts/comparar_regiones.py:46-179 | a region with rows in the window is in the region list |
| RegionComparison.RegionalHeatmap | scripts/comparar_regiones.py:218-223 | the regional heatmap is a well-formed pivot with strictly ascending region rows and month columns |
| RegionComparison.RegionalHeatmapChronological | scripts/comparar_regiones.py:218-223 | the regional heatmap's columns are month labels in chronological order |
| RegionComparison.RegionalHeatmapSpan | scripts/comparar_regiones.py:214-223 | the regional heatmap's columns name months among the 24 ending at the latest period, so there are at most 24 |
| RegionComparison.RegionalHeatmapCells | scripts/comparar_regiones.py:218-223 | a row exists exactly for each region with a monthly change in the 24-month window, and each cell is the first value a window row offers for its region and month |
| RegionComparison.CurrentRows | scripts/comparar_regiones.py:253 | holds every copy of the rows of the latest period and nothing else, non-increasing by index, NaN last |
| Text.FirstContained | scripts/generar_index.py:79-82 | the position of the first pattern the string contains, or none iff it contains none |
| Text.SortedUnique | scripts/analizar_ipc.py:63 | `sorted(unique())`: strictly ascending and holding exactly the input's strings |
| Text.StrictlyAscendingUnique | scripts/analizar_ipc.py:63 | two strictly ascending lists with the same members are equal, so the sorted region list is unique |
| Text.ReplaceAll | scripts/analizar_ipc.py:354 | a replacement no longer than the pattern never lengthens the string, and one of the same length keeps it |
| Text.ReplaceAbsent | scripts/analizar_ipc.py:354 | replacing a pattern that does not occur changes nothing |
| Text.ReplaceTrailing | scripts/analizar_ipc.py:354 | replacing a trailing pattern whose first character occurs nowhere before it replaces just that suffix |
| Text.AbsentAcross | scripts/analizar_ipc.py:354 | joining two strings without a pattern cannot create it when the second starts with a character the pattern lacks |
| Text.ReplaceChar | scripts/analizar_ipc.py:354 | replacing one character by another keeps the length and changes exactly that character |
| Text.TitleFromAt | scripts/analizar_ipc.py:354 | `str.title` keeps the length, upper-cases a letter after a non-letter and lower-cases a letter after a letter, and keeps other characters |
| Text.TitleCaseIdempotent | scripts/analizar_ipc.py:354 | title-casing twice is title-casing once |
| Sequences.SortBy | scripts/generar_index.py:114-116 | the sort is ordered by the key and is a permutation of its input |
| Sequences.SortByStable | scripts/generar_index.py:114-116 | the sort keeps the input order of elements with equal keys |
| Sequences.SortNoneLast | scripts/comparar_regiones.py:187 | `sort_values(na_position='last')`: a permutation, missing values last, the present ones ordered ascending or descending |

## Left out

- CSV decoding (Latin-1, `;` separators, `,` decimals, `NA`) and column-name trimming: the model starts from parsed rows (`CpiTable.RawRow`), because this is library I/O.
- The codes and descriptions are text as read; pandas' reading of a numeric column as floats is not modelled.
- plotly figure construction and `write_html`, the jinja2 template, the embedded HTML (`scripts/generar_index.py:143-322`) and file writing: these are foreign library calls.
- The data file's modification time and its formatting (`scripts/generar_index.py:16-21`), and the clock: these are a file-system query.
- `argparse` and all `print` reporting: these are I/O. The region and the starting period are parameters.
- `exit(1)` becomes `Failure(UnknownRegion(...))`, carrying the sorted list the script prints.
- The glob is a listing of base names passed to `ChartIndex.BuildIndex` and to `ChartIndex.IndexFiles`. Every path has the prefix `graficos/`, so sorting paths equals sorting base names.
- The file-system listing before line 336 of `scripts/analizar_ipc.py` is also a parameter (`RegionAnalysis.IndexEntries`).
- Dictionaries become parallel lists in key order. Python dictionaries iterate in insertion order, and that order is all the scripts use.
- Floating-point arithmetic is not modelled:
  - the growth `((final / inicial) - 1) * 100` of `scripts/comparar_regiones.py:184` is the parameter `growth`;
  - the cumulative-inflation formulas (`scripts/analizar_ipc.py:277`, `scripts/analizar_ipc.py:317`, `scripts/comparar_regiones.py:144`) are left out.
- The charts whose data feed only plotly traces are not modelled, since they are plot construction: the per-division line charts, the bar chart of the 12-month window's principal divisions (`scripts/analizar_ipc.py:192-223` beyond the filter itself), and the cumulative charts.
- Sequences.SortNoneLast: pandas' `sort_values` is not stable. The model sorts with a stable insertion sort, but its contracts, and those of `RegionAnalysis.SelectRegion` and `RegionComparison.CurrentRows`, claim only sortedness and a permutation, never an order among ties.
- `str.title` and digit tests cover ASCII only. Non-ASCII letters (such as `Í` or `ó`) are treated as uncased, and Unicode digits other than `0`-`9` are not digits, as in `Text.TitleFromAt`.
- Months are limited to pandas' timestamp range (October 1677 to April 2262), so years always have four digits. A label outside it cannot occur.
- `Periods.ParsePeriod` follows the `%Y%m` pattern of `strptime`: exactly four year digits, then a month field of one or two digits. Leading or trailing spaces and non-ASCII digits are not accepted.
- An empty table has no latest period (`NaT`). Its windows are empty, which is what comparisons with `NaT` give. The `.strftime` of `NaT`, which aborts the run, is left out with the printing, at both places it occurs: `scripts/analizar_ipc.py:79`, and `scripts/comparar_regiones.py:40`, where a table without `NIVEL GENERAL` rows aborts before any ranking or heatmap is built.
- Every row has a region: `CpiTable.Row.region` is a plain string. A missing `Region` (NaN) would make `sorted(...unique())` raise `TypeError` at `scripts/analizar_ipc.py:63` and `scripts/comparar_regiones.py:46`; that abort is not modelled.

## Findings

| source | as written | input that shows it | evidently intended | confidence | as-written member | corrected member |
|---|---|---|---|---|---|---|
| scripts/analizar_ipc.py:192-195 | `str.len() <= 2` and `str.match(r'^\d+$')`; `$` also matches before a final newline | the code `"7\n"` passes both tests | a code of one or two decimal digits only | low, not executed | RegionAnalysis.PrincipalCodeAdmitsNewline | RegionAnalysis.PrincipalRows |

The same filter appears again at `scripts/analizar_ipc.py:229-232`.
`RegionAnalysis.IsPrincipalCodeAsWritten` is the filter as written, and
`RegionAnalysis.PrincipalCodeAgreement` proves that it differs from the
intended `RegionAnalysis.IsPrincipalCode` exactly on a digit followed by a
newline. The heatmap is built on the corrected filter.
