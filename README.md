# Community College Shopper: a verified model of the data-joining core

This project is a Dafny model of the small pieces of sequential logic that sit under the
HTTP and pandas code of the Community College Shopper scripts. Each network call or
spreadsheet read becomes a function parameter, or an input sequence of records.

- **`JoinTools`** (`scripts/join_tools.py`) covers the SOC → CIP → TOP crosswalk join:
  - CIP codes are stripped to digits.
  - TOP codes are zero-padded to 4 before any `.`, keep only the first fractional segment,
    are stripped to digits and are right-padded with `0` to width 6.
  - `match_colleges_top_from_soc` filters the crosswalks, looks up each distinct TOP code
    once in first-seen order, concatenates the programs, left-merges the de-duplicated
    `(TOP Code, TOP Code Title)` pairs and sorts stably by `(CollegeID, TopCode)`.
  - A missing crosswalk file and a failed merge both give an empty table.
- **`Utils`** (`scripts/utils.py`) covers `flatten_dict`:
  - A nested dictionary is an ordered association list of `Value`s.
  - `dict(items)` keeps each key at its first insertion and gives it the value of its last pair.
  - The loop-and-recursion method is proved equal to a specification over the depth-first leaves.
- **`LaborMarket`** (`scripts/labor_market.py`) covers:
  - the whitespace normaliser `_clean_sql`, with `str.split()` characterised as the unique
    split of the input into words and whitespace gaps;
  - the empty table that an HTTP error status, a non-JSON body and missing records degrade to,
    and the exceptions that still reach the caller;
  - the data-dictionary URL and its `ValueError`;
  - the SQL templates with the lowercased title search;
  - the `+=` assembly of the MSA/SOC query;
  - the regular-expression split of an MSA's area name into its name and its counties.
- **`Cccco`** (`scripts/cccco.py`) covers:
  - the three-way routing of the colleges, districts and programs endpoints;
  - the column drop of the colleges table;
  - the empty table that every failure degrades to.
- **`CollegeScorecard`** (`scripts/college_scorecard.py`) covers:
  - the page count `total // per_page + 1`;
  - the page loop, which accumulates results in page order;
  - the per-college student row, whose `college` column comes first.
- **`Common`** holds `Option`, ASCII digits, Python truthiness of an optional string, and the
  order-preserving de-duplication shared by pandas' `unique()`, `drop_duplicates()` and the
  keys of a Python dict.

TOP normalisation right-pads to six digits and drops the `.`: `"0100"` normalises to `"010000"`
and `"1.5"` to `"000150"` (`JoinTools.NormalizeTopPlainExample`,
`JoinTools.NormalizeTopDottedExample`).

## Model

| member | source | states |
|---|---|---|
| Common.Distinct | scripts/join_tools.py:110 | `unique()`: every element of the input is kept once, nothing else appears, and there are no repetitions |
| Common.DistinctFirstSeenOrder | scripts/join_tools.py:110 | de-duplicated elements keep the order of their first occurrence |
| Common.DistinctAbsorbsSuffix | scripts/utils.py:23-26 | de-duplicating a suffix before appending it does not change the final de-duplication |
| Utils.DictOf | scripts/utils.py:26 | `dict(items)` has the distinct keys in first-insertion order, each with the value of its last pair |
| Utils.DictOfIdempotent | scripts/utils.py:26 | building a dict from a dict changes nothing |
| Utils.DictOfUnique | scripts/utils.py:26 | pairs whose keys are already unique are their own dict |
| Utils.DictOfAbsorbsSuffix | scripts/utils.py:23-26 | extending `items` with a nested result that is already a dict gives the same dict as extending it with the nested leaves |
| Utils.DictOfAbsorbsPrefix | scripts/utils.py:23-26 | building the dict of a prefix first does not change the final dict |
| Utils.Leaves | scripts/utils.py:19-25 | specification of the depth-first leaves: no contract of its own; `LeavesAppend`, `LeafPathInLeaves` and `FlattenedHasNoDicts` state what it holds |
| Utils.Flattened | scripts/utils.py:19-26 | specification of `flatten_dict`: `dict` of the leaves; no contract of its own; `FlattenDict` is proved equal to it and `FlattenedKeyOrder`, `FlattenedLastWins`, `FlatDictUnchanged` state its properties |
| Utils.FlattenEntry | scripts/utils.py:21-25 | one pass of the loop body adds the nested call's items for a dict value, otherwise the single pair under the joined key |
| Utils.ItemsBuildLeavesDict | scripts/utils.py:19-26 | the dict of the items gathered over the first entries equals the dict of their depth-first leaves |
| Utils.FlattenDict | scripts/utils.py:19-26 | the loop with its recursive calls returns the dict of all depth-first leaves under their joined keys |
| Utils.FlattenedHasNoDicts | scripts/utils.py:22-25 | no value of the result is a dict |
| Utils.TopLevelLeafKeepsKey | scripts/utils.py:21-25 | with an empty parent key, a top-level non-dict entry is a leaf under its own key, and that key is in the result |
| Utils.PathKeyIsJoined | scripts/utils.py:21-23 | a nested leaf's key is its path of keys joined by `sep`, after `parent_key + sep` when the parent key is not empty |
| Utils.LeafPathInLeaves | scripts/utils.py:19-25 | every leaf of the tree is among the leaves, under the key of its path |
| Utils.LeavesAppend | scripts/utils.py:20-25 | the leaves of consecutive entries come out in the entries' order (depth-first, insertion order) |
| Utils.FlatDictUnchanged | scripts/utils.py:19-26 | a dict without nested dicts, flattened with an empty parent key, is unchanged |
| Utils.FlattenedKeyOrder | scripts/utils.py:19-26 | result keys are ordered by their first depth-first leaf |
| Utils.FlattenedLastWins | scripts/utils.py:26 | on a key collision the leaf met last depth-first is the one in the result |
| JoinTools.StripNonDigits | scripts/join_tools.py:47-52 | the result consists of digits and is no longer than the input |
| JoinTools.StripNonDigitsAppend | scripts/join_tools.py:50 | stripping works piecewise, so the digits keep their original order |
| JoinTools.StripNonDigitsOfDigits | scripts/join_tools.py:77 | a digit string is left as it is |
| JoinTools.StripNonDigitsDropsNonDigit | scripts/join_tools.py:50 | a non-digit character is removed |
| JoinTools.PadTopCode | scripts/join_tools.py:68-74 | the `zfill` lambda; no contract of its own; `PadTopCodeWithDot` and `StripZFill` characterise it |
| JoinTools.NormalizeTop | scripts/join_tools.py:68-79 | the whole TOP normalisation; no contract of its own; `NormalizeTopShape`, `NormalizeTopWithoutDot`, `NormalizeTopWithDot` and `NormalizeTopIdempotent` state its properties |
| JoinTools.ZFill | scripts/join_tools.py:70 | `zfill(4)`: a string of length at least `width` is unchanged; otherwise the result has length `width`, and an unsigned string gets zeros in front |
| JoinTools.LJust | scripts/join_tools.py:78 | `ljust(6, "0")`: the input is a prefix of the result, the tail is all '0', and the length is the larger of the input length and 6 |
| JoinTools.UpTo | scripts/join_tools.py:72 | `split(".")[k]`: the returned field is a prefix with no '.', ending at the first '.' if there is one |
| JoinTools.LoadCipSocCrosswalk | scripts/join_tools.py:47-52 | every CIP code is replaced by its digits; SOC codes and row order are kept |
| JoinTools.LoadCipSocOfDigits | scripts/join_tools.py:47-52 | a crosswalk whose CIP codes are already digits loads unchanged |
| JoinTools.LoadTopCipCrosswalk | scripts/join_tools.py:68-79 | every TOP code is normalised; CIP codes, titles and row order are kept |
| JoinTools.NormalizeTopShape | scripts/join_tools.py:75-79 | the normalised TOP code is all digits and has length max(6, number of digits); shorter codes are right-padded with '0' |
| JoinTools.NormalizeTopWithoutDot | scripts/join_tools.py:69-79 | any code without '.' becomes `4 - len` zeros (none from length 4 on), then its digits, right-padded with '0' to 6; a digit code is zero-padded to 4, then to 6 |
| JoinTools.StripZFill | scripts/join_tools.py:70-77 | stripping a `zfill(4)`-ed code keeps the padding zeros and the code's own digits; a leading sign counts towards the width and is dropped |
| JoinTools.NormalizeTopWithDot | scripts/join_tools.py:69-79 | with a '.', only the part before the first '.' is zero-padded, only the segment right after it is kept, and the '.' disappears |
| JoinTools.PadTopCodeWithDot | scripts/join_tools.py:72 | the padding lambda keeps the padded whole part, the '.' and the first fraction only |
| JoinTools.NormalizeTopFixedPoint | scripts/join_tools.py:68-79 | a digit string of length at least 6 is a fixed point |
| JoinTools.NormalizeTopIdempotent | scripts/join_tools.py:68-79 | normalising a normalised code changes nothing |
| JoinTools.LoadTopCipOfNormal | scripts/join_tools.py:68-79 | a crosswalk whose TOP codes are digit strings of length at least 6 loads unchanged |
| JoinTools.LoadedTopCodesAreNormal | scripts/join_tools.py:75-79 | every loaded TOP code is a digit string of length at least 6 |
| JoinTools.NormalizeTopDottedExample | scripts/join_tools.py:68-79 | "1.5" becomes "000150" |
| JoinTools.NormalizeTopPlainExample | scripts/join_tools.py:68-79 | "0100" becomes "010000" |
| JoinTools.MatchedCipCodes | scripts/join_tools.py:100-102 | the CIP codes are exactly those of the rows whose SOC code equals the given one |
| JoinTools.MatchedTopRows | scripts/join_tools.py:104-108 | a crosswalk row is kept exactly when its CIP code is one of the matched CIP codes |
| JoinTools.MatchedTopRowsAppend | scripts/join_tools.py:104-108 | the filter keeps row order: the matches of `a + b` are those of `a`, then those of `b` |
| JoinTools.MatchedTopRowsOne | scripts/join_tools.py:104-108 | a single row is kept exactly when its CIP code is matched |
| JoinTools.MatchedTopFollowsCrosswalk | scripts/join_tools.py:104-110 | the matched rows and their TOP codes follow the crosswalk file's row order |
| JoinTools.ConcatLookups | scripts/join_tools.py:112-118 | specification of the accumulator: the lookups' programs concatenated in code order; no contract of its own; `AccumulatePrograms` is proved equal to it |
| JoinTools.TitlesFor | scripts/join_tools.py:124-133 | the titles that the de-duplicated pairs give a TOP code, without repetition |
| JoinTools.JoinOne | scripts/join_tools.py:120-135 | the left merge gives each program row at least one row |
| JoinTools.JoinOneRows | scripts/join_tools.py:120-135 | a program row is repeated once per distinct title of its TOP code; it gets one untitled row exactly when its code matches no pair |
| JoinTools.LeftJoin | scripts/join_tools.py:120-133 | the left merge, program row by program row; no contract of its own; `JoinOneRows` and `LeftJoinKeepsPrograms` state what it keeps |
| JoinTools.LeftJoinKeepsPrograms | scripts/join_tools.py:120-135 | every program row survives the merge; a merged row is untitled exactly when its TOP code has no title, and otherwise carries one of that code's titles |
| JoinTools.SortedLeftJoin | scripts/join_tools.py:120-136 | the sorted merge is sorted, a permutation of the merge, keeps every program and titles exactly the codes that have a title |
| JoinTools.InsertSorted | scripts/join_tools.py:136 | inserting into a sorted list keeps it sorted and adds exactly the new row |
| JoinTools.SortRows | scripts/join_tools.py:136 | insertion sort by `(CollegeID, TopCode)`; no contract of its own; the `SortRows*` lemmas state that it is a stable sorted permutation |
| JoinTools.SortRowsSortedPermutation | scripts/join_tools.py:136 | `sort_values(by=["CollegeID", "TopCode"])` gives a sorted permutation |
| JoinTools.SortRowsOfSorted | scripts/join_tools.py:136 | sorting sorted rows changes nothing |
| JoinTools.SortRowsIdempotent | scripts/join_tools.py:136 | sorting twice is sorting once |
| JoinTools.SortRowsStable | scripts/join_tools.py:136 | rows with equal `(CollegeID, TopCode)` keep their relative order |
| JoinTools.AccumulatePrograms | scripts/join_tools.py:112-118 | one lookup per code, in order; the accumulator is the concatenation of the lookups' results |
| JoinTools.MatchSpec | scripts/join_tools.py:93-144 | specification of the whole pipeline; no contract of its own; `JoinedResultProperties`, `NoSocMatchIsEmpty` and `LookupsOncePerCode` state its properties |
| JoinTools.MatchCollegesTopFromSoc | scripts/join_tools.py:93-144 | a missing file gives an empty table and no lookup; the lookups are the distinct matched TOP codes; the table is the pipeline's result |
| JoinTools.NoSocMatchIsEmpty | scripts/join_tools.py:100-142 | a SOC code that matches no row gives no lookup, and the failed merge of the empty accumulator gives an empty result |
| JoinTools.LookupsOncePerCode | scripts/join_tools.py:110-118 | each matched TOP code is looked up exactly once, in order of first occurrence among the matched rows (which keep the crosswalk's order, `MatchedTopFollowsCrosswalk`) |
| JoinTools.JoinedResultProperties | scripts/join_tools.py:120-138 | a joined result is sorted, is a permutation of the left merge, keeps every accumulated program, and has null titles exactly for unmatched codes |
| JoinTools.TitlePairsOfMatched | scripts/join_tools.py:124-129 | a `(code, title)` pair is merged exactly when some matched crosswalk row has that code and that title |
| JoinTools.ExampleMatchedRows | scripts/join_tools.py:100-108 | for SOC 15-1252, the CIP row 110201 matches the TOP row 070100 |
| JoinTools.ExampleLookups | scripts/join_tools.py:110-118 | for SOC 15-1252, the one lookup of 070100 gives the single program |
| JoinTools.ExampleJoin | scripts/join_tools.py:120-136 | for SOC 15-1252, the single program gets the title "Computer Science" |
| JoinTools.EndToEndExample | scripts/join_tools.py:83-144 | for SOC 15-1252, one crosswalk row each way and one program give exactly one row titled "Computer Science" |
| LaborMarket.Split | scripts/labor_market.py:24 | `str.split()`: every token is non-empty and free of whitespace; `SplitTokenises` and `TokenisesIsSplit` fix the tokens as the maximal non-space runs |
| LaborMarket.Gaps | scripts/labor_market.py:24 | the whitespace runs around the tokens: one more than there are tokens, the first non-empty when the input starts with whitespace |
| LaborMarket.SplitTokenises | scripts/labor_market.py:24 | the input is exactly its tokens interleaved with whitespace gaps, every gap between two tokens non-empty: `split()` drops only whitespace |
| LaborMarket.TokenisesIsSplit | scripts/labor_market.py:24 | any interleaving of words with whitespace gaps (inner gaps non-empty) that spells the input has exactly `Split`'s tokens: no token is cut, merged or reordered |
| LaborMarket.SplitKeepsNonSpaces | scripts/labor_market.py:24 | the tokens run together are exactly the non-space characters of the input, in order |
| LaborMarket.SplitCountsRuns | scripts/labor_market.py:24 | there is one token per run of non-space characters |
| LaborMarket.ReplaceNewlines | scripts/labor_market.py:24 | each '\n' becomes ' ' and every other character is kept |
| LaborMarket.SplitJoinWords | scripts/labor_market.py:24 | splitting words joined by single spaces gives back the words |
| LaborMarket.JoinWordsSingleSpaced | scripts/labor_market.py:24 | words joined by `" "` are single-spaced and start and end with a non-space |
| LaborMarket.SplitReplaceNewlines | scripts/labor_market.py:24 | replacing newlines by spaces does not change the tokens |
| LaborMarket.CleanSql | scripts/labor_market.py:20-24 | `_clean_sql`; no contract of its own; `CleanSqlShape`, `CleanSqlKeepsTokens` and `CleanSqlIdempotent` state its properties |
| LaborMarket.CleanSqlShape | scripts/labor_market.py:20-24 | the cleaned SQL has no newline, no leading or trailing space and no two spaces in a row |
| LaborMarket.CleanSqlKeepsTokens | scripts/labor_market.py:24 | cleaning keeps the whitespace-free tokens, in order |
| LaborMarket.CleanSqlIdempotent | scripts/labor_market.py:24 | cleaning cleaned SQL changes nothing |
| LaborMarket.SqlToTable | scripts/labor_market.py:27-48 | the cleaned SQL is sent; an HTTP error status, a non-JSON body and missing `result.records` give an empty table, the records otherwise; a connection error or timeout, and JSON without `.get`, raise |
| LaborMarket.DataDictionaryUrl | scripts/labor_market.py:59-69 | a URL exactly for "occupation" and "industry" (the map's keys), otherwise the ValueError; "occupation" gives `https://data.ca.gov/dataset/long-term-occupational-employment-projections/resource/` followed by the occupation resource id, and "industry" the industry path followed by the industry resource id |
| LaborMarket.LastOpenParen | scripts/labor_market.py:92 | finds the last " (" |
| LaborMarket.SplitAreaName | scripts/labor_market.py:90-92 | both parts are present or both missing; if present, `X + " (" + Y + ")"` is the area name without its final newline, and Y holds no " (" |
| LaborMarket.SplitAreaNameOfForm | scripts/labor_market.py:90-92 | every one-line name of the form `X (Y)` is split, into exactly X and Y when Y holds no " (" |
| LaborMarket.MsaRows | scripts/labor_market.py:90-92 | one row per area name, with its split; no rows for no names |
| LaborMarket.MsaData | scripts/labor_market.py:87-92 | as written: an empty query result raises KeyError, and otherwise the rows are those of `MsaRows` |
| LaborMarket.MsaDataFailsOnFailedQuery | scripts/labor_market.py:87-92 | a failed request, turned into an empty table, makes the MSA listing raise |
| LaborMarket.Lower | scripts/labor_market.py:129 | `lower()` keeps the length, leaves no upper-case letter and changes only upper-case letters |
| LaborMarket.TitleSql | scripts/labor_market.py:129-139 | the lowercased search term stands inside `LIKE '%…%'` in the query |
| LaborMarket.ProjectionsSql | scripts/labor_market.py:189-200 | the base query comes first; the Area Name clause is added only for a truthy area and the SOC clause only for a truthy SOC, area clause first |
| Cccco.CollegesUrl | scripts/cccco.py:26-33 | the URL starts with `https://api.cccco.edu/` |
| Cccco.DistrictsUrl | scripts/cccco.py:54-61 | the URL starts with `https://api.cccco.edu/` |
| Cccco.ProgramsUrl | scripts/cccco.py:82-89 | the URL starts with `https://api.cccco.edu/`; numeric and text parameters both give `programs/search/<param>` |
| Cccco.RouteAllIsBare | scripts/cccco.py:28-29 | only the bare resource URL reads back as the whole list |
| Cccco.RouteReadsBack | scripts/cccco.py:30-33 | `<resource>/<id>` with a numeric id reads back as that id, `<resource>/search/<text>` as that search |
| Cccco.CollegesUrlReadsBack | scripts/cccco.py:28-33 | a falsy parameter routes to the whole list (`…/colleges`), a numeric one to `colleges/<id>`, any other to `colleges/search/<text>`; the URL gives the parameter back |
| Cccco.DistrictsUrlReadsBack | scripts/cccco.py:56-61 | a falsy parameter routes to the whole list (`…/districts`), a numeric one to `districts/<id>`, any other to `districts/search/<text>`; the URL gives the parameter back |
| Cccco.ProgramsUrlReadsBack | scripts/cccco.py:84-89 | a falsy parameter routes to the whole list (`…/programs`), every other one, numeric or not, to `programs/search/<text>`; the URL gives the parameter back |
| Cccco.RoutesAreInjective | scripts/cccco.py:28-89 | two searches that share a URL have the same effective parameter |
| Cccco.DropColumn | scripts/cccco.py:38 | `drop(columns=[c])` fails exactly when there is no column `c`; otherwise `c` is gone, the other columns stay in their order and the rows are kept |
| Cccco.DropColumnKeepsOthers | scripts/cccco.py:38 | dropping a column keeps every other column's values |
| Cccco.CollegesTable | scripts/cccco.py:35-41 | a failure, or a body without `CollegeContacts`, gives the empty table; otherwise the frame without that column |
| Cccco.DistrictsTable | scripts/cccco.py:63-69 | a failure gives the empty table; otherwise the response frame |
| Cccco.ProgramsTable | scripts/cccco.py:91-97 | a failure gives the empty table; otherwise the response frame |
| CollegeScorecard.FloorDiv | scripts/college_scorecard.py:43 | Python's `//` rounds toward negative infinity |
| CollegeScorecard.PageCount | scripts/college_scorecard.py:42-44 | `total // per_page + 1` pages: for a positive page size, the first n-1 pages can be filled and n pages hold more than `total` |
| CollegeScorecard.Requests | scripts/college_scorecard.py:30-48 | pages 1..n are requested in increasing order, each with the same key, state and `per_page = 100` |
| CollegeScorecard.GetScorecardsByState | scripts/college_scorecard.py:29-53 | page 1, then pages 2..`total // per_page + 1`, are requested; the result is the pages' results in page order; a zero `per_page` raises |
| CollegeScorecard.OnePageWhenFewerThanPerPage | scripts/college_scorecard.py:42-46 | when `total < per_page`, exactly one request is made |
| CollegeScorecard.ExactMultipleAsksOneMore | scripts/college_scorecard.py:42-44 | when `total` is k times `per_page`, k+1 pages are requested |
| CollegeScorecard.ResultsUpTo | scripts/college_scorecard.py:46-53 | specification of the accumulated schools; no contract of its own; `ResultsPrefix`, `PageInResults` and `ResultsFromPages` state its properties |
| CollegeScorecard.ResultsPrefix | scripts/college_scorecard.py:51 | the results of the first pages stay a prefix as more pages are added |
| CollegeScorecard.PageInResults | scripts/college_scorecard.py:46-53 | page k's schools fill, in their order, the slice right after those of pages 1..k-1 |
| CollegeScorecard.ResultsFromPages | scripts/college_scorecard.py:46-53 | every accumulated school comes from one of the requested pages |
| CollegeScorecard.OtherColumns | scripts/college_scorecard.py:75-77 | the list comprehension over the columns; no contract of its own; `OtherColumnsKeepsOthers`, `OtherColumnsAppend` and `OtherColumnsOne` state what it keeps and in which order |
| CollegeScorecard.OtherColumnsAppend | scripts/college_scorecard.py:76 | the filter keeps column order: the kept columns of `a + b` are those of `a`, then those of `b` |
| CollegeScorecard.OtherColumnsOne | scripts/college_scorecard.py:76 | a single column is kept exactly when it is not named `college` |
| CollegeScorecard.OtherColumnsKeepsOthers | scripts/college_scorecard.py:76 | a column is kept exactly when it is not named `college` |
| CollegeScorecard.StudentRow | scripts/college_scorecard.py:71-77 | one college's row: `college` then the other flattened columns; no contract of its own; `StudentRowShape` states its shape |
| CollegeScorecard.StudentRowShape | scripts/college_scorecard.py:74-77 | the row starts with `college` = school name, and the rest holds exactly the flattened columns not named `college` (in their order, by `OtherColumnsAppend`) |
| CollegeScorecard.BuildStudentRows | scripts/college_scorecard.py:69-78 | the loop appends each college's row, as written, with every flattened leaf one cell |
| CollegeScorecard.StudentRowsAsWritten | scripts/college_scorecard.py:69-78 | the rows as the code builds them when every flattened leaf is one cell; no contract of its own; `StudentRowsAsWrittenAtMost`, `StudentRowsAsWrittenLoses` and `StudentRowsAgree` state how they relate to one row per college |
| CollegeScorecard.EmptyStudentDataDropsCollege | scripts/college_scorecard.py:71-74 | as written, a college with empty student data adds no row |
| CollegeScorecard.StudentRows | scripts/college_scorecard.py:69-78 | as intended: exactly one row per college, in order |
| CollegeScorecard.StudentRowsAsWrittenAtMost | scripts/college_scorecard.py:69-78 | as written, with every flattened leaf one cell, there are never more rows than colleges |
| CollegeScorecard.StudentRowsAsWrittenLoses | scripts/college_scorecard.py:71-78 | as written, with every flattened leaf one cell, a college with empty flattened student data leaves fewer rows than colleges |
| CollegeScorecard.StudentRowsAgree | scripts/college_scorecard.py:69-78 | with every flattened leaf one cell, the code as written gives one row per college exactly when no college's student data flattens to nothing |

## Left out

- HTTP requests, `raise_for_status`, `verify=False` and the `urllib3` warnings: each fetch is a
  function parameter. An HTTP failure is one value of its result.
- `pd.read_excel`, `pd.read_html` and reading the API key file: the crosswalks are input
  sequences of rows, and the API key is a parameter.
- `time.sleep` and every `print`: timing and console output.
- `get_best_match`: it wraps the `fuzzywuzzy` library, which is not part of this model.
- `.astype(float)` on the nine projection columns, the descending `Percentage Change` sort and
  the `sort_values` calls on the projection tables: floating point, and pandas sorting of
  remote rows.
- `_get_top_occupation_per_msa`: its correlated-subquery SQL is run by the remote engine.
- Pandas `concat` aligns columns by name and fills gaps with NaN. The accumulated programs and
  the student rows are modelled as row lists, and each student row keeps its own ordered
  columns.
- JoinTools.MatchCollegesTopFromSoc: the merge is modelled as failing exactly when no program
  was accumulated, because the empty frame has no `TopCode` column. Other schema failures inside
  the `try` are not modelled.
- JoinTools.StripNonDigits: only the ASCII digits '0'-'9' count as digits. Python's `\D` on `str`
  also keeps other Unicode decimal digits, which the model drops.
- JoinTools.SortKey: `CollegeID` is an integer and `TopCode` a string compared by code point.
  API values of other types are not modelled.
- LaborMarket.Lower: only ASCII letters are lowercased. Python's Unicode case mapping is not
  modelled.
- Cccco.CollegesUrl: `str.isnumeric` is modelled over ASCII digits only. Other Unicode numeric
  characters are not modelled.
- LaborMarket.SqlToTable: the kinds of exception that propagate are not told apart, and records
  that are not a list of row objects are not modelled.
- Cccco.CollegesTable: a JSON body is given as an already-built frame. How `pd.DataFrame` builds
  columns from JSON is not modelled.
- CollegeScorecard.GetScorecardsByState: responses are assumed to carry `metadata` and `results`.
  The `KeyError` of a malformed response is not modelled.
- CollegeScorecard.BuildStudentRows: the school record is reduced to `school.name` and
  `latest.student`. The error of a record without them is not modelled. Every flattened leaf
  is taken as one cell, so a college gives at most one row. When the first leaf is a list,
  `from_dict(orient="index").T` spreads the lists over several rows; such list-valued leaves
  are not modelled, because that layout is decided inside pandas, which is not part of this model.
- CollegeScorecard.StudentRowsAsWritten: states the rows only for student data whose leaves
  are single cells; the extra rows of list-valued leaves are not modelled.
- CollegeScorecard.StudentRowsAsWrittenAtMost: holds only when every leaf is one cell; a
  list-valued first leaf can give one college several rows in the code.
- CollegeScorecard.StudentRowsAsWrittenLoses: holds only when every leaf is one cell; another
  college's list-valued leaves can make up for the lost row in the code.
- CollegeScorecard.StudentRowsAgree: holds only when every leaf is one cell; list-valued leaves
  add rows that the equivalence does not account for.

## Findings

| source | as written | input that shows it | evidently intended | confidence | as-written member | corrected member |
|---|---|---|---|---|---|---|
| scripts/labor_market.py:87-92 | The MSA listing indexes the "Area Name" column of the query result. `_labor_market_sql_to_dataframe` returns an empty frame with no columns on an HTTP error status or a body that is not JSON, and that indexing raises `KeyError`. | An HTTP error status from the SQL endpoint. | The empty table the error policy promises, i.e. no MSA rows. | medium, not executed | LaborMarket.MsaDataFailsOnFailedQuery | LaborMarket.MsaRows |
| scripts/college_scorecard.py:71-78 | `DataFrame.from_dict({}, orient="index").T` has no rows, so assigning `college` adds none. A college whose student data flattens to nothing is missing from the result. | A school whose `latest.student` is `{}`. | One row per college, holding at least its name. | low, not executed | CollegeScorecard.EmptyStudentDataDropsCollege | CollegeScorecard.StudentRows |
