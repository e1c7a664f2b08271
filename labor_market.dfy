/** The query builders of scripts/labor_market.py: the SQL whitespace
    normaliser, the data-dictionary URL, the SQL texts of the projection
    queries, the empty-table policy of the SQL endpoint call, and the split of
    an MSA's area name into its name and its counties. */
module LaborMarket {
  import opened Common

  // =====================================================================
  // _clean_sql

  /** The characters Python's `str.split()` splits on (`str.isspace`). */
  predicate IsSpace(c: char) {
    var n := c as int;
    (9 <= n <= 13) || (28 <= n <= 32) || n == 0x85 || n == 0xA0 || n == 0x1680
    || (0x2000 <= n <= 0x200A) || n == 0x2028 || n == 0x2029 || n == 0x202F
    || n == 0x205F || n == 0x3000
  }

  /** A token of `str.split()`: not empty, no whitespace. */
  predicate IsWord(w: string) {
    w != [] && forall i :: 0 <= i < |w| ==> !IsSpace(w[i])
  }

  /** Length of the run of non-space characters at the start of `s`. */
  function WordLen(s: string): (n: nat)
    ensures n <= |s|
    ensures forall i :: 0 <= i < n ==> !IsSpace(s[i])
    ensures n < |s| ==> IsSpace(s[n])
  {
    if s == [] || IsSpace(s[0]) then 0 else 1 + WordLen(s[1..])
  }

  /** `s.split()`: the maximal runs of non-space characters, in order. */
  function Split(s: string): (ws: seq<string>)
    ensures forall i :: 0 <= i < |ws| ==> IsWord(ws[i])
    decreases |s|
  {
    if s == [] then []
    else if IsSpace(s[0]) then Split(s[1..])
    else
      var n := WordLen(s);
      [s[..n]] + Split(s[n..])
  }

  /** `" ".join(ws)`. */
  function JoinWords(ws: seq<string>): string {
    if ws == [] then ""
    else if |ws| == 1 then ws[0]
    else ws[0] + " " + JoinWords(ws[1..])
  }

  /** `s.replace("\n", " ")`. */
  function ReplaceNewlines(s: string): (r: string)
    ensures |r| == |s|
    ensures forall i :: 0 <= i < |s| ==> r[i] == if s[i] == '\n' then ' ' else s[i]
  {
    seq(|s|, i requires 0 <= i < |s| => if s[i] == '\n' then ' ' else s[i])
  }

  /** `_clean_sql(sql)`. */
  function CleanSql(sql: string): string {
    JoinWords(Split(ReplaceNewlines(sql)))
  }

  /** Every whitespace character is a single ' ' strictly between two
      non-space characters. */
  predicate SingleSpaced(r: string) {
    forall i :: 0 <= i < |r| && IsSpace(r[i]) ==> r[i] == ' ' && 0 < i < |r| - 1 && !IsSpace(r[i + 1])
  }

  /** Splitting depends only on where the whitespace is and on the other
      characters. */
  lemma {:induction false} SplitSameShape(s: string, t: string)
    requires |s| == |t|
    requires forall i :: 0 <= i < |s| ==> (IsSpace(s[i]) <==> IsSpace(t[i]))
    requires forall i :: 0 <= i < |s| && !IsSpace(s[i]) ==> s[i] == t[i]
    ensures Split(s) == Split(t)
    decreases |s|
  {
    if s != [] {
      if IsSpace(s[0]) {
        SplitSameShape(s[1..], t[1..]);
      } else {
        var n := WordLen(s);
        WordLenSameShape(s, t);
        assert s[..n] == t[..n];
        SplitSameShape(s[n..], t[n..]);
      }
    }
  }

  lemma {:induction false} WordLenSameShape(s: string, t: string)
    requires |s| == |t|
    requires forall i :: 0 <= i < |s| ==> (IsSpace(s[i]) <==> IsSpace(t[i]))
    ensures WordLen(s) == WordLen(t)
  {
    if s != [] && !IsSpace(s[0]) {
      WordLenSameShape(s[1..], t[1..]);
    }
  }

  /** A word followed by whitespace (or nothing) is the first token. */
  lemma SplitWordThen(w: string, rest: string)
    requires IsWord(w)
    requires rest == [] || IsSpace(rest[0])
    ensures Split(w + rest) == [w] + Split(rest)
  {
    WordLenWordThen(w, rest);
    assert (w + rest)[..|w|] == w;
    assert (w + rest)[|w|..] == rest;
  }

  lemma {:induction false} WordLenWordThen(w: string, rest: string)
    requires forall i :: 0 <= i < |w| ==> !IsSpace(w[i])
    requires rest == [] || IsSpace(rest[0])
    ensures WordLen(w + rest) == |w|
  {
    if w != [] {
      assert (w + rest)[1..] == w[1..] + rest;
      WordLenWordThen(w[1..], rest);
    } else {
      assert w + rest == rest;
    }
  }

  /** The non-space characters of `s`, in order. */
  function NonSpaces(s: string): string {
    if s == [] then [] else (if IsSpace(s[0]) then [] else [s[0]]) + NonSpaces(s[1..])
  }

  /** The tokens run together. */
  function Concat(ws: seq<string>): string {
    if ws == [] then [] else ws[0] + Concat(ws[1..])
  }

  /** How many runs of non-space characters start in `s`: positions holding a
      non-space character right after whitespace, or at the start when
      `afterSpace` holds. */
  function RunStarts(s: string, afterSpace: bool): nat {
    if s == [] then 0
    else (if afterSpace && !IsSpace(s[0]) then 1 else 0) + RunStarts(s[1..], IsSpace(s[0]))
  }

  /** The tokens hold every non-space character of `s` in order, and nothing
      else. Where the tokens are cut is fixed by `SplitTokenises` and
      `TokenisesIsSplit`. */
  lemma {:induction false} SplitKeepsNonSpaces(s: string)
    ensures Concat(Split(s)) == NonSpaces(s)
    decreases |s|
  {
    if s != [] {
      if IsSpace(s[0]) {
        SplitKeepsNonSpaces(s[1..]);
      } else {
        var n := WordLen(s);
        var word := s[..n];
        var rest := s[n..];
        SplitKeepsNonSpaces(rest);
        NonSpacesOfWord(word);
        assert s == word + rest;
        NonSpacesAppend(word, rest);
        assert Split(s) == [word] + Split(rest);
      }
    }
  }

  /** There is one token per run of non-space characters. */
  lemma {:induction false} SplitCountsRuns(s: string)
    ensures |Split(s)| == RunStarts(s, true)
    decreases |s|
  {
    if s != [] {
      if IsSpace(s[0]) {
        SplitCountsRuns(s[1..]);
      } else {
        var n := WordLen(s);
        var rest := s[n..];
        SplitCountsRuns(rest);
        RunStartsSkipRun(s[1..], n - 1);
        assert s[1..][n - 1..] == rest;
        RunStartsAtSpace(rest);
      }
    }
  }

  /** A string of whitespace only (possibly empty). */
  predicate SpaceRun(g: string) {
    forall i :: 0 <= i < |g| ==> IsSpace(g[i])
  }

  /** `gaps[0] + ws[0] + gaps[1] + ws[1] + ... + ws[k-1] + gaps[k]`. */
  function Weave(gaps: seq<string>, ws: seq<string>): string
    requires |gaps| == |ws| + 1
  {
    if ws == [] then gaps[0] else gaps[0] + ws[0] + Weave(gaps[1..], ws[1..])
  }

  /** `s` is the tokens `ws` interleaved with whitespace gaps, the gaps
      between two tokens not empty: what `s.split()` returning `ws` means. */
  predicate Tokenises(s: string, gaps: seq<string>, ws: seq<string>) {
    |gaps| == |ws| + 1
    && (forall i :: 0 <= i < |ws| ==> IsWord(ws[i]))
    && (forall i :: 0 <= i < |gaps| ==> SpaceRun(gaps[i]))
    && (forall i :: 0 < i < |ws| ==> gaps[i] != [])
    && s == Weave(gaps, ws)
  }

  /** The whitespace runs of `s` around and between the tokens of `Split(s)`:
      the leading run, one run after each token, the last one possibly empty. */
  function Gaps(s: string): (gaps: seq<string>)
    ensures |gaps| == |Split(s)| + 1
    ensures s != [] && IsSpace(s[0]) ==> gaps[0] != []
    decreases |s|
  {
    if s == [] then [""]
    else if IsSpace(s[0]) then
      var g := Gaps(s[1..]);
      [[s[0]] + g[0]] + g[1..]
    else
      var n := WordLen(s);
      [""] + Gaps(s[n..])
  }

  /** `s` is its tokens interleaved with its whitespace gaps: `Split` drops
      only whitespace, and only a non-empty whitespace run separates tokens. */
  lemma {:induction false} SplitTokenises(s: string)
    ensures Tokenises(s, Gaps(s), Split(s))
    decreases |s|
  {
    if s != [] {
      if IsSpace(s[0]) {
        var t := s[1..];
        SplitTokenises(t);
        var g := Gaps(t);
        TokenisesConsSpace(s[0], t, g, Split(t));
        assert s == [s[0]] + t;
        assert Gaps(s) == [[s[0]] + g[0]] + g[1..];
        assert Split(s) == Split(t);
      } else {
        var n := WordLen(s);
        var rest := s[n..];
        SplitTokenises(rest);
        TokenisesConsWord(s[..n], rest, Gaps(rest), Split(rest));
        assert s == s[..n] + rest;
        assert Gaps(s) == [""] + Gaps(rest);
        assert Split(s) == [s[..n]] + Split(rest);
      }
    }
  }

  /** Whitespace in front joins the leading gap. */
  lemma TokenisesConsSpace(c: char, t: string, g: seq<string>, ws: seq<string>)
    requires IsSpace(c) && Tokenises(t, g, ws)
    ensures Tokenises([c] + t, [[c] + g[0]] + g[1..], ws)
  {
    var h := [[c] + g[0]] + g[1..];
    WeaveConsSpace(c, g, ws);
    forall i | 0 <= i < |h| ensures SpaceRun(h[i]) {
      if i > 0 { assert h[i] == g[i]; }
    }
  }

  /** A word in front becomes the first token, after an empty leading gap. */
  lemma TokenisesConsWord(w: string, rest: string, g: seq<string>, ws: seq<string>)
    requires IsWord(w) && Tokenises(rest, g, ws)
    requires ws != [] ==> g[0] != []
    ensures Tokenises(w + rest, [""] + g, [w] + ws)
  {
    var h, vs := [""] + g, [w] + ws;
    assert h[1..] == g && vs[1..] == ws;
    forall i | 0 < i < |vs| ensures h[i] != [] {
      assert h[i] == g[i - 1];
    }
    forall i | 0 <= i < |h| ensures SpaceRun(h[i]) {
      if i > 0 { assert h[i] == g[i - 1]; }
    }
    forall i | 0 <= i < |vs| ensures IsWord(vs[i]) {
      if i > 0 { assert vs[i] == ws[i - 1]; }
    }
  }

  lemma WeaveConsSpace(c: char, g: seq<string>, ws: seq<string>)
    requires |g| == |ws| + 1
    ensures Weave([[c] + g[0]] + g[1..], ws) == [c] + Weave(g, ws)
  {
    var h := [[c] + g[0]] + g[1..];
    assert h[1..] == g[1..];
  }

  /** Conversely, any interleaving of words with whitespace gaps that gives
      `s` has exactly the tokens `Split(s)`: no token is cut, merged or
      reordered. */
  lemma {:induction false} TokenisesIsSplit(s: string, gaps: seq<string>, ws: seq<string>)
    requires Tokenises(s, gaps, ws)
    ensures ws == Split(s)
    decreases |s|
  {
    if gaps[0] != [] {
      var g := [gaps[0][1..]] + gaps[1..];
      assert gaps[0] == [gaps[0][0]] + gaps[0][1..];
      assert gaps == [[gaps[0][0]] + g[0]] + g[1..];
      WeaveConsSpace(gaps[0][0], g, ws);
      var t := Weave(g, ws);
      assert s == [gaps[0][0]] + t;
      assert s[1..] == t;
      forall i | 0 <= i < |g| ensures SpaceRun(g[i]) {
        if i > 0 { assert g[i] == gaps[i]; }
      }
      forall i | 0 < i < |ws| ensures g[i] != [] {
        assert g[i] == gaps[i];
      }
      TokenisesIsSplit(t, g, ws);
    } else if ws != [] {
      var w := ws[0];
      var rest := Weave(gaps[1..], ws[1..]);
      assert s == w + rest;
      assert IsWord(w);
      WeaveStartsWithSpace(gaps[1..], ws[1..]);
      SplitWordThen(w, rest);
      forall i | 0 <= i < |ws[1..]| ensures IsWord(ws[1..][i]) {
        assert ws[1..][i] == ws[i + 1];
      }
      forall i | 0 <= i < |gaps[1..]| ensures SpaceRun(gaps[1..][i]) {
        assert gaps[1..][i] == gaps[i + 1];
      }
      forall i | 0 < i < |ws[1..]| ensures gaps[1..][i] != [] {
        assert gaps[1..][i] == gaps[i + 1];
      }
      assert |rest| < |s|;
      TokenisesIsSplit(rest, gaps[1..], ws[1..]);
      assert ws == [w] + ws[1..];
    }
  }

  /** After a token, the rest starts with whitespace or is empty. */
  lemma WeaveStartsWithSpace(gaps: seq<string>, ws: seq<string>)
    requires |gaps| == |ws| + 1
    requires SpaceRun(gaps[0])
    requires ws != [] ==> gaps[0] != []
    ensures Weave(gaps, ws) == [] || IsSpace(Weave(gaps, ws)[0])
  {
    if gaps[0] != [] {
      assert Weave(gaps, ws)[0] == gaps[0][0];
    }
  }

  lemma {:induction false} NonSpacesAppend(a: string, b: string)
    ensures NonSpaces(a + b) == NonSpaces(a) + NonSpaces(b)
  {
    if a != [] {
      assert (a + b)[1..] == a[1..] + b;
      NonSpacesAppend(a[1..], b);
    } else {
      assert a + b == b;
    }
  }

  lemma {:induction false} NonSpacesOfWord(w: string)
    requires forall i :: 0 <= i < |w| ==> !IsSpace(w[i])
    ensures NonSpaces(w) == w
  {
    if w != [] {
      NonSpacesOfWord(w[1..]);
    }
  }

  /** Inside a run no new run starts. */
  lemma {:induction false} RunStartsSkipRun(t: string, m: nat)
    requires m <= |t|
    requires forall i :: 0 <= i < m ==> !IsSpace(t[i])
    ensures RunStarts(t, false) == RunStarts(t[m..], false)
  {
    if m > 0 {
      var k := m - 1;
      RunStartsSkipRun(t[1..], k);
      assert t[1..][k..] == t[m..];
    }
  }

  /** Before whitespace (or at the end) it does not matter whether a run was
      under way. */
  lemma RunStartsAtSpace(t: string)
    requires t == [] || IsSpace(t[0])
    ensures RunStarts(t, false) == RunStarts(t, true)
  {
  }

  /** Joining words with single spaces and splitting again gives the words. */
  lemma {:induction false} SplitJoinWords(ws: seq<string>)
    requires forall i :: 0 <= i < |ws| ==> IsWord(ws[i])
    ensures Split(JoinWords(ws)) == ws
  {
    if |ws| == 1 {
      SplitWordThen(ws[0], "");
      assert ws[0] + "" == ws[0];
    } else if |ws| > 1 {
      SplitJoinWords(ws[1..]);
      var rest := " " + JoinWords(ws[1..]);
      assert ws[0] + " " + JoinWords(ws[1..]) == ws[0] + rest;
      SplitWordThen(ws[0], rest);
      assert rest[1..] == JoinWords(ws[1..]);
      assert Split(rest) == Split(JoinWords(ws[1..]));
      assert ws == [ws[0]] + ws[1..];
    }
  }

  /** Words joined with single spaces are single-spaced, and begin and end with
      a non-space character. */
  lemma {:induction false} JoinWordsSingleSpaced(ws: seq<string>)
    requires forall i :: 0 <= i < |ws| ==> IsWord(ws[i])
    ensures SingleSpaced(JoinWords(ws))
    ensures ws != [] ==> (JoinWords(ws) != [] && !IsSpace(JoinWords(ws)[0])
      && !IsSpace(JoinWords(ws)[|JoinWords(ws)| - 1]))
  {
    if |ws| > 1 {
      JoinWordsSingleSpaced(ws[1..]);
      var w := ws[0];
      var j := JoinWords(ws[1..]);
      var r := JoinWords(ws);
      assert r == w + " " + j;
      forall i | 0 <= i < |r| && IsSpace(r[i])
        ensures r[i] == ' ' && 0 < i < |r| - 1 && !IsSpace(r[i + 1])
      {
        if i > |w| {
          assert r[i] == j[i - |w| - 1];
          assert r[i + 1] == j[i - |w|];
        } else if i == |w| {
          assert r[i + 1] == j[0];
        }
      }
      assert r[0] == w[0];
      assert r[|r| - 1] == j[|j| - 1];
    }
  }

  /** The cleaned SQL has no newline, no leading or trailing space and never
      two spaces in a row; every whitespace character is a single ' '. */
  lemma CleanSqlShape(sql: string)
    ensures var r := CleanSql(sql);
      && SingleSpaced(r)
      && '\n' !in r
      && (r != [] ==> r[0] != ' ' && r[|r| - 1] != ' ')
      && (forall i :: 0 <= i < |r| - 1 ==> !(r[i] == ' ' && r[i + 1] == ' '))
  {
    var r := CleanSql(sql);
    JoinWordsSingleSpaced(Split(ReplaceNewlines(sql)));
    forall i | 0 <= i < |r| ensures r[i] != '\n' {
      assert IsSpace('\n');
    }
  }

  /** Cleaning keeps the whitespace-free tokens of the SQL, in order. */
  lemma CleanSqlKeepsTokens(sql: string)
    ensures Split(CleanSql(sql)) == Split(sql)
  {
    SplitJoinWords(Split(ReplaceNewlines(sql)));
    SplitReplaceNewlines(sql);
  }

  /** Newlines are whitespace, so turning them into spaces splits the same. */
  lemma SplitReplaceNewlines(s: string)
    ensures Split(ReplaceNewlines(s)) == Split(s)
  {
    assert IsSpace('\n') && IsSpace(' ');
    SplitSameShape(ReplaceNewlines(s), s);
  }

  /** Cleaning cleaned SQL changes nothing. */
  lemma CleanSqlIdempotent(sql: string)
    ensures CleanSql(CleanSql(sql)) == CleanSql(sql)
  {
    CleanSqlKeepsTokens(sql);
    SplitReplaceNewlines(sql);
    SplitReplaceNewlines(CleanSql(sql));
  }

  // =====================================================================
  // The CA Open Data endpoint

  const SqlUrl := "https://data.ca.gov/api/3/action/datastore_search_sql"

  const OccupationResource := "274e273c-d18c-4d84-b8df-49b4d13c14ce"
  const IndustryResource := "5642307f-30c2-4ddb-b811-507b338e0b4d"

  /** `CA_LABOR_MARKET_DATA`: data type -> resource id. */
  const CaLaborMarketData: map<string, string> :=
    map["occupation" := OccupationResource, "industry" := IndustryResource]

  /** What the request gives:
      - an HTTP error status (`raise_for_status` raises `HTTPError`);
      - a request that fails before any status, such as a connection error or
        a timeout (another `RequestException`);
      - a body that is not JSON;
      - JSON that is not an object, or whose "result" is not an object, so
        that `.get` raises `AttributeError`;
      - a JSON object whose `result.records` is `records` (None when either key
        is absent). */
  datatype SqlResponse<R> = HttpError | RequestError | NotJson | NotAnObject | Json(records: Option<seq<R>>)

  /** A table, or an exception that reaches the caller. */
  datatype SqlResult<R> = Rows(rows: seq<R>) | Raises

  /** `_labor_market_sql_to_dataframe(sql)`: the request carries the cleaned
      SQL. Only `HTTPError` is caught, and it gives an empty table, as do a
      body that is not JSON and a missing `result.records`. A connection
      error and a JSON value without `.get` propagate. */
  function SqlToTable<R>(sql: string, query: string -> SqlResponse<R>): (table: SqlResult<R>)
    ensures table.Raises? <==> query(CleanSql(sql)).RequestError? || query(CleanSql(sql)).NotAnObject?
    ensures table.Rows? ==> match query(CleanSql(sql))
      case Json(Some(records)) => table.rows == records
      case _ => table.rows == []
  {
    match query(CleanSql(sql))
    case HttpError => Rows([])
    case RequestError => Raises
    case NotJson => Rows([])
    case NotAnObject => Raises
    case Json(None) => Rows([])
    case Json(Some(records)) => Rows(records)
  }

  // =====================================================================
  // get_labor_market_data_dictionary

  datatype UrlResult = Url(url: string) | InvalidDataType

  const DatasetBase := "https://data.ca.gov/dataset/"

  /** The URL of the data dictionary page; ValueError for any other type. */
  function DataDictionaryUrl(dataType: string): (r: UrlResult)
    ensures r.Url? <==> dataType == "occupation" || dataType == "industry"
    ensures r.Url? <==> dataType in CaLaborMarketData
    ensures dataType == "occupation" ==>
      (r.url == "https://data.ca.gov/dataset/"
        + "long-term-occupational-employment-projections/resource/" + OccupationResource)
    ensures dataType == "industry" ==>
      (r.url == "https://data.ca.gov/dataset/"
        + "long-term-industry-employment-projections/resource/" + IndustryResource)
  {
    var baseUrl := DatasetBase;
    if dataType == "occupation" then
      Url(baseUrl + "long-term-occupational-employment-projections/resource/" + CaLaborMarketData[dataType])
    else if dataType == "industry" then
      Url(baseUrl + "long-term-industry-employment-projections/resource/" + CaLaborMarketData[dataType])
    else InvalidDataType
  }

  // =====================================================================
  // get_labor_market_msa_data

  /** The SQL text of get_labor_market_msa_data. */
  const MsaSql := " \n        SELECT DISTINCT\n            \"Area Name\"\n        FROM\n            \""
    + OccupationResource + "\"\n        WHERE\n            \"Area Type\" = 'Metropolitan Area'\n    "

  /** Start of the last " (" that lies wholly inside `s`. */
  function LastOpenParen(s: string): (p: Option<nat>)
    ensures p.Some? ==> p.value + 2 <= |s| && s[p.value] == ' ' && s[p.value + 1] == '('
    ensures p.Some? ==> forall q :: p.value < q && q + 2 <= |s| ==> !(s[q] == ' ' && s[q + 1] == '(')
    ensures p.None? ==> forall q :: 0 <= q && q + 2 <= |s| ==> !(s[q] == ' ' && s[q + 1] == '(')
    decreases |s|
  {
    if |s| < 2 then None
    else if s[|s| - 2] == ' ' && s[|s| - 1] == '(' then Some(|s| - 2)
    else LastOpenParen(s[..|s| - 1])
  }

  /** The text the regex sees before `$`: one final '\n' is passed over. */
  function BeforeFinalNewline(s: string): string {
    if s != [] && s[|s| - 1] == '\n' then s[..|s| - 1] else s
  }

  /** `str.extract(r"^(.*) \((.*)\)$")`: the area's name and counties, or two
      missing values when the name does not have that form. `.` does not match
      a newline, and the greedy first group splits at the last " (". */
  function SplitAreaName(areaName: string): (r: (Option<string>, Option<string>))
    ensures r.0.Some? <==> r.1.Some?
    ensures r.0.Some? ==>
      r.0.value + " (" + r.1.value + ")" == BeforeFinalNewline(areaName)
      && '\n' !in r.0.value && '\n' !in r.1.value
      && !HasOpenParen(r.1.value)
  {
    var t := BeforeFinalNewline(areaName);
    if '\n' in t || t == [] || t[|t| - 1] != ')' then (None, None)
    else
      var body := t[..|t| - 1];
      match LastOpenParen(body)
      case None => (None, None)
      case Some(p) =>
        var counties := body[p + 2..];
        assert t == body[..p] + " (" + counties + ")";
        assert !HasOpenParen(counties) by {
          forall q | 0 <= q && q + 2 <= |counties|
            ensures !(counties[q] == ' ' && counties[q + 1] == '(')
          {
            assert counties[q] == body[p + 2 + q];
            assert counties[q + 1] == body[p + 3 + q];
          }
        }
        (Some(body[..p]), Some(counties))
  }

  predicate HasOpenParen(s: string) {
    exists q :: 0 <= q && q + 2 <= |s| && s[q] == ' ' && s[q + 1] == '('
  }

  /** Every area name of the form `X (Y)` on one line is split, into exactly
      X and Y when Y holds no " (" of its own. */
  lemma SplitAreaNameOfForm(x: string, y: string)
    requires '\n' !in x && '\n' !in y
    ensures SplitAreaName(x + " (" + y + ")").0.Some?
    ensures !HasOpenParen(y) ==> SplitAreaName(x + " (" + y + ")") == (Some(x), Some(y))
  {
    var s := x + " (" + y + ")";
    assert s[|s| - 1] == ')';
    assert BeforeFinalNewline(s) == s;
    assert '\n' !in s by {
      forall i | 0 <= i < |s| ensures s[i] != '\n' {
        if i < |x| { assert s[i] == x[i]; }
        else if i >= |x| + 2 && i < |s| - 1 { assert s[i] == y[i - |x| - 2]; }
      }
    }
    var body := s[..|s| - 1];
    assert body == x + " (" + y;
    assert body[|x|] == ' ' && body[|x| + 1] == '(';
    var p := LastOpenParen(body);
    assert p.Some?;
    if !HasOpenParen(y) {
      assert p.value == |x|;
      assert body[..|x|] == x;
      assert body[|x| + 2..] == y;
    }
  }

  /** One row of get_labor_market_msa_data's result. */
  datatype MsaRow = MsaRow(areaName: string, msa: Option<string>, counties: Option<string>)

  datatype MsaResult = MsaTable(rows: seq<MsaRow>) | MissingAreaNameColumn

  /** get_labor_market_msa_data, given the area names the query returned. An
      empty result (also what a failed request gives) has no "Area Name"
      column, and selecting it raises KeyError. */
  function MsaData(areaNames: seq<string>): (r: MsaResult)
    ensures r.MissingAreaNameColumn? <==> areaNames == []
    ensures r.MsaTable? ==> r.rows == MsaRows(areaNames)
  {
    if areaNames == [] then MissingAreaNameColumn
    else MsaTable(MsaRows(areaNames))
  }

  /** As written, a failed query (which the endpoint call turns into an empty
      table) makes get_labor_market_msa_data raise instead of returning an
      empty table. */
  lemma MsaDataFailsOnFailedQuery(query: string -> SqlResponse<string>)
    requires query(CleanSql(MsaSql)).HttpError?
    ensures SqlToTable(MsaSql, query).Rows?
    ensures MsaData(SqlToTable(MsaSql, query).rows).MissingAreaNameColumn?
  {
  }

  /** The rows of get_labor_market_msa_data: each area name with its MSA and
      counties. As evidently intended, the empty table of a failed query gives
      no rows rather than an error. */
  function MsaRows(areaNames: seq<string>): (rows: seq<MsaRow>)
    ensures |rows| == |areaNames|
    ensures forall i :: 0 <= i < |areaNames| ==> (rows[i].areaName == areaNames[i]
      && (rows[i].msa.Some? <==> rows[i].counties.Some?)
      && (rows[i].msa.Some? ==>
            rows[i].msa.value + " (" + rows[i].counties.value + ")" == BeforeFinalNewline(areaNames[i])))
  {
    seq(|areaNames|, i requires 0 <= i < |areaNames| =>
      var (msa, counties) := SplitAreaName(areaNames[i]);
      MsaRow(areaNames[i], msa, counties))
  }

  // =====================================================================
  // get_occupation_projections_by_title

  predicate IsUpper(c: char) {
    'A' <= c <= 'Z'
  }

  /** `str.lower()` on ASCII letters. */
  function Lower(s: string): (r: string)
    ensures |r| == |s|
    ensures forall i :: 0 <= i < |s| ==> !IsUpper(r[i])
    ensures forall i :: 0 <= i < |s| && !IsUpper(s[i]) ==> r[i] == s[i]
    ensures forall i :: 0 <= i < |s| && IsUpper(s[i]) ==> r[i] as int == s[i] as int + 32
  {
    seq(|s|, i requires 0 <= i < |s| => if IsUpper(s[i]) then (s[i] as int + 32) as char else s[i])
  }

  /** Lowercasing twice is lowercasing once. */
  lemma LowerIdempotent(s: string)
    ensures Lower(Lower(s)) == Lower(s)
  {
  }

  predicate IsInfix(p: string, s: string) {
    exists i :: 0 <= i <= |s| - |p| && s[i..][..|p|] == p
  }

  const TitleSqlHead := " \n        SELECT\n            *\n        FROM\n            \"" + OccupationResource
    + "\"\n        WHERE\n            \"SOC Level\" = 4\n            AND LOWER(\"Occupational Title\") "
  const TitleSqlTail := "\n            AND \"Area Type\" = 'Metropolitan Area'\n    "

  /** The SQL text of get_occupation_projections_by_title: the search term,
      lowercased, stands between '%' and '%' in the LIKE pattern. */
  function TitleSql(jobTitleContains: string): (sql: string)
    ensures IsInfix("LIKE '%" + Lower(jobTitleContains) + "%'", sql)
  {
    var like := "LIKE '%" + Lower(jobTitleContains) + "%'";
    var sql := TitleSqlHead + like + TitleSqlTail;
    assert sql[|TitleSqlHead|..][..|like|] == like;
    sql
  }

  // =====================================================================
  // get_occupation_projections_for_msa_and_soc

  const ProjectionsSqlBase := " \n        SELECT\n            *\n        FROM\n            \"" + OccupationResource
    + "\"\n        WHERE\n            \"SOC Level\" = 4"

  function AreaClause(area: string): string {
    " AND \"Area Name\" = '" + area + "'"
  }

  function SocClause(soc: string): string {
    " AND \"Standard Occupational Classification (SOC)\" = '" + soc + "'"
  }

  /** The SQL text of get_occupation_projections_for_msa_and_soc: the base
      query, then the area clause only when `area` is truthy, then the SOC
      clause only when `soc` is truthy. */
  method ProjectionsSql(area: Option<string>, soc: Option<string>) returns (sql: string)
    ensures |sql| == |ProjectionsSqlBase|
      + (if Truthy(area) then |AreaClause(area.value)| else 0)
      + (if Truthy(soc) then |SocClause(soc.value)| else 0)
    ensures sql[..|ProjectionsSqlBase|] == ProjectionsSqlBase
    ensures Truthy(area) ==>
      sql[|ProjectionsSqlBase|..|ProjectionsSqlBase| + |AreaClause(area.value)|] == AreaClause(area.value)
    ensures Truthy(soc) ==> sql[|sql| - |SocClause(soc.value)|..] == SocClause(soc.value)
  {
    sql := ProjectionsSqlBase;
    if area.Some? && area.value != "" {
      sql := sql + AreaClause(area.value);
    }
    if soc.Some? && soc.value != "" {
      sql := sql + SocClause(soc.value);
    }
  }
}
