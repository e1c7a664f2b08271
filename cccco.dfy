/** The CCCCO API client of scripts/cccco.py: which endpoint each search
    parameter selects, and the empty table every failure degrades to. */
module Cccco {
  import opened Common

  const ApiBase := "https://api.cccco.edu/"

  /** `str.isnumeric()` over ASCII digits. */
  predicate IsNumeric(s: string) {
    s != [] && AllDigits(s)
  }

  /** get_ccc_colleges: all colleges, one college by MIS id, or a name search. */
  function CollegesUrl(searchParam: Option<string>): (url: string)
    ensures |url| > |ApiBase| && url[..|ApiBase|] == ApiBase
  {
    var url := ApiBase;
    if !Truthy(searchParam) then url + "colleges"
    else if IsNumeric(searchParam.value) then url + "colleges/" + searchParam.value
    else url + "colleges/search/" + searchParam.value
  }

  /** get_ccc_districts: all districts, one district by MIS id, or a search. */
  function DistrictsUrl(searchParam: Option<string>): (url: string)
    ensures |url| > |ApiBase| && url[..|ApiBase|] == ApiBase
  {
    var url := ApiBase;
    if !Truthy(searchParam) then url + "districts"
    else if IsNumeric(searchParam.value) then url + "districts/" + searchParam.value
    else url + "districts/search/" + searchParam.value
  }

  /** get_ccc_programs: all programs, or a search; a TOP code and a keyword
      are both searched for. */
  function ProgramsUrl(searchParam: Option<string>): (url: string)
    ensures |url| > |ApiBase| && url[..|ApiBase|] == ApiBase
    ensures Truthy(searchParam) ==> url == ApiBase + "programs/search/" + searchParam.value
  {
    var url := ApiBase;
    if !Truthy(searchParam) then url + "programs"
    else if IsNumeric(searchParam.value) then url + "programs/search/" + searchParam.value
    else url + "programs/search/" + searchParam.value
  }

  // ---------------------------------------------------------------------
  // Reading a URL back: the route and the search parameter it carries.

  predicate HasPrefix(s: string, p: string) {
    |p| <= |s| && s[..|p|] == p
  }

  /** The three requests the API serves under one resource: the whole list,
      one record by MIS id, or a text search. */
  datatype Route = All | ById(id: string) | Search(text: string)

  /** The route a URL under `ApiBase + resource` names: the bare resource, the
      text after "/search/", or the text after "/". */
  function RouteOf(resource: string, url: string): Option<Route> {
    var head := ApiBase + resource;
    if !HasPrefix(url, head) then None
    else if url == head then Some(All)
    else
      var rest := url[|head|..];
      if HasPrefix(rest, "/search/") then Some(Search(rest[8..]))
      else if HasPrefix(rest, "/") then Some(ById(rest[1..]))
      else None
  }

  /** The search parameter a URL carries: none for the whole list. */
  function SearchParamOf(resource: string, url: string): Option<string> {
    match RouteOf(resource, url)
    case Some(ById(id)) => Some(id)
    case Some(Search(text)) => Some(text)
    case _ => None
  }

  /** The parameter Python acts on: a falsy one means "no search". */
  function Effective(searchParam: Option<string>): Option<string> {
    if Truthy(searchParam) then searchParam else None
  }

  /** Only the bare resource URL reads back as the whole list. */
  lemma RouteAllIsBare(resource: string, url: string)
    ensures RouteOf(resource, url) == Some(All) <==> url == ApiBase + resource
  {
  }

  /** `resource/<id>` reads back as that id, `resource/search/<text>` as that
      search; a numeric id cannot be mistaken for "search/". */
  lemma RouteReadsBack(resource: string, sub: string, param: string)
    requires sub == "/" || sub == "/search/"
    requires sub == "/" ==> IsNumeric(param)
    ensures RouteOf(resource, ApiBase + (resource + sub) + param)
      == Some(if sub == "/" then ById(param) else Search(param))
  {
    var head := ApiBase + resource;
    var url := ApiBase + (resource + sub) + param;
    assert url == head + (sub + param);
    assert url[..|head|] == head;
    var rest := url[|head|..];
    assert rest == sub + param;
    assert rest[..|sub|] == sub;
    if sub == "/" {
      assert |rest| < 8 || rest[1] != 's' by {
        if |rest| >= 8 {
          assert rest[1] == param[0];
          assert IsDigit(param[0]);
        }
      }
      assert !HasPrefix(rest, "/search/");
      assert rest[1..] == param;
    } else {
      assert rest[8..] == param;
    }
  }

  /** get_ccc_colleges routes a falsy parameter to the whole list, a numeric
      one to `colleges/<id>` and any other to `colleges/search/<text>`, and
      the URL gives the parameter back. */
  lemma CollegesUrlReadsBack(searchParam: Option<string>)
    ensures !Truthy(searchParam) ==> RouteOf("colleges", CollegesUrl(searchParam)) == Some(All)
    ensures Truthy(searchParam) && IsNumeric(searchParam.value) ==>
      RouteOf("colleges", CollegesUrl(searchParam)) == Some(ById(searchParam.value))
    ensures Truthy(searchParam) && !IsNumeric(searchParam.value) ==>
      RouteOf("colleges", CollegesUrl(searchParam)) == Some(Search(searchParam.value))
    ensures SearchParamOf("colleges", CollegesUrl(searchParam)) == Effective(searchParam)
  {
    if Truthy(searchParam) {
      var v := searchParam.value;
      if IsNumeric(v) {
        RouteReadsBack("colleges", "/", v);
        assert "colleges" + "/" == "colleges/";
      } else {
        RouteReadsBack("colleges", "/search/", v);
        assert "colleges" + "/search/" == "colleges/search/";
      }
    }
  }

  /** get_ccc_districts routes like get_ccc_colleges, under `districts`. */
  lemma DistrictsUrlReadsBack(searchParam: Option<string>)
    ensures !Truthy(searchParam) ==> RouteOf("districts", DistrictsUrl(searchParam)) == Some(All)
    ensures Truthy(searchParam) && IsNumeric(searchParam.value) ==>
      RouteOf("districts", DistrictsUrl(searchParam)) == Some(ById(searchParam.value))
    ensures Truthy(searchParam) && !IsNumeric(searchParam.value) ==>
      RouteOf("districts", DistrictsUrl(searchParam)) == Some(Search(searchParam.value))
    ensures SearchParamOf("districts", DistrictsUrl(searchParam)) == Effective(searchParam)
  {
    if Truthy(searchParam) {
      var v := searchParam.value;
      if IsNumeric(v) {
        RouteReadsBack("districts", "/", v);
        assert "districts" + "/" == "districts/";
      } else {
        RouteReadsBack("districts", "/search/", v);
        assert "districts" + "/search/" == "districts/search/";
      }
    }
  }

  /** get_ccc_programs routes a falsy parameter to the whole list and every
      other one, TOP code or keyword, to `programs/search/<text>`. */
  lemma ProgramsUrlReadsBack(searchParam: Option<string>)
    ensures !Truthy(searchParam) ==> RouteOf("programs", ProgramsUrl(searchParam)) == Some(All)
    ensures Truthy(searchParam) ==>
      RouteOf("programs", ProgramsUrl(searchParam)) == Some(Search(searchParam.value))
    ensures SearchParamOf("programs", ProgramsUrl(searchParam)) == Effective(searchParam)
  {
    if Truthy(searchParam) {
      var v := searchParam.value;
      RouteReadsBack("programs", "/search/", v);
      assert "programs" + "/search/" == "programs/search/";
    }
  }

  /** Different searches never share a colleges URL (likewise for districts
      and programs), so a URL names one query. */
  lemma RoutesAreInjective(p: Option<string>, q: Option<string>)
    ensures CollegesUrl(p) == CollegesUrl(q) ==> Effective(p) == Effective(q)
    ensures DistrictsUrl(p) == DistrictsUrl(q) ==> Effective(p) == Effective(q)
    ensures ProgramsUrl(p) == ProgramsUrl(q) ==> Effective(p) == Effective(q)
  {
    CollegesUrlReadsBack(p);
    CollegesUrlReadsBack(q);
    DistrictsUrlReadsBack(p);
    DistrictsUrlReadsBack(q);
    ProgramsUrlReadsBack(p);
    ProgramsUrlReadsBack(q);
  }

  // ---------------------------------------------------------------------
  // The request and the DataFrame built from its JSON.

  /** A table: column names and rows of values, one per column. */
  datatype Table<V> = Table(columns: seq<string>, rows: seq<seq<V>>)

  predicate WellFormed<V>(t: Table<V>) {
    NoDups(t.columns) && forall i :: 0 <= i < |t.rows| ==> |t.rows[i]| == |t.columns|
  }

  /** A pandas DataFrame: distinct column names, every row as wide as the header. */
  type Frame<V> = t: Table<V> | WellFormed(t) witness Table([], [])

  function EmptyFrame<V>(): Frame<V> {
    Table([], [])
  }

  /** What the request gives: any failure (connection, HTTP status, JSON), or
      the frame the JSON body builds. */
  datatype Response<V> = Failed | Body(frame: Frame<V>)

  /** The values of column `c`, top to bottom. */
  function Column<V>(t: Frame<V>, c: string): seq<V>
    requires c in t.columns
  {
    var k := FirstIndex(t.columns, c);
    seq(|t.rows|, i requires 0 <= i < |t.rows| => t.rows[i][k])
  }

  function Without<T>(s: seq<T>, k: nat): (r: seq<T>)
    requires k < |s|
    ensures |r| == |s| - 1
    ensures forall i :: 0 <= i < k ==> r[i] == s[i]
    ensures forall i :: k <= i < |r| ==> r[i] == s[i + 1]
  {
    s[..k] + s[k + 1..]
  }

  /** `frame.drop(columns=[c])`, which raises (None here) when there is no
      column `c`. */
  function DropColumn<V>(t: Frame<V>, c: string): (r: Option<Frame<V>>)
    ensures r.None? <==> c !in t.columns
    ensures r.Some? ==> c !in r.value.columns && |r.value.rows| == |t.rows|
    ensures r.Some? ==> forall d :: d in t.columns && d != c <==> d in r.value.columns
    ensures r.Some? ==> r.value.columns == Without(t.columns, FirstIndex(t.columns, c))
  {
    if c !in t.columns then None
    else
      var k := FirstIndex(t.columns, c);
      var columns := Without(t.columns, k);
      var rows := seq(|t.rows|, i requires 0 <= i < |t.rows| => Without(t.rows[i], k));
      assert forall i, j :: 0 <= i < j < |columns| ==> columns[i] != columns[j] by {
        forall i, j | 0 <= i < j < |columns| ensures columns[i] != columns[j] {
          var i' := if i < k then i else i + 1;
          var j' := if j < k then j else j + 1;
          assert columns[i] == t.columns[i'] && columns[j] == t.columns[j'];
        }
      }
      assert forall d :: d in t.columns && d != c ==> d in columns by {
        forall d | d in t.columns && d != c ensures d in columns {
          var m :| 0 <= m < |t.columns| && t.columns[m] == d;
          if m < k { assert columns[m] == d; } else { assert columns[m - 1] == d; }
        }
      }
      var r: Frame<V> := Table(columns, rows);
      Some(r)
  }

  /** Dropping a column keeps every other column's values. */
  lemma DropColumnKeepsOthers<V>(t: Frame<V>, c: string, d: string)
    requires c in t.columns && d in t.columns && d != c
    ensures DropColumn(t, c).Some? && d in DropColumn(t, c).value.columns
    ensures Column(DropColumn(t, c).value, d) == Column(t, d)
  {
    var r := DropColumn(t, c).value;
    var k := FirstIndex(t.columns, c);
    var m := FirstIndex(t.columns, d);
    var m' := if m < k then m else m - 1;
    assert r.columns[m'] == d;
    assert FirstIndex(r.columns, d) == m';
  }

  /** get_ccc_colleges: the "CollegeContacts" column is dropped; a failed
      request, and a body without that column, both give the empty table. */
  function CollegesTable<V>(searchParam: Option<string>, get: string -> Response<V>): (t: Frame<V>)
    ensures get(CollegesUrl(searchParam)).Failed? ==> t == EmptyFrame()
    ensures get(CollegesUrl(searchParam)).Body? ==>
      var f := get(CollegesUrl(searchParam)).frame;
      if "CollegeContacts" in f.columns then
        "CollegeContacts" !in t.columns && |t.rows| == |f.rows|
        && forall d :: d in f.columns && d != "CollegeContacts" <==> d in t.columns
      else t == EmptyFrame()
  {
    match get(CollegesUrl(searchParam))
    case Failed => EmptyFrame()
    case Body(f) =>
      match DropColumn(f, "CollegeContacts")
      case None => EmptyFrame()
      case Some(r) => r
  }

  /** get_ccc_districts: the frame of the response, or the empty table on any
      failure. */
  function DistrictsTable<V>(searchParam: Option<string>, get: string -> Response<V>): (t: Frame<V>)
    ensures get(DistrictsUrl(searchParam)).Failed? ==> t == EmptyFrame()
    ensures get(DistrictsUrl(searchParam)).Body? ==> t == get(DistrictsUrl(searchParam)).frame
  {
    match get(DistrictsUrl(searchParam))
    case Failed => EmptyFrame()
    case Body(f) => f
  }

  /** get_ccc_programs: the frame of the response, or the empty table on any
      failure. */
  function ProgramsTable<V>(searchParam: Option<string>, get: string -> Response<V>): (t: Frame<V>)
    ensures get(ProgramsUrl(searchParam)).Failed? ==> t == EmptyFrame()
    ensures get(ProgramsUrl(searchParam)).Body? ==> t == get(ProgramsUrl(searchParam)).frame
  {
    match get(ProgramsUrl(searchParam))
    case Failed => EmptyFrame()
    case Body(f) => f
  }
}
