/** The College Scorecard client of scripts/college_scorecard.py: paging
    through the schools of one state, and one row of student data per college
    with the college's name as its first column. */
module CollegeScorecard {
  import opened Common
  import opened Utils

  const PerPage := 100

  /** The query string of one request. */
  datatype Params = Params(apiKey: string, state: string, page: int, perPage: int)

  /** `metadata.total` and `metadata.per_page` of a response. */
  datatype Metadata = Metadata(total: int, perPage: int)

  /** One page of the API's answer: its metadata and its schools. */
  datatype Page<C> = Page(metadata: Metadata, results: seq<C>)

  /** Python's `//`: rounds toward negative infinity. */
  function FloorDiv(a: int, b: int): (q: int)
    requires b != 0
    ensures b > 0 ==> q * b <= a < q * b + b
    ensures b < 0 ==> q * b >= a > q * b + b
  {
    if b > 0 then a / b else (-a) / (-b)
  }

  /** `total // per_page + 1`, from the metadata of the first response. */
  function PageCount(m: Metadata): (n: int)
    requires m.perPage != 0
    ensures m.perPage > 0 ==> (n - 1) * m.perPage <= m.total < n * m.perPage
  {
    FloorDiv(m.total, m.perPage) + 1
  }

  /** The parameters of the request for `page`. */
  function PageParams(apiKey: string, state: string, page: int): Params {
    Params(apiKey, state, page, PerPage)
  }

  /** The requests for pages 1..n (just page 1 when n < 1). */
  function Requests(apiKey: string, state: string, n: int): (calls: seq<Params>)
    ensures |calls| == if n < 1 then 1 else n
    ensures forall i :: 0 <= i < |calls| ==> calls[i] == PageParams(apiKey, state, i + 1)
    decreases n
  {
    if n <= 1 then [PageParams(apiKey, state, 1)]
    else Requests(apiKey, state, n - 1) + [PageParams(apiKey, state, n)]
  }

  /** The schools of pages 1..n, in page order. */
  function ResultsUpTo<C>(fetch: Params -> Page<C>, apiKey: string, state: string, n: int): seq<C>
    decreases n
  {
    if n <= 1 then fetch(PageParams(apiKey, state, 1)).results
    else ResultsUpTo(fetch, apiKey, state, n - 1) + fetch(PageParams(apiKey, state, n)).results
  }

  datatype Outcome<T> = Ok(value: T) | ZeroPerPage

  /** get_scorecards_by_state: one request for page 1, then one per further
      page; `calls` lists the requests in the order they are made. A response
      claiming zero results per page makes `//` raise. */
  method GetScorecardsByState<C>(state: string, apiKey: string, fetch: Params -> Page<C>)
    returns (r: Outcome<seq<C>>, calls: seq<Params>)
    ensures var m := fetch(PageParams(apiKey, state, 1)).metadata;
      if m.perPage == 0 then r == ZeroPerPage && calls == [PageParams(apiKey, state, 1)]
      else (r == Ok(ResultsUpTo(fetch, apiKey, state, PageCount(m)))
        && calls == Requests(apiKey, state, PageCount(m)))
  {
    var params := Params(apiKey, state, 1, PerPage);
    var data := fetch(params);
    calls := [params];
    if data.metadata.perPage == 0 {
      return ZeroPerPage, calls;
    }
    var numberOfPages := FloorDiv(data.metadata.total, data.metadata.perPage) + 1;
    var page := 2;
    while page <= numberOfPages
      invariant 2 <= page
      invariant page <= numberOfPages + 1 || page == 2
      invariant params == PageParams(apiKey, state, page - 1)
      invariant calls == Requests(apiKey, state, page - 1)
      invariant data.results == ResultsUpTo(fetch, apiKey, state, page - 1)
    {
      params := params.(page := page);
      var response := fetch(params);
      data := data.(results := data.results + response.results);
      calls := calls + [params];
      page := page + 1;
    }
    assert page - 1 == numberOfPages || (numberOfPages <= 1 && page == 2);
    r := Ok(data.results);
  }

  /** Fewer schools than fit on a page take exactly one request. */
  lemma OnePageWhenFewerThanPerPage(m: Metadata, apiKey: string, state: string)
    requires 0 <= m.total < m.perPage
    ensures PageCount(m) == 1
    ensures Requests(apiKey, state, PageCount(m)) == [PageParams(apiKey, state, 1)]
  {
  }

  /** An exact multiple of the page size asks for one page past the data: with
      `total == k * per_page` pages 1..k+1 are requested. */
  lemma ExactMultipleAsksOneMore(m: Metadata, k: nat)
    requires m.perPage > 0 && m.total == k * m.perPage
    ensures PageCount(m) == k + 1
  {
    var b := m.perPage;
    var q := FloorDiv(m.total, b);
    assert (k - q) * b == k * b - q * b;
    assert 0 <= (k - q) * b < b;
    ZeroMultiple(k - q, b);
  }

  lemma ZeroMultiple(x: int, b: int)
    requires b > 0 && 0 <= x * b < b
    ensures x == 0
  {
    if x >= 1 {
    } else if x <= -1 {
    }
  }

  /** What the first pages contribute stays at the front: the results of
      pages 1..j are a prefix of those of pages 1..n. */
  lemma {:induction false} ResultsPrefix<C>(fetch: Params -> Page<C>, apiKey: string, state: string, j: int, n: int)
    requires 1 <= j <= n
    ensures ResultsUpTo(fetch, apiKey, state, j) <= ResultsUpTo(fetch, apiKey, state, n)
    decreases n
  {
    if j < n {
      ResultsPrefix(fetch, apiKey, state, j, n - 1);
    }
  }

  /** Every school of page k stands in the accumulated list, in the slice
      right after the schools of pages 1..k-1, in the page's own order. */
  lemma PageInResults<C>(fetch: Params -> Page<C>, apiKey: string, state: string, k: int, n: int)
    requires 1 <= k <= n
    ensures var before := if k == 1 then [] else ResultsUpTo(fetch, apiKey, state, k - 1);
      var page := fetch(PageParams(apiKey, state, k)).results;
      var all := ResultsUpTo(fetch, apiKey, state, n);
      |before| + |page| <= |all| && all[|before|..|before| + |page|] == page
  {
    var before := if k == 1 then [] else ResultsUpTo(fetch, apiKey, state, k - 1);
    var page := fetch(PageParams(apiKey, state, k)).results;
    var upToK := ResultsUpTo(fetch, apiKey, state, k);
    ResultsPrefix(fetch, apiKey, state, k, n);
    assert upToK == before + page;
    assert upToK[|before|..] == page;
  }

  /** Nothing but the requested pages' schools is accumulated. */
  lemma {:induction false} ResultsFromPages<C>(fetch: Params -> Page<C>, apiKey: string, state: string, n: int)
    ensures forall x :: x in ResultsUpTo(fetch, apiKey, state, n) ==>
      exists k :: 1 <= k <= (if n < 1 then 1 else n) && x in fetch(PageParams(apiKey, state, k)).results
    decreases n
  {
    if n > 1 {
      var m := n - 1;
      ResultsFromPages(fetch, apiKey, state, m);
      var last := fetch(PageParams(apiKey, state, n)).results;
      assert ResultsUpTo(fetch, apiKey, state, n) == ResultsUpTo(fetch, apiKey, state, m) + last;
      forall x | x in ResultsUpTo(fetch, apiKey, state, n)
        ensures exists k :: 1 <= k <= n && x in fetch(PageParams(apiKey, state, k)).results
      {
        if x !in last {
          assert x in ResultsUpTo(fetch, apiKey, state, m);
        }
      }
    }
  }

  // ---------------------------------------------------------------------
  // get_latest_student_scorecard_data_by_state

  /** The parts of a school record the row builder reads: `school.name` and
      `latest.student`. */
  datatype College<S> = College(name: S, student: seq<(string, Value<S>)>)

  type Row<S> = seq<(string, Value<S>)>

  /** `df[["college"] + [c for c in df.columns if c != "college"]]` after
      `df["college"] = name`: the name under "college" first, then the other
      columns in their order. */
  function StudentRow<S>(c: College<S>): Row<S> {
    [("college", Scalar(c.name))] + OtherColumns(Flattened(c.student, "", "_"))
  }

  /** The columns other than "college", in order. */
  function OtherColumns<S>(cols: Row<S>): Row<S> {
    if cols == [] then []
    else if cols[0].0 == "college" then OtherColumns(cols[1..])
    else [cols[0]] + OtherColumns(cols[1..])
  }

  /** Exactly the columns not named "college" are kept. */
  lemma {:induction false} OtherColumnsKeepsOthers<S>(cols: Row<S>)
    ensures forall p :: p in OtherColumns(cols) <==> p in cols && p.0 != "college"
  {
    if cols != [] {
      OtherColumnsKeepsOthers(cols[1..]);
      assert forall p :: p in cols <==> p == cols[0] || p in cols[1..];
    }
  }

  /** The filter keeps the columns' order: the other columns of two pieces
      are those of the first piece, then those of the second. */
  lemma {:induction false} OtherColumnsAppend<S>(a: Row<S>, b: Row<S>)
    ensures OtherColumns(a + b) == OtherColumns(a) + OtherColumns(b)
  {
    if a != [] {
      assert (a + b)[1..] == a[1..] + b;
      OtherColumnsAppend(a[1..], b);
    } else {
      assert a + b == b;
    }
  }

  /** A single column is kept exactly when it is not named "college". */
  lemma OtherColumnsOne<S>(p: (string, Value<S>))
    ensures OtherColumns([p]) == if p.0 == "college" then [] else [p]
  {
    assert [p][1..] == [];
  }

  /** A college's row starts with its name under "college"; the rest are
      exactly its flattened student columns other than "college". */
  lemma StudentRowShape<S>(c: College<S>)
    ensures |StudentRow(c)| >= 1 && StudentRow(c)[0] == ("college", Scalar(c.name))
    ensures forall p :: p in StudentRow(c)[1..] <==> p in Flattened(c.student, "", "_") && p.0 != "college"
  {
    var flat := Flattened(c.student, "", "_");
    OtherColumnsKeepsOthers(flat);
    assert StudentRow(c)[1..] == OtherColumns(flat);
  }

  /** The student rows the loop builds, as written: a college whose flattened
      student data is empty gives a frame without rows, so it adds no row. */
  function StudentRowsAsWritten<S>(colleges: seq<College<S>>): seq<Row<S>>
  {
    if colleges == [] then []
    else
      var init := colleges[..|colleges| - 1];
      var c := colleges[|colleges| - 1];
      StudentRowsAsWritten(init) + (if LosesRow(c) then [] else [StudentRow(c)])
  }

  /** The loop of get_latest_student_scorecard_data_by_state: flatten each
      college's student data and append its row. */
  method BuildStudentRows<S>(colleges: seq<College<S>>) returns (student: seq<Row<S>>)
    ensures student == StudentRowsAsWritten(colleges)
  {
    student := [];
    var i := 0;
    while i < |colleges|
      invariant 0 <= i <= |colleges|
      invariant student == StudentRowsAsWritten(colleges[..i])
    {
      var college := colleges[i];
      var flat := FlattenDict(college.student, "", "_");
      var tempRows: seq<Row<S>> := if flat == [] then [] else [[("college", Scalar(college.name))] + OtherColumns(flat)];
      assert colleges[..i + 1][..i] == colleges[..i];
      student := student + tempRows;
      i := i + 1;
    }
    assert colleges[..i] == colleges;
  }

  /** As written, a college whose student data flattens to nothing is lost. */
  lemma EmptyStudentDataDropsCollege<S>(name: S)
    ensures StudentRowsAsWritten([College(name, [])]) == []
  {
    assert Flattened<S>([], "", "_") == [];
  }

  /** The rows as evidently intended: one per college, in order. */
  function StudentRows<S>(colleges: seq<College<S>>): (rows: seq<Row<S>>)
    ensures |rows| == |colleges|
    ensures forall i :: 0 <= i < |colleges| ==> rows[i] == StudentRow(colleges[i])
  {
    if colleges == [] then []
    else StudentRows(colleges[..|colleges| - 1]) + [StudentRow(colleges[|colleges| - 1])]
  }

  /** A college whose student data flattens to nothing. */
  predicate LosesRow<S>(c: College<S>) {
    |Flattened(c.student, "", "_")| == 0
  }

  /** As written, the rows are never more than the colleges. */
  lemma {:induction false} StudentRowsAsWrittenAtMost<S>(colleges: seq<College<S>>)
    ensures |StudentRowsAsWritten(colleges)| <= |colleges|
  {
    if colleges != [] {
      StudentRowsAsWrittenAtMost(colleges[..|colleges| - 1]);
      StudentRowsAsWrittenStep(colleges);
    }
  }

  /** The last college adds one row, or none when it loses its row. */
  lemma StudentRowsAsWrittenStep<S>(colleges: seq<College<S>>)
    requires colleges != []
    ensures |StudentRowsAsWritten(colleges)| ==
      |StudentRowsAsWritten(colleges[..|colleges| - 1])| + (if LosesRow(colleges[|colleges| - 1]) then 0 else 1)
  {
  }

  /** As written, a college whose student data flattens to nothing leaves the
      rows fewer than the colleges. */
  lemma {:induction false} StudentRowsAsWrittenLoses<S>(colleges: seq<College<S>>, i: nat)
    requires i < |colleges| && LosesRow(colleges[i])
    ensures |StudentRowsAsWritten(colleges)| < |colleges|
    decreases |colleges|, 1
  {
    if i < |colleges| - 1 {
      LosesBeforeLast(colleges, i);
    } else {
      LosesLast(colleges);
    }
  }

  lemma {:induction false} LosesBeforeLast<S>(colleges: seq<College<S>>, i: nat)
    requires i < |colleges| - 1 && LosesRow(colleges[i])
    ensures |StudentRowsAsWritten(colleges)| < |colleges|
    decreases |colleges|, 0
  {
    var init := colleges[..|colleges| - 1];
    StudentRowsAsWrittenStep(colleges);
    assert init[i] == colleges[i];
    StudentRowsAsWrittenLoses(init, i);
  }

  lemma LosesLast<S>(colleges: seq<College<S>>)
    requires colleges != [] && LosesRow(colleges[|colleges| - 1])
    ensures |StudentRowsAsWritten(colleges)| < |colleges|
  {
    StudentRowsAsWrittenStep(colleges);
    StudentRowsAsWrittenAtMost(colleges[..|colleges| - 1]);
  }

  /** The code as written gives the intended rows exactly when no college's
      student data flattens to nothing. */
  lemma {:induction false} StudentRowsAgree<S>(colleges: seq<College<S>>)
    ensures StudentRowsAsWritten(colleges) == StudentRows(colleges) <==>
      forall i :: 0 <= i < |colleges| ==> !LosesRow(colleges[i])
  {
    if forall i :: 0 <= i < |colleges| ==> !LosesRow(colleges[i]) {
      if colleges != [] {
        var init := colleges[..|colleges| - 1];
        assert forall i :: 0 <= i < |init| ==> !LosesRow(init[i]) by {
          forall i | 0 <= i < |init| ensures !LosesRow(init[i]) {
            assert init[i] == colleges[i];
          }
        }
        StudentRowsAgree(init);
      }
    } else {
      var i :| 0 <= i < |colleges| && LosesRow(colleges[i]);
      StudentRowsAsWrittenLoses(colleges, i);
    }
  }
}
