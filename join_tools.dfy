/** The SOC -> CIP -> TOP crosswalk join of scripts/join_tools.py: the two
    crosswalk loaders with their code normalisation, and
    match_colleges_top_from_soc, which looks up the community-college
    programs of every TOP code that an occupation's CIP codes map to. */
module JoinTools {
  import opened Common

  // =====================================================================
  // Code normalisation

  /** `str.replace(r"\D", "", regex=True)`: the digits of `s`. */
  function StripNonDigits(s: string): (r: string)
    ensures AllDigits(r)
    ensures |r| <= |s|
  {
    if s == [] then [] else (if IsDigit(s[0]) then [s[0]] else []) + StripNonDigits(s[1..])
  }

  /** Stripping works character by character, so the digits keep their order. */
  lemma {:induction false} StripNonDigitsAppend(a: string, b: string)
    ensures StripNonDigits(a + b) == StripNonDigits(a) + StripNonDigits(b)
  {
    if a != [] {
      assert (a + b)[1..] == a[1..] + b;
      StripNonDigitsAppend(a[1..], b);
    } else {
      assert a + b == b;
    }
  }

  /** A string of digits is left as it is. */
  lemma {:induction false} StripNonDigitsOfDigits(s: string)
    requires AllDigits(s)
    ensures StripNonDigits(s) == s
  {
    if s != [] {
      StripNonDigitsOfDigits(s[1..]);
    }
  }

  /** A non-digit character is removed. */
  lemma StripNonDigitsDropsNonDigit(c: char)
    requires !IsDigit(c)
    ensures StripNonDigits([c]) == []
  {
  }

  /** Python's `str.zfill(width)`: pad on the left with '0' to `width`,
      keeping a leading '+' or '-' in front of the zeros. */
  function ZFill(s: string, width: nat): (r: string)
    ensures |s| >= width ==> r == s
    ensures |s| < width ==> |r| == width
    ensures |s| < width && (s == [] || (s[0] != '+' && s[0] != '-')) ==>
      r[..width - |s|] == Zeros(width - |s|) && r[width - |s|..] == s
  {
    if |s| >= width then s
    else if s != [] && (s[0] == '+' || s[0] == '-') then [s[0]] + Zeros(width - |s|) + s[1..]
    else Zeros(width - |s|) + s
  }

  /** Python's `str.ljust(width, "0")`: pad on the right with '0'. */
  function LJust(s: string, width: nat): (r: string)
    ensures |r| == if |s| >= width then |s| else width
    ensures r[..|s|] == s
    ensures forall i :: |s| <= i < |r| ==> r[i] == '0'
  {
    if |s| >= width then s else s + Zeros(width - |s|)
  }

  /** The part of `s` before its first `c` (all of `s` if there is none). */
  function UpTo(s: string, c: char): (r: string)
    ensures |r| <= |s| && r == s[..|r|] && c !in r
    ensures |r| < |s| ==> s[|r|] == c
  {
    if s == [] || s[0] == c then [] else [s[0]] + UpTo(s[1..], c)
  }

  /** `x.split(".")[0]` and `x.split(".")[1]` for an `x` that contains a '.'. */
  function DotFields(x: string): (fields: (string, string))
    requires '.' in x
  {
    var first := UpTo(x, '.');
    (first, UpTo(x[|first| + 1..], '.'))
  }

  /** The `zfill` lambda of `_load_top_cip_crosswalk`. */
  function PadTopCode(x: string): string {
    if '.' !in x then ZFill(x, 4)
    else
      var (whole, fraction) := DotFields(x);
      ZFill(whole, 4) + "." + fraction
  }

  /** TOP code normalisation: pad, strip to digits, right-pad to width 6. */
  function NormalizeTop(x: string): string {
    LJust(StripNonDigits(PadTopCode(x)), 6)
  }

  /** The normalised TOP code is a digit string of length at least 6: the
      digits of the padded code followed by as many '0' as bring it to 6. */
  lemma NormalizeTopShape(x: string)
    ensures var d := StripNonDigits(PadTopCode(x));
      && AllDigits(NormalizeTop(x))
      && |NormalizeTop(x)| == (if |d| >= 6 then |d| else 6)
      && NormalizeTop(x)[..|d|] == d
  {
    var d := StripNonDigits(PadTopCode(x));
    var r := NormalizeTop(x);
    forall i | 0 <= i < |r| ensures IsDigit(r[i]) {
      if i < |d| {
        assert r[i] == r[..|d|][i];
      }
    }
  }

  /** A TOP code without '.' is zero-padded on the left to width 4 (a sign
      counts towards the width and is then dropped with the other non-digits),
      stripped to its digits and right-padded with '0' to width 6. A digit
      code is thus zero-padded to 4, then to 6. */
  lemma NormalizeTopWithoutDot(x: string)
    requires '.' !in x
    ensures NormalizeTop(x) == LJust(Zeros(PadWidth(x)) + StripNonDigits(x), 6)
    ensures AllDigits(x) ==> NormalizeTop(x) == LJust(ZFill(x, 4), 6)
  {
    assert PadTopCode(x) == ZFill(x, 4);
    StripZFill(x);
    if AllDigits(x) {
      StripNonDigitsOfDigits(x);
      ZFillOfDigits(x);
    }
  }

  /** Stripping a zero-filled code keeps the padding zeros and the code's own
      digits. */
  /** How many '0' `zfill(4)` puts in front of `x`'s text. */
  function PadWidth(x: string): nat {
    if |x| < 4 then 4 - |x| else 0
  }

  lemma StripZFill(x: string)
    ensures StripNonDigits(ZFill(x, 4)) == Zeros(PadWidth(x)) + StripNonDigits(x)
  {
    if |x| >= 4 {
      StripZFillLong(x);
    } else if x != [] && (x[0] == '+' || x[0] == '-') {
      StripZFillSigned(x);
    } else {
      StripZFillUnsigned(x);
    }
  }

  lemma StripZFillLong(x: string)
    requires |x| >= 4
    ensures StripNonDigits(ZFill(x, 4)) == Zeros(0) + StripNonDigits(x)
  {
    assert ZFill(x, 4) == x;
    assert Zeros(0) == [];
  }

  lemma StripZFillUnsigned(x: string)
    requires |x| < 4 && (x == [] || (x[0] != '+' && x[0] != '-'))
    ensures StripNonDigits(ZFill(x, 4)) == Zeros(4 - |x|) + StripNonDigits(x)
  {
    var n := 4 - |x|;
    ZFillUnsignedShape(x, 4);
    StripZerosThen(n, x);
  }

  lemma ZFillUnsignedShape(s: string, width: nat)
    requires |s| < width && (s == [] || (s[0] != '+' && s[0] != '-'))
    ensures ZFill(s, width) == Zeros(width - |s|) + s
  {
  }

  lemma ZFillSignedShape(s: string, width: nat)
    requires 0 < |s| < width && (s[0] == '+' || s[0] == '-')
    ensures ZFill(s, width) == [s[0]] + Zeros(width - |s|) + s[1..]
  {
  }

  /** Zeros in front survive stripping. */
  lemma StripZerosThen(n: nat, s: string)
    ensures StripNonDigits(Zeros(n) + s) == Zeros(n) + StripNonDigits(s)
  {
    StripNonDigitsAppend(Zeros(n), s);
    StripZeros(n);
  }

  lemma StripZFillSigned(x: string)
    requires 0 < |x| < 4 && (x[0] == '+' || x[0] == '-')
    ensures StripNonDigits(ZFill(x, 4)) == Zeros(4 - |x|) + StripNonDigits(x)
  {
    var n := 4 - |x|;
    var sign := [x[0]];
    var tail := x[1..];
    ZFillSignedShape(x, 4);
    assert [x[0]] + Zeros(n) + x[1..] == sign + (Zeros(n) + tail);
    assert x == sign + tail;
    StripSignThen(sign, Zeros(n) + tail);
    StripZerosThen(n, tail);
    StripSignThen(sign, tail);
  }

  /** A leading sign leaves no digit behind. */
  lemma StripSignThen(sign: string, s: string)
    requires |sign| == 1 && (sign[0] == '+' || sign[0] == '-')
    ensures StripNonDigits(sign + s) == StripNonDigits(s)
  {
    assert (sign + s)[1..] == s;
  }

  /** Zeros carry no non-digit. */
  lemma StripZeros(n: nat)
    ensures StripNonDigits(Zeros(n)) == Zeros(n)
  {
    StripNonDigitsOfDigits(Zeros(n));
  }

  /** A digit code shorter than 4 is zero-filled with '0' only. */
  lemma ZFillOfDigits(x: string)
    requires AllDigits(x)
    ensures ZFill(x, 4) == Zeros(PadWidth(x)) + x
  {
    if |x| >= 4 {
      assert Zeros(0) == [];
    } else if x != [] {
      assert IsDigit(x[0]);
    }
  }

  /** With a '.', only the part before the first '.' is padded, and only the
      segment right after it is kept: whatever follows a second '.' is lost. */
  lemma NormalizeTopWithDot(whole: string, fraction: string, rest: string)
    requires '.' !in whole && '.' !in fraction
    requires rest == [] || rest[0] == '.'
    ensures NormalizeTop(whole + "." + fraction + rest) ==
      LJust(StripNonDigits(ZFill(whole, 4)) + StripNonDigits(fraction), 6)
  {
    var x := whole + "." + fraction + rest;
    var z := ZFill(whole, 4);
    PadTopCodeWithDot(whole, fraction, rest);
    StripAroundDot(z, fraction);
    var d := StripNonDigits(PadTopCode(x));
    assert d == StripNonDigits(z) + StripNonDigits(fraction);
  }

  /** The '.' between two parts leaves no digit behind. */
  lemma StripAroundDot(a: string, b: string)
    ensures StripNonDigits(a + "." + b) == StripNonDigits(a) + StripNonDigits(b)
  {
    StripNonDigitsAppend(a + ".", b);
    StripNonDigitsAppend(a, ".");
    StripNonDigitsDropsNonDigit('.');
  }

  lemma PadTopCodeWithDot(whole: string, fraction: string, rest: string)
    requires '.' !in whole && '.' !in fraction
    requires rest == [] || rest[0] == '.'
    ensures PadTopCode(whole + "." + fraction + rest) == ZFill(whole, 4) + "." + fraction
  {
    var x := whole + "." + fraction + rest;
    var tail := "." + fraction + rest;
    assert x == whole + tail;
    assert x[|whole|] == '.';
    UpToAt(whole, tail, '.');
    assert x[|whole| + 1..] == fraction + rest;
    UpToAt(fraction, rest, '.');
    assert DotFields(x) == (whole, fraction);
  }

  /** UpTo stops at the first `c`. */
  lemma {:induction false} UpToAt(a: string, b: string, c: char)
    requires c !in a && (b == [] || b[0] == c)
    ensures UpTo(a + b, c) == a
  {
    if a != [] {
      assert (a + b)[1..] == a[1..] + b;
      UpToAt(a[1..], b, c);
    } else {
      assert a + b == b;
    }
  }

  /** A digit string of length at least 6 is a fixed point of normalisation. */
  lemma NormalizeTopFixedPoint(x: string)
    requires AllDigits(x) && |x| >= 6
    ensures NormalizeTop(x) == x
  {
    assert '.' !in x by {
      forall i | 0 <= i < |x| ensures x[i] != '.' { assert IsDigit(x[i]); }
    }
    NormalizeTopWithoutDot(x);
    StripNonDigitsOfDigits(x);
  }

  /** Normalising a normalised TOP code changes nothing. */
  lemma NormalizeTopIdempotent(x: string)
    ensures NormalizeTop(NormalizeTop(x)) == NormalizeTop(x)
  {
    NormalizeTopShape(x);
    NormalizeTopFixedPoint(NormalizeTop(x));
  }

  // =====================================================================
  // The crosswalks

  /** A row of the CIP 2020 <-> SOC 2018 crosswalk (sheet "SOC-CIP"). */
  datatype CipSocRow = CipSocRow(soc: string, cip: string)

  /** A row of the TOP <-> CIP crosswalk. */
  datatype TopCipRow = TopCipRow(top: string, cip: string, title: string)

  /** `_load_cip_soc_crosswalk`: the CIP codes are stripped to digits. */
  function LoadCipSocCrosswalk(rows: seq<CipSocRow>): (r: seq<CipSocRow>)
    ensures |r| == |rows|
    ensures forall i :: 0 <= i < |r| ==>
      r[i].soc == rows[i].soc && AllDigits(r[i].cip) && r[i].cip == StripNonDigits(rows[i].cip)
  {
    seq(|rows|, i requires 0 <= i < |rows| => CipSocRow(rows[i].soc, StripNonDigits(rows[i].cip)))
  }

  /** `_load_top_cip_crosswalk`: the TOP codes are normalised. */
  function LoadTopCipCrosswalk(rows: seq<TopCipRow>): (r: seq<TopCipRow>)
    ensures |r| == |rows|
    ensures forall i :: 0 <= i < |r| ==>
      r[i].cip == rows[i].cip && r[i].title == rows[i].title && r[i].top == NormalizeTop(rows[i].top)
  {
    MapRows(rows, NormalizeTopRow)
  }

  /** One row of `_load_top_cip_crosswalk`: its TOP code normalised. */
  function NormalizeTopRow(row: TopCipRow): TopCipRow {
    row.(top := NormalizeTop(row.top))
  }

  /** A row function applied down a table, row by row. */
  function MapRows<T>(rows: seq<T>, f: T -> T): (r: seq<T>)
    ensures |r| == |rows| && forall i :: 0 <= i < |rows| ==> r[i] == f(rows[i])
  {
    seq(|rows|, i requires 0 <= i < |rows| => f(rows[i]))
  }

  lemma MapRowsAppend<T>(a: seq<T>, b: seq<T>, f: T -> T)
    ensures MapRows(a + b, f) == MapRows(a, f) + MapRows(b, f)
  {
    var left := MapRows(a + b, f);
    var right := MapRows(a, f) + MapRows(b, f);
    forall i | 0 <= i < |left| ensures left[i] == right[i] {
      if i < |a| {
        assert (a + b)[i] == a[i];
      } else {
        assert (a + b)[i] == b[i - |a|];
      }
    }
  }

  /** A crosswalk whose CIP codes are already digit strings loads unchanged. */
  lemma LoadCipSocOfDigits(rows: seq<CipSocRow>)
    requires forall i :: 0 <= i < |rows| ==> AllDigits(rows[i].cip)
    ensures LoadCipSocCrosswalk(rows) == rows
  {
    var r := LoadCipSocCrosswalk(rows);
    forall i | 0 <= i < |rows| ensures r[i] == rows[i] {
      StripNonDigitsOfDigits(rows[i].cip);
    }
  }

  /** A crosswalk whose TOP codes are already digit strings of length at least
      6 loads unchanged. */
  lemma LoadTopCipOfNormal(rows: seq<TopCipRow>)
    requires forall i :: 0 <= i < |rows| ==> AllDigits(rows[i].top) && |rows[i].top| >= 6
    ensures LoadTopCipCrosswalk(rows) == rows
  {
    var r := LoadTopCipCrosswalk(rows);
    forall i | 0 <= i < |rows| ensures r[i] == rows[i] {
      NormalizeTopFixedPoint(rows[i].top);
    }
  }

  /** Every TOP code of the loaded crosswalk is a digit string of length >= 6. */
  lemma LoadedTopCodesAreNormal(rows: seq<TopCipRow>)
    ensures forall i :: 0 <= i < |rows| ==>
      AllDigits(LoadTopCipCrosswalk(rows)[i].top) && |LoadTopCipCrosswalk(rows)[i].top| >= 6
  {
    forall i | 0 <= i < |rows|
      ensures AllDigits(LoadTopCipCrosswalk(rows)[i].top) && |LoadTopCipCrosswalk(rows)[i].top| >= 6
    {
      NormalizeTopShape(rows[i].top);
    }
  }

  // =====================================================================
  // Programs and the joined table

  /** A program row of the CCCCO API (the other columns in `attrs`). */
  datatype Program = Program(collegeId: int, topCode: string, attrs: seq<(string, string)>)

  /** A row of the result: the program and its `TopCodeTitle` (None for NaN). */
  datatype CollegeProgram = CollegeProgram(program: Program, topCodeTitle: Option<string>)

  /** The CIP codes of the rows whose SOC code is `soc`. */
  function MatchedCipCodes(cipSoc: seq<CipSocRow>, soc: string): (r: seq<string>)
    ensures forall c :: c in r <==> exists i :: 0 <= i < |cipSoc| && cipSoc[i].soc == soc && cipSoc[i].cip == c
  {
    if cipSoc == [] then []
    else
      var rest := MatchedCipCodes(cipSoc[1..], soc);
      assert forall i :: 1 <= i < |cipSoc| ==> cipSoc[i] == cipSoc[1..][i - 1];
      if cipSoc[0].soc == soc then [cipSoc[0].cip] + rest else rest
  }

  /** The TOP <-> CIP rows whose CIP code is one of `cips`, in order. */
  function MatchedTopRows(topCip: seq<TopCipRow>, cips: seq<string>): (r: seq<TopCipRow>)
    ensures forall x :: x in r <==> x in topCip && x.cip in cips
  {
    if topCip == [] then []
    else
      var rest := MatchedTopRows(topCip[1..], cips);
      assert forall x :: x in topCip <==> x == topCip[0] || x in topCip[1..];
      if topCip[0].cip in cips then [topCip[0]] + rest else rest
  }

  lemma MatchedTopRowsNone(topCip: seq<TopCipRow>, cips: seq<string>)
    requires forall i :: 0 <= i < |topCip| ==> topCip[i].cip !in cips
    ensures MatchedTopRows(topCip, cips) == []
  {
  }

  /** The filter keeps the crosswalk's order: the matched rows of two pieces
      are those of the first piece, then those of the second. */
  lemma {:induction false} MatchedTopRowsAppend(a: seq<TopCipRow>, b: seq<TopCipRow>, cips: seq<string>)
    ensures MatchedTopRows(a + b, cips) == MatchedTopRows(a, cips) + MatchedTopRows(b, cips)
  {
    if a != [] {
      assert (a + b)[1..] == a[1..] + b;
      MatchedTopRowsAppend(a[1..], b, cips);
    } else {
      assert a + b == b;
    }
  }

  /** A single row is kept exactly when its CIP code was matched. */
  lemma MatchedTopRowsOne(x: TopCipRow, cips: seq<string>)
    ensures MatchedTopRows([x], cips) == if x.cip in cips then [x] else []
  {
    assert [x][1..] == [];
  }

  function TopCodes(rows: seq<TopCipRow>): (r: seq<string>)
    ensures |r| == |rows| && forall i :: 0 <= i < |rows| ==> r[i] == rows[i].top
  {
    seq(|rows|, i requires 0 <= i < |rows| => rows[i].top)
  }

  function TitlePairs(rows: seq<TopCipRow>): (r: seq<(string, string)>)
    ensures |r| == |rows| && forall i :: 0 <= i < |rows| ==> r[i] == (rows[i].top, rows[i].title)
  {
    seq(|rows|, i requires 0 <= i < |rows| => (rows[i].top, rows[i].title))
  }

  /** The programs of the lookups of `codes`, concatenated in order. */
  function ConcatLookups(codes: seq<string>, lookup: string -> seq<Program>): seq<Program> {
    if codes == [] then [] else ConcatLookups(codes[..|codes| - 1], lookup) + lookup(codes[|codes| - 1])
  }

  /** The titles `pairs` give to TOP code `code`, in order. */
  function TitlesFor(pairs: seq<(string, string)>, code: string): (r: seq<string>)
    ensures forall t :: t in r <==> (code, t) in pairs
    ensures NoDups(pairs) ==> NoDups(r)
  {
    if pairs == [] then []
    else
      var rest := TitlesFor(pairs[1..], code);
      assert forall p :: p in pairs <==> p == pairs[0] || p in pairs[1..];
      if pairs[0].0 == code then
        assert NoDups(pairs) ==> (code, pairs[0].1) !in pairs[1..];
        [pairs[0].1] + rest
      else rest
  }

  /** The rows the left merge makes of one program row. */
  function JoinOne(p: Program, pairs: seq<(string, string)>): (r: seq<CollegeProgram>)
    ensures |r| >= 1
  {
    var titles := TitlesFor(pairs, p.topCode);
    if titles == [] then [CollegeProgram(p, None)]
    else seq(|titles|, i requires 0 <= i < |titles| => CollegeProgram(p, Some(titles[i])))
  }

  /** `pd.merge(programs, pairs, left_on="TopCode", right_on="TOP Code", how="left")`. */
  function LeftJoin(programs: seq<Program>, pairs: seq<(string, string)>): seq<CollegeProgram> {
    if programs == [] then [] else JoinOne(programs[0], pairs) + LeftJoin(programs[1..], pairs)
  }

  /** A program row gives one row per distinct title of its TOP code among the
      matched crosswalk rows, or a single row with no title when its TOP code
      matches none of them. */
  lemma JoinOneRows(p: Program, pairs: seq<(string, string)>)
    requires NoDups(pairs)
    ensures var r := JoinOne(p, pairs);
      && (forall i :: 0 <= i < |r| ==> r[i].program == p)
      && ((forall t :: (p.topCode, t) !in pairs) <==> r == [CollegeProgram(p, None)])
      && ((exists t :: (p.topCode, t) in pairs) ==>
            |r| == |TitlesFor(pairs, p.topCode)|
            && (forall i :: 0 <= i < |r| ==> r[i].topCodeTitle.Some? && (p.topCode, r[i].topCodeTitle.value) in pairs)
            && (forall t :: (p.topCode, t) in pairs ==> CollegeProgram(p, Some(t)) in r)
            && NoDups(r))
  {
    var titles := TitlesFor(pairs, p.topCode);
    var r := JoinOne(p, pairs);
    if titles == [] {
      assert forall t :: (p.topCode, t) !in pairs;
    } else {
      assert titles[0] in titles;
      assert r[0].topCodeTitle.Some?;
      forall t | (p.topCode, t) in pairs ensures CollegeProgram(p, Some(t)) in r {
        var i := FirstIndex(titles, t);
        assert r[i] == CollegeProgram(p, Some(t));
      }
    }
  }

  /** Every program row survives the left merge, and every merged row is one
      of the program rows with a title its TOP code has, or with none. */
  lemma {:induction false} LeftJoinKeepsPrograms(programs: seq<Program>, pairs: seq<(string, string)>)
    ensures |LeftJoin(programs, pairs)| >= |programs|
    ensures forall i :: 0 <= i < |programs| ==> exists r :: r in LeftJoin(programs, pairs) && r.program == programs[i]
    ensures forall r :: r in LeftJoin(programs, pairs) ==>
      r.program in programs &&
      (r.topCodeTitle.None? <==> forall t :: (r.program.topCode, t) !in pairs) &&
      (r.topCodeTitle.Some? ==> (r.program.topCode, r.topCodeTitle.value) in pairs)
  {
    if programs != [] {
      var p := programs[0];
      var one := JoinOne(p, pairs);
      var rest := LeftJoin(programs[1..], pairs);
      LeftJoinKeepsPrograms(programs[1..], pairs);
      assert LeftJoin(programs, pairs) == one + rest;
      assert one[0] in one && one[0].program == p;
      forall i | 1 <= i < |programs|
        ensures exists r :: r in LeftJoin(programs, pairs) && r.program == programs[i]
      {
        assert programs[i] == programs[1..][i - 1];
      }
      JoinOneMembers(p, pairs);
    }
  }

  /** Each row the merge makes of program `p` is `p` with one of its titles, or
      with none when it has none. */
  lemma JoinOneMembers(p: Program, pairs: seq<(string, string)>)
    ensures forall r :: r in JoinOne(p, pairs) ==>
      r.program == p &&
      (r.topCodeTitle.None? <==> forall t :: (p.topCode, t) !in pairs) &&
      (r.topCodeTitle.Some? ==> (p.topCode, r.topCodeTitle.value) in pairs)
  {
    var one := JoinOne(p, pairs);
    var titles := TitlesFor(pairs, p.topCode);
    forall r | r in one
      ensures r.program == p
      ensures r.topCodeTitle.None? <==> forall t :: (p.topCode, t) !in pairs
      ensures r.topCodeTitle.Some? ==> (p.topCode, r.topCodeTitle.value) in pairs
    {
      if titles != [] {
        var i :| 0 <= i < |one| && one[i] == r;
        assert r.topCodeTitle == Some(titles[i]);
        assert titles[0] in titles;
      }
    }
  }

  // =====================================================================
  // Sorting by (CollegeID, TopCode)

  /** Python's string order: lexicographic by code point. */
  predicate StrLe(a: string, b: string) {
    a == [] || (b != [] && (a[0] < b[0] || (a[0] == b[0] && StrLe(a[1..], b[1..]))))
  }

  lemma StrLeTotal(a: string, b: string)
    ensures StrLe(a, b) || StrLe(b, a)
  {
  }

  lemma StrLeTrans(a: string, b: string, c: string)
    requires StrLe(a, b) && StrLe(b, c)
    ensures StrLe(a, c)
  {
  }

  lemma StrLeAntisym(a: string, b: string)
    requires StrLe(a, b) && StrLe(b, a)
    ensures a == b
  {
    if a != [] && b != [] {
      StrLeAntisym(a[1..], b[1..]);
      assert a == [a[0]] + a[1..] && b == [b[0]] + b[1..];
    }
  }

  lemma StrLeRefl(a: string)
    ensures StrLe(a, a)
  {
  }

  /** The sort key `(CollegeID, TopCode)`. */
  function SortKey(r: CollegeProgram): (int, string) {
    (r.program.collegeId, r.program.topCode)
  }

  predicate KeyLe(a: CollegeProgram, b: CollegeProgram) {
    a.program.collegeId < b.program.collegeId
    || (a.program.collegeId == b.program.collegeId && StrLe(a.program.topCode, b.program.topCode))
  }

  predicate Sorted(s: seq<CollegeProgram>) {
    forall i, j :: 0 <= i < j < |s| ==> KeyLe(s[i], s[j])
  }

  /** Insert `x` before the first row whose key is not below its own. */
  function Insert(x: CollegeProgram, s: seq<CollegeProgram>): seq<CollegeProgram> {
    if s == [] then [x]
    else if KeyLe(x, s[0]) then [x] + s
    else [s[0]] + Insert(x, s[1..])
  }

  /** `sort_values(by=["CollegeID", "TopCode"])`: a stable sort. */
  function SortRows(s: seq<CollegeProgram>): seq<CollegeProgram> {
    if s == [] then [] else Insert(s[0], SortRows(s[1..]))
  }

  lemma {:induction false} InsertSorted(x: CollegeProgram, s: seq<CollegeProgram>)
    requires Sorted(s)
    ensures Sorted(Insert(x, s))
    ensures multiset(Insert(x, s)) == multiset(s) + multiset{x}
  {
    if s != [] {
      if KeyLe(x, s[0]) {
        forall j | 0 < j < |s| ensures KeyLe(x, s[j]) {
          KeyLeTrans(x, s[0], s[j]);
        }
      } else {
        KeyLeTotal(x, s[0]);
        InsertSorted(x, s[1..]);
        InsertBehindHead(x, s);
      }
    }
  }

  /** Inserting behind the head keeps the head first: it is below `x` and below
      every other row. */
  lemma InsertBehindHead(x: CollegeProgram, s: seq<CollegeProgram>)
    requires Sorted(s) && s != [] && KeyLe(s[0], x) && !KeyLe(x, s[0])
    requires Sorted(Insert(x, s[1..]))
    requires multiset(Insert(x, s[1..])) == multiset(s[1..]) + multiset{x}
    ensures Sorted(Insert(x, s))
    ensures multiset(Insert(x, s)) == multiset(s) + multiset{x}
  {
    var t := Insert(x, s[1..]);
    HeadBelowRest(s);
    forall j | 0 <= j < |t| ensures KeyLe(s[0], t[j]) {
      var y := t[j];
      assert y in multiset(t);
      if y != x {
        assert y in multiset(s[1..]);
      }
    }
    SortedCons(s[0], t);
    assert Insert(x, s) == [s[0]] + t;
    assert s == [s[0]] + s[1..];
  }

  lemma HeadBelowRest(s: seq<CollegeProgram>)
    requires Sorted(s) && s != []
    ensures forall y :: y in s[1..] ==> KeyLe(s[0], y)
  {
    forall y | y in s[1..] ensures KeyLe(s[0], y) {
      var j :| 0 <= j < |s[1..]| && s[1..][j] == y;
      assert s[j + 1] == y;
    }
  }

  lemma SortedCons(h: CollegeProgram, t: seq<CollegeProgram>)
    requires Sorted(t) && forall j :: 0 <= j < |t| ==> KeyLe(h, t[j])
    ensures Sorted([h] + t)
  {
    var s := [h] + t;
    forall i, j | 0 <= i < j < |s| ensures KeyLe(s[i], s[j]) {
      if i > 0 {
        assert s[i] == t[i - 1] && s[j] == t[j - 1];
      } else {
        assert s[j] == t[j - 1];
      }
    }
  }

  lemma KeyLeTotal(a: CollegeProgram, b: CollegeProgram)
    ensures KeyLe(a, b) || KeyLe(b, a)
  {
    StrLeTotal(a.program.topCode, b.program.topCode);
  }

  lemma KeyLeTrans(a: CollegeProgram, b: CollegeProgram, c: CollegeProgram)
    requires KeyLe(a, b) && KeyLe(b, c)
    ensures KeyLe(a, c)
  {
    if a.program.collegeId == b.program.collegeId == c.program.collegeId {
      StrLeTrans(a.program.topCode, b.program.topCode, c.program.topCode);
    }
  }

  /** The result is sorted by (CollegeID, TopCode) and holds the same rows. */
  lemma {:induction false} SortRowsSortedPermutation(s: seq<CollegeProgram>)
    ensures Sorted(SortRows(s))
    ensures multiset(SortRows(s)) == multiset(s)
  {
    if s != [] {
      SortRowsSortedPermutation(s[1..]);
      InsertSorted(s[0], SortRows(s[1..]));
      assert s == [s[0]] + s[1..];
    }
  }

  /** Sorting rows that are already sorted changes nothing. */
  lemma {:induction false} SortRowsOfSorted(s: seq<CollegeProgram>)
    requires Sorted(s)
    ensures SortRows(s) == s
  {
    if s != [] {
      assert Sorted(s[1..]);
      SortRowsOfSorted(s[1..]);
      if |s| > 1 {
        assert KeyLe(s[0], s[1..][0]);
      }
      assert [s[0]] + s[1..] == s;
    }
  }

  /** Sorting twice is sorting once. */
  lemma SortRowsIdempotent(s: seq<CollegeProgram>)
    ensures SortRows(SortRows(s)) == SortRows(s)
  {
    SortRowsSortedPermutation(s);
    SortRowsOfSorted(SortRows(s));
  }

  /** The rows whose sort key is `k`, in order. */
  function WithKey(s: seq<CollegeProgram>, k: (int, string)): seq<CollegeProgram> {
    if s == [] then [] else (if SortKey(s[0]) == k then [s[0]] else []) + WithKey(s[1..], k)
  }

  lemma {:induction false} InsertStable(x: CollegeProgram, s: seq<CollegeProgram>, k: (int, string))
    ensures WithKey(Insert(x, s), k) == (if SortKey(x) == k then [x] else []) + WithKey(s, k)
  {
    if s != [] {
      if KeyLe(x, s[0]) {
        assert ([x] + s)[1..] == s;
      } else {
        InsertStable(x, s[1..], k);
        assert ([s[0]] + Insert(x, s[1..]))[1..] == Insert(x, s[1..]);
        if SortKey(x) == k {
          StrLeRefl(x.program.topCode);
          assert SortKey(s[0]) != k;
        }
      }
    }
  }

  /** The sort is stable: rows with equal (CollegeID, TopCode) keep their order. */
  lemma {:induction false} SortRowsStable(s: seq<CollegeProgram>, k: (int, string))
    ensures WithKey(SortRows(s), k) == WithKey(s, k)
  {
    if s != [] {
      SortRowsStable(s[1..], k);
      InsertStable(s[0], SortRows(s[1..]), k);
    }
  }

  // =====================================================================
  // match_colleges_top_from_soc

  /** What the function returns: a joined table, or an empty DataFrame
      because a crosswalk file is missing or the merge raised. */
  datatype JoinOutcome =
    | Joined(rows: seq<CollegeProgram>)
    | MissingCrosswalk
    | MergeFailed
  {
    function Table(): seq<CollegeProgram> {
      if Joined? then rows else []
    }
  }

  /** The matched TOP <-> CIP rows for `soc`. */
  function MatchedTop(soc: string, cipSocFile: seq<CipSocRow>, topCipFile: seq<TopCipRow>): seq<TopCipRow> {
    MatchedTopRows(LoadTopCipCrosswalk(topCipFile), MatchedCipCodes(LoadCipSocCrosswalk(cipSocFile), soc))
  }

  /** The TOP codes looked up: the matched ones, each once, first-seen order. */
  function LookedUpCodes(soc: string, cipSocFile: seq<CipSocRow>, topCipFile: seq<TopCipRow>): seq<string> {
    Distinct(TopCodes(MatchedTop(soc, cipSocFile, topCipFile)))
  }

  /** The whole pipeline. A file that is missing is `None`; the CCCCO program
      lookup is `lookup`. The merge raises exactly when no program was
      accumulated (an empty DataFrame has no "TopCode" column). */
  function MatchSpec(soc: string, cipSocFile: Option<seq<CipSocRow>>, topCipFile: Option<seq<TopCipRow>>,
                     lookup: string -> seq<Program>): JoinOutcome
  {
    if cipSocFile.None? || topCipFile.None? then MissingCrosswalk
    else
      var matched := MatchedTop(soc, cipSocFile.value, topCipFile.value);
      var programs := ConcatLookups(Distinct(TopCodes(matched)), lookup);
      if programs == [] then MergeFailed
      else Joined(SortRows(LeftJoin(programs, Distinct(TitlePairs(matched)))))
  }

  /** The loop of match_colleges_top_from_soc: one lookup per code, in order,
      each result appended to the accumulator. */
  method AccumulatePrograms(codes: seq<string>, lookup: string -> seq<Program>)
    returns (programs: seq<Program>, calls: seq<string>)
    ensures calls == codes
    ensures programs == ConcatLookups(codes, lookup)
  {
    programs, calls := [], [];
    var i := 0;
    while i < |codes|
      invariant 0 <= i <= |codes|
      invariant calls == codes[..i]
      invariant programs == ConcatLookups(codes[..i], lookup)
    {
      var colleges := lookup(codes[i]);
      calls := calls + [codes[i]];
      programs := programs + colleges;
      assert codes[..i + 1][..i] == codes[..i];
      i := i + 1;
    }
    assert codes[..i] == codes;
  }

  /** match_colleges_top_from_soc(soc). `lookups` lists the TOP codes passed
      to the program lookup, in call order. */
  method MatchCollegesTopFromSoc(soc: string, cipSocFile: Option<seq<CipSocRow>>, topCipFile: Option<seq<TopCipRow>>,
                                 lookup: string -> seq<Program>)
    returns (table: seq<CollegeProgram>, lookups: seq<string>)
    ensures cipSocFile.None? || topCipFile.None? ==> table == [] && lookups == []
    ensures cipSocFile.Some? && topCipFile.Some? ==>
      lookups == LookedUpCodes(soc, cipSocFile.value, topCipFile.value)
    ensures table == MatchSpec(soc, cipSocFile, topCipFile, lookup).Table()
  {
    if cipSocFile.None? || topCipFile.None? {
      return [], [];
    }
    var cipSoc := LoadCipSocCrosswalk(cipSocFile.value);
    var topCip := LoadTopCipCrosswalk(topCipFile.value);
    var matchedCips := MatchedCipCodes(cipSoc, soc);
    var matchedTop := MatchedTopRows(topCip, matchedCips);
    var uniqueCodes := Distinct(TopCodes(matchedTop));
    var programs;
    programs, lookups := AccumulatePrograms(uniqueCodes, lookup);
    if programs == [] {
      return [], lookups;
    }
    table := SortRows(LeftJoin(programs, Distinct(TitlePairs(matchedTop))));
  }

  // =====================================================================
  // What the pipeline promises

  /** An occupation that no CIP <-> SOC row names gives no lookup and an empty
      result (the merge of the empty accumulator fails and is caught). */
  lemma NoSocMatchIsEmpty(soc: string, cipSocFile: seq<CipSocRow>, topCipFile: seq<TopCipRow>,
                          lookup: string -> seq<Program>)
    requires forall i :: 0 <= i < |cipSocFile| ==> cipSocFile[i].soc != soc
    ensures LookedUpCodes(soc, cipSocFile, topCipFile) == []
    ensures MatchSpec(soc, Some(cipSocFile), Some(topCipFile), lookup) == MergeFailed
  {
    var cips := MatchedCipCodes(LoadCipSocCrosswalk(cipSocFile), soc);
    assert forall c :: c !in cips;
    MatchedTopRowsNone(LoadTopCipCrosswalk(topCipFile), cips);
  }

  /** Exactly one lookup per distinct matched TOP code, in first-seen order. */
  lemma LookupsOncePerCode(soc: string, cipSocFile: seq<CipSocRow>, topCipFile: seq<TopCipRow>)
    ensures var codes := LookedUpCodes(soc, cipSocFile, topCipFile);
      var matched := MatchedTop(soc, cipSocFile, topCipFile);
      && NoDups(codes)
      && (forall i :: 0 <= i < |matched| ==> matched[i].top in codes)
      && (forall c :: c in codes ==> c in TopCodes(matched))
      && (forall i, j :: 0 <= i < j < |codes| ==>
            FirstIndex(TopCodes(matched), codes[i]) < FirstIndex(TopCodes(matched), codes[j]))
  {
    var codes := LookedUpCodes(soc, cipSocFile, topCipFile);
    var tops := TopCodes(MatchedTop(soc, cipSocFile, topCipFile));
    forall i, j | 0 <= i < j < |codes|
      ensures FirstIndex(tops, codes[i]) < FirstIndex(tops, codes[j])
    {
      DistinctFirstSeenOrder(tops, i, j);
    }
  }

  /** The matched rows, and so the lookups, follow the TOP <-> CIP crosswalk's
      row order: splitting the file in two matches the first part's rows,
      then the second's. */
  lemma MatchedTopFollowsCrosswalk(soc: string, cipSocFile: seq<CipSocRow>, a: seq<TopCipRow>, b: seq<TopCipRow>)
    ensures MatchedTop(soc, cipSocFile, a + b) == MatchedTop(soc, cipSocFile, a) + MatchedTop(soc, cipSocFile, b)
    ensures TopCodes(MatchedTop(soc, cipSocFile, a + b))
      == TopCodes(MatchedTop(soc, cipSocFile, a)) + TopCodes(MatchedTop(soc, cipSocFile, b))
  {
    var cips := MatchedCipCodes(LoadCipSocCrosswalk(cipSocFile), soc);
    LoadTopCipAppend(a, b);
    MatchedTopRowsAppend(LoadTopCipCrosswalk(a), LoadTopCipCrosswalk(b), cips);
    TopCodesAppend(MatchedTop(soc, cipSocFile, a), MatchedTop(soc, cipSocFile, b));
  }

  lemma LoadTopCipAppend(a: seq<TopCipRow>, b: seq<TopCipRow>)
    ensures LoadTopCipCrosswalk(a + b) == LoadTopCipCrosswalk(a) + LoadTopCipCrosswalk(b)
  {
    MapRowsAppend(a, b, NormalizeTopRow);
  }

  lemma TopCodesAppend(a: seq<TopCipRow>, b: seq<TopCipRow>)
    ensures TopCodes(a + b) == TopCodes(a) + TopCodes(b)
  {
  }

  /** The result is the left merge of the accumulated programs, sorted: the
      same rows, sorted by (CollegeID, TopCode), each program row kept. */
  lemma JoinedResultProperties(soc: string, cipSocFile: seq<CipSocRow>, topCipFile: seq<TopCipRow>,
                               lookup: string -> seq<Program>)
    requires MatchSpec(soc, Some(cipSocFile), Some(topCipFile), lookup).Joined?
    ensures var matched := MatchedTop(soc, cipSocFile, topCipFile);
      var programs := ConcatLookups(LookedUpCodes(soc, cipSocFile, topCipFile), lookup);
      var pairs := Distinct(TitlePairs(matched));
      var table := MatchSpec(soc, Some(cipSocFile), Some(topCipFile), lookup).Table();
      && programs != []
      && Sorted(table)
      && multiset(table) == multiset(LeftJoin(programs, pairs))
      && (forall i :: 0 <= i < |programs| ==> exists r :: r in table && r.program == programs[i])
      && (forall r :: r in table ==>
            (r.program in programs && (r.topCodeTitle.None? <==> forall t :: (r.program.topCode, t) !in pairs)))
  {
    var matched := MatchedTop(soc, cipSocFile, topCipFile);
    var programs := ConcatLookups(LookedUpCodes(soc, cipSocFile, topCipFile), lookup);
    var pairs := Distinct(TitlePairs(matched));
    SortedLeftJoin(programs, pairs);
  }

  /** Sorting the merged rows keeps them all and so keeps every program row. */
  lemma SortedLeftJoin(programs: seq<Program>, pairs: seq<(string, string)>)
    ensures var joined := LeftJoin(programs, pairs);
      var table := SortRows(joined);
      && Sorted(table)
      && multiset(table) == multiset(joined)
      && (forall i :: 0 <= i < |programs| ==> exists r :: r in table && r.program == programs[i])
      && (forall r :: r in table ==>
            (r.program in programs && (r.topCodeTitle.None? <==> forall t :: (r.program.topCode, t) !in pairs)))
  {
    var joined := LeftJoin(programs, pairs);
    SortRowsSortedPermutation(joined);
    LeftJoinKeepsPrograms(programs, pairs);
    var table := SortRows(joined);
    forall i | 0 <= i < |programs| ensures exists r :: r in table && r.program == programs[i] {
      var r :| r in joined && r.program == programs[i];
      assert r in multiset(table);
    }
    forall r | r in table ensures r in joined {
      assert r in multiset(joined);
    }
  }

  /** A matched title belongs to a crosswalk row with that TOP code. */
  lemma TitlePairsOfMatched(soc: string, cipSocFile: seq<CipSocRow>, topCipFile: seq<TopCipRow>, code: string, t: string)
    ensures (code, t) in Distinct(TitlePairs(MatchedTop(soc, cipSocFile, topCipFile))) <==>
      exists i :: 0 <= i < |MatchedTop(soc, cipSocFile, topCipFile)| &&
        MatchedTop(soc, cipSocFile, topCipFile)[i].top == code && MatchedTop(soc, cipSocFile, topCipFile)[i].title == t
  {
    var m := MatchedTop(soc, cipSocFile, topCipFile);
    var tp := TitlePairs(m);
    if (code, t) in Distinct(tp) {
      var i :| 0 <= i < |tp| && tp[i] == (code, t);
    }
    if exists i :: 0 <= i < |m| && m[i].top == code && m[i].title == t {
      var i :| 0 <= i < |m| && m[i].top == code && m[i].title == t;
      assert tp[i] == (code, t);
    }
  }

  /** Worked value: "1.5" becomes "000150" (the fraction is appended after
      the zero-padded whole part, then the code is right-padded). */
  lemma NormalizeTopDottedExample()
    ensures NormalizeTop("1.5") == "000150"
  {
    NormalizeTopWithDot("1", "5", "");
    assert "1" + "." + "5" + "" == "1.5";
    ZFillOfOne();
    assert AllDigits("0001");
    StripNonDigitsOfDigits("0001");
    assert StripNonDigits("5") == "5";
    assert "0001" + "5" == "00015";
    LJustOfDottedExample();
  }

  lemma ZFillOfOne()
    ensures ZFill("1", 4) == "0001"
  {
    assert Zeros(3) == "000";
  }

  lemma LJustOfDottedExample()
    ensures LJust("00015", 6) == "000150"
  {
    assert Zeros(1) == "0";
  }

  /** Worked value: "0100" becomes "010000". */
  lemma NormalizeTopPlainExample()
    ensures NormalizeTop("0100") == "010000"
  {
    assert AllDigits("0100");
    assert '.' !in "0100";
    NormalizeTopWithoutDot("0100");
    assert ZFill("0100", 4) == "0100";
    assert Zeros(2) == "00";
    assert LJust("0100", 6) == "010000";
  }

  /** The crosswalk rows of the worked scenario below all match. */
  lemma ExampleMatchedRows()
    ensures MatchedTop("15-1252", [CipSocRow("15-1252", "110201")],
                       [TopCipRow("070100", "110201", "Computer Science")])
      == [TopCipRow("070100", "110201", "Computer Science")]
  {
    var cipSoc := [CipSocRow("15-1252", "110201")];
    var topCip := [TopCipRow("070100", "110201", "Computer Science")];
    ExampleFilesLoadUnchanged();
    var cips := MatchedCipCodes(cipSoc, "15-1252");
    assert cips == ["110201"] by {
      assert cipSoc[1..] == [];
    }
    MatchedTopRowsOne(topCip[0], cips);
  }

  /** The example's codes are already normal, so loading leaves them as they are. */
  lemma ExampleFilesLoadUnchanged()
    ensures LoadCipSocCrosswalk([CipSocRow("15-1252", "110201")]) == [CipSocRow("15-1252", "110201")]
    ensures LoadTopCipCrosswalk([TopCipRow("070100", "110201", "Computer Science")])
      == [TopCipRow("070100", "110201", "Computer Science")]
  {
    var cipSoc := [CipSocRow("15-1252", "110201")];
    var topCip := [TopCipRow("070100", "110201", "Computer Science")];
    assert AllDigits(cipSoc[0].cip);
    LoadCipSocOfDigits(cipSoc);
    assert AllDigits(topCip[0].top);
    LoadTopCipOfNormal(topCip);
  }

  lemma ExampleLookups(lookup: string -> seq<Program>, program: Program)
    requires lookup("070100") == [program]
    ensures ConcatLookups(Distinct(TopCodes([TopCipRow("070100", "110201", "Computer Science")])), lookup) == [program]
  {
    var codes := TopCodes([TopCipRow("070100", "110201", "Computer Science")]);
    assert codes == ["070100"];
    DistinctOfNoDups(codes);
    assert codes[..0] == [];
  }

  lemma ExampleJoin(program: Program)
    requires program.topCode == "070100"
    ensures SortRows(LeftJoin([program], Distinct(TitlePairs([TopCipRow("070100", "110201", "Computer Science")]))))
      == [CollegeProgram(program, Some("Computer Science"))]
  {
    var pairs := TitlePairs([TopCipRow("070100", "110201", "Computer Science")]);
    assert pairs == [("070100", "Computer Science")];
    DistinctOfNoDups(pairs);
    assert TitlesFor(pairs, "070100") == ["Computer Science"];
    var row := CollegeProgram(program, Some("Computer Science"));
    assert JoinOne(program, pairs) == [row];
    assert LeftJoin([program], pairs) == [row];
  }

  /** One CIP <-> SOC row, one TOP <-> CIP row and a lookup that returns one
      program for TOP code "070100" give exactly one row, titled
      "Computer Science". */
  lemma EndToEndExample(lookup: string -> seq<Program>, program: Program)
    requires program.topCode == "070100" && lookup("070100") == [program]
    ensures MatchSpec("15-1252", Some([CipSocRow("15-1252", "110201")]),
                      Some([TopCipRow("070100", "110201", "Computer Science")]), lookup).Table()
      == [CollegeProgram(program, Some("Computer Science"))]
  {
    ExampleMatchedRows();
    ExampleLookups(lookup, program);
    ExampleJoin(program);
  }
}
