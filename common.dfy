/** Values and sequence operations shared by the scripts' models: an optional
    value (Python's None), ASCII digits, and the order-preserving de-duplication
    that pandas' `unique()` / `drop_duplicates()` and Python's dict keys use. */
module Common {

  datatype Option<T> = None | Some(value: T)

  /** Python truthiness of an optional string: present and not empty. */
  predicate Truthy(s: Option<string>) {
    s.Some? && s.value != ""
  }

  predicate IsDigit(c: char) {
    '0' <= c <= '9'
  }

  predicate AllDigits(s: string) {
    forall i :: 0 <= i < |s| ==> IsDigit(s[i])
  }

  /** A string of `n` copies of '0'. */
  function Zeros(n: nat): (r: string)
    ensures |r| == n
    ensures forall i :: 0 <= i < n ==> r[i] == '0'
  {
    if n == 0 then [] else Zeros(n - 1) + ['0']
  }

  predicate NoDups<T(==)>(s: seq<T>) {
    forall i, j :: 0 <= i < j < |s| ==> s[i] != s[j]
  }

  /** Index of the first occurrence of `x` in `s`. */
  function FirstIndex<T(==)>(s: seq<T>, x: T): (k: nat)
    requires x in s
    ensures k < |s| && s[k] == x
    ensures forall i :: 0 <= i < k ==> s[i] != x
  {
    if s[0] == x then 0 else 1 + FirstIndex(s[1..], x)
  }

  /** The elements of `s` without repetitions, each at its first occurrence. */
  function Distinct<T(==)>(s: seq<T>): (r: seq<T>)
    ensures forall i :: 0 <= i < |r| ==> r[i] in s
    ensures forall i :: 0 <= i < |s| ==> s[i] in r
    ensures NoDups(r)
    ensures |r| <= |s|
  {
    if s == [] then []
    else
      var d := Distinct(s[..|s| - 1]);
      var x := s[|s| - 1];
      assert s == s[..|s| - 1] + [x];
      if x in d then d else d + [x]
  }

  /** A sequence without repetitions is its own de-duplication. */
  lemma {:induction false} DistinctOfNoDups<T>(s: seq<T>)
    requires NoDups(s)
    ensures Distinct(s) == s
  {
    if s != [] {
      var init := s[..|s| - 1];
      assert NoDups(init);
      DistinctOfNoDups(init);
      assert s[|s| - 1] !in init;
      assert init + [s[|s| - 1]] == s;
    }
  }

  /** Unfolding Distinct at an appended element. */
  lemma DistinctSnoc<T>(s: seq<T>, x: T)
    ensures Distinct(s + [x]) == if x in Distinct(s) then Distinct(s) else Distinct(s) + [x]
  {
    assert (s + [x])[..|s + [x]| - 1] == s;
  }

  /** De-duplicating a suffix first changes nothing:
      Distinct(xs + Distinct(ys)) == Distinct(xs + ys). */
  lemma {:induction false} DistinctAbsorbsSuffix<T>(xs: seq<T>, ys: seq<T>)
    ensures Distinct(xs + Distinct(ys)) == Distinct(xs + ys)
  {
    if ys == [] {
      assert xs + ys == xs;
      assert xs + Distinct(ys) == xs;
    } else {
      var init := ys[..|ys| - 1];
      var y := ys[|ys| - 1];
      assert ys == init + [y];
      DistinctAbsorbsSuffix(xs, init);
      DistinctAbsorbsSuffixStep(xs, init, y);
    }
  }

  lemma DistinctAbsorbsSuffixStep<T>(xs: seq<T>, init: seq<T>, y: T)
    requires Distinct(xs + Distinct(init)) == Distinct(xs + init)
    ensures Distinct(xs + Distinct(init + [y])) == Distinct(xs + (init + [y]))
  {
    var di := Distinct(init);
    DistinctSnoc(init, y);
    if y in di {
      DistinctAbsorbsSeen(xs, init, y);
    } else {
      DistinctAbsorbsNew(xs, init, di, y);
    }
  }

  /** An element already in `init` adds nothing on either side. */
  lemma DistinctAbsorbsSeen<T>(xs: seq<T>, init: seq<T>, y: T)
    requires Distinct(xs + Distinct(init)) == Distinct(xs + init)
    requires y in Distinct(init)
    ensures Distinct(xs + Distinct(init)) == Distinct(xs + (init + [y]))
  {
    var i :| 0 <= i < |Distinct(init)| && Distinct(init)[i] == y;
    var j :| 0 <= j < |init| && init[j] == y;
    var whole := xs + init;
    assert whole[|xs| + j] == y;
    assert y in Distinct(whole);
    assert xs + (init + [y]) == whole + [y];
    DistinctSnoc(whole, y);
  }

  /** A new element is appended on both sides, or on neither. */
  lemma DistinctAbsorbsNew<T>(xs: seq<T>, init: seq<T>, di: seq<T>, y: T)
    requires di == Distinct(init)
    requires Distinct(xs + di) == Distinct(xs + init)
    ensures Distinct(xs + (di + [y])) == Distinct(xs + (init + [y]))
  {
    var left := xs + di;
    var right := xs + init;
    assert xs + (di + [y]) == left + [y];
    assert xs + (init + [y]) == right + [y];
    DistinctSnoc(left, y);
    DistinctSnoc(right, y);
  }

  /** De-duplicating a prefix first changes nothing:
      Distinct(Distinct(xs) + ys) == Distinct(xs + ys). */
  lemma {:induction false} DistinctAbsorbsPrefix<T>(xs: seq<T>, ys: seq<T>)
    ensures Distinct(Distinct(xs) + ys) == Distinct(xs + ys)
  {
    if ys == [] {
      assert xs + ys == xs;
      assert Distinct(xs) + ys == Distinct(xs);
      DistinctOfNoDups(Distinct(xs));
    } else {
      var init := ys[..|ys| - 1];
      var y := ys[|ys| - 1];
      assert ys == init + [y];
      assert xs + ys == (xs + init) + [y];
      assert Distinct(xs) + ys == (Distinct(xs) + init) + [y];
      DistinctAbsorbsPrefix(xs, init);
      DistinctSnoc(xs + init, y);
      DistinctSnoc(Distinct(xs) + init, y);
    }
  }

  /** Distinct lists elements in the order of their first occurrence in `s`. */
  lemma {:induction false} DistinctFirstSeenOrder<T>(s: seq<T>, i: nat, j: nat)
    requires i < j < |Distinct(s)|
    ensures FirstIndex(s, Distinct(s)[i]) < FirstIndex(s, Distinct(s)[j])
  {
    var init := s[..|s| - 1];
    var x := s[|s| - 1];
    var d := Distinct(init);
    var r := Distinct(s);
    assert s == init + [x];
    FirstIndexPrefix(init, x, r[i]);
    if j < |d| {
      DistinctFirstSeenOrder(init, i, j);
      FirstIndexPrefix(init, x, r[j]);
    } else {
      assert r == d + [x] && r[j] == x && x !in init;
      assert FirstIndex(s, x) == |init|;
    }
  }

  /** The first occurrence in `init + [x]` of an element of `init` is its first
      occurrence in `init`. */
  lemma {:induction false} FirstIndexPrefix<T>(init: seq<T>, x: T, y: T)
    requires y in init
    ensures FirstIndex(init + [x], y) == FirstIndex(init, y)
  {
    if init[0] != y {
      assert (init + [x])[1..] == init[1..] + [x];
      FirstIndexPrefix(init[1..], x, y);
    }
  }
}
