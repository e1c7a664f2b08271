/** flatten_dict (scripts/utils.py): a nested dictionary becomes a flat one
    whose keys join the path of keys with a separator.

    A Python dict is modelled as an association list in insertion order;
    `dict(items)` keeps each key at its first insertion and gives it the value
    of its last pair (DictOf). */
module Utils {
  import opened Common

  /** A value as flatten_dict sees it: a dict, or anything else. */
  datatype Value<S> = Scalar(s: S) | Dict(entries: seq<(string, Value<S>)>)

  /** `f"{parent_key}{sep}{k}" if parent_key else k` */
  function NewKey(parentKey: string, sep: string, k: string): string {
    if parentKey != "" then parentKey + sep + k else k
  }

  function Keys<V>(items: seq<(string, V)>): (ks: seq<string>)
    ensures |ks| == |items|
    ensures forall i :: 0 <= i < |items| ==> ks[i] == items[i].0
  {
    seq(|items|, i requires 0 <= i < |items| => items[i].0)
  }

  /** The value of the last pair whose key is `k`. */
  function LastValue<V>(items: seq<(string, V)>, k: string): V
    requires k in Keys(items)
  {
    var n := |items| - 1;
    if items[n].0 == k then items[n].1
    else
      assert Keys(items) == Keys(items[..n]) + [items[n].0];
      LastValue(items[..n], k)
  }

  /** `dict(items)`: one pair per key, keys in order of first insertion,
      each with the value of the key's last pair. */
  function DictOf<V>(items: seq<(string, V)>): (d: seq<(string, V)>)
    ensures Keys(d) == Distinct(Keys(items))
    ensures forall i :: 0 <= i < |d| ==> d[i].0 in Keys(items) && d[i].1 == LastValue(items, d[i].0)
  {
    var ks := Distinct(Keys(items));
    seq(|ks|, i requires 0 <= i < |ks| => (ks[i], LastValue(items, ks[i])))
  }

  /** The leaves of the entry at `i`, each paired with the key flatten_dict
      gives it. */
  function EntryLeaves<S>(entries: seq<(string, Value<S>)>, i: nat, parentKey: string, sep: string)
    : seq<(string, Value<S>)>
    requires i < |entries|
    decreases Dict(entries), i, 0
  {
    var nk := NewKey(parentKey, sep, entries[i].0);
    match entries[i].1
    case Dict(sub) =>
      assert entries[i] in entries;
      LeavesUpTo(sub, |sub|, nk, sep)
    case Scalar(_) => [(nk, entries[i].1)]
  }

  /** The leaves of the first `n` entries in depth-first order. */
  function LeavesUpTo<S>(entries: seq<(string, Value<S>)>, n: nat, parentKey: string, sep: string)
    : seq<(string, Value<S>)>
    requires n <= |entries|
    decreases Dict(entries), n, 1
  {
    if n == 0 then []
    else LeavesUpTo(entries, n - 1, parentKey, sep) + EntryLeaves(entries, n - 1, parentKey, sep)
  }

  function Leaves<S>(entries: seq<(string, Value<S>)>, parentKey: string, sep: string)
    : seq<(string, Value<S>)>
  {
    LeavesUpTo(entries, |entries|, parentKey, sep)
  }

  /** What flatten_dict(d, parent_key, sep) returns. */
  function Flattened<S>(entries: seq<(string, Value<S>)>, parentKey: string, sep: string)
    : seq<(string, Value<S>)>
  {
    DictOf(Leaves(entries, parentKey, sep))
  }

  // ---------------------------------------------------------------------
  // The implementation: the loop of scripts/utils.py, recursing into dicts.

  /** What the loop appends for the entry at `i`: the flattened nested dict,
      or the one pair of a non-dict value. */
  function EntryItems<S>(entries: seq<(string, Value<S>)>, i: nat, parentKey: string, sep: string)
    : seq<(string, Value<S>)>
    requires i < |entries|
  {
    var nk := NewKey(parentKey, sep, entries[i].0);
    match entries[i].1
    case Dict(sub) => Flattened(sub, nk, sep)
    case Scalar(_) => [(nk, entries[i].1)]
  }

  /** The list `items` after the first `n` entries. */
  function ItemsUpTo<S>(entries: seq<(string, Value<S>)>, n: nat, parentKey: string, sep: string)
    : seq<(string, Value<S>)>
    requires n <= |entries|
  {
    if n == 0 then [] else ItemsUpTo(entries, n - 1, parentKey, sep) + EntryItems(entries, n - 1, parentKey, sep)
  }

  lemma ItemsUpToStep<S>(entries: seq<(string, Value<S>)>, i: nat, parentKey: string, sep: string)
    requires i < |entries|
    ensures ItemsUpTo(entries, i + 1, parentKey, sep) == ItemsUpTo(entries, i, parentKey, sep) + EntryItems(entries, i, parentKey, sep)
  {
  }

  method FlattenDict<S>(d: seq<(string, Value<S>)>, parentKey: string, sep: string)
    returns (r: seq<(string, Value<S>)>)
    ensures r == Flattened(d, parentKey, sep)
    decreases Dict(d), 1
  {
    var items: seq<(string, Value<S>)> := [];
    var i := 0;
    while i < |d|
      invariant 0 <= i <= |d|
      invariant items == ItemsUpTo(d, i, parentKey, sep)
    {
      var added := FlattenEntry(d, i, parentKey, sep);
      ItemsUpToStep(d, i, parentKey, sep);
      items := items + added;
      i := i + 1;
    }
    ItemsBuildLeavesDict(d, |d|, parentKey, sep);
    r := DictOf(items);
  }

  /** One iteration of the loop: the flattened nested dict under the new key,
      or the new key with a non-dict value. */
  method FlattenEntry<S>(d: seq<(string, Value<S>)>, i: nat, parentKey: string, sep: string)
    returns (added: seq<(string, Value<S>)>)
    requires i < |d|
    ensures added == EntryItems(d, i, parentKey, sep)
    decreases Dict(d), 0
  {
    var k := d[i].0;
    var v := d[i].1;
    var newKey := if parentKey != "" then parentKey + sep + k else k;
    if v.Dict? {
      assert d[i] in d;
      added := FlattenDict(v.entries, newKey, sep);
    } else {
      added := [(newKey, v)];
    }
  }

  /** The dict of the loop's `items` is the dict of the depth-first leaves:
      building a nested dict before extending `items` changes nothing. */
  lemma {:induction false} ItemsBuildLeavesDict<S>(entries: seq<(string, Value<S>)>, n: nat, parentKey: string, sep: string)
    requires n <= |entries|
    ensures DictOf(ItemsUpTo(entries, n, parentKey, sep)) == DictOf(LeavesUpTo(entries, n, parentKey, sep))
  {
    if n > 0 {
      var m := n - 1;
      ItemsBuildLeavesDict(entries, m, parentKey, sep);
      ItemsStep(entries, m, parentKey, sep);
    }
  }

  lemma ItemsStep<S>(entries: seq<(string, Value<S>)>, n: nat, parentKey: string, sep: string)
    requires n < |entries|
    requires DictOf(ItemsUpTo(entries, n, parentKey, sep)) == DictOf(LeavesUpTo(entries, n, parentKey, sep))
    ensures DictOf(ItemsUpTo(entries, n + 1, parentKey, sep)) == DictOf(LeavesUpTo(entries, n + 1, parentKey, sep))
  {
    EntryStep(entries, n, parentKey, sep, ItemsUpTo(entries, n, parentKey, sep), LeavesUpTo(entries, n, parentKey, sep));
  }

  /** One step of the loop: appending an entry's flattened dict or its pair
      keeps the two dicts equal. */
  lemma EntryStep<S>(entries: seq<(string, Value<S>)>, i: nat, parentKey: string, sep: string,
                     items: seq<(string, Value<S>)>, done: seq<(string, Value<S>)>)
    requires i < |entries|
    requires DictOf(items) == DictOf(done)
    ensures DictOf(items + EntryItems(entries, i, parentKey, sep)) == DictOf(done + EntryLeaves(entries, i, parentKey, sep))
  {
    var here := EntryLeaves(entries, i, parentKey, sep);
    if entries[i].1.Dict? {
      DictOfExtendByDict(items, done, here);
    } else {
      DictOfExtend(items, done, here);
    }
  }

  // ---------------------------------------------------------------------
  // Facts about dict(items).

  /** Pairs that build the same dict still do after the same extension. */
  lemma DictOfExtend<V>(items: seq<(string, V)>, done: seq<(string, V)>, more: seq<(string, V)>)
    requires DictOf(items) == DictOf(done)
    ensures DictOf(items + more) == DictOf(done + more)
  {
    DictOfAbsorbsPrefix(items, more);
    DictOfAbsorbsPrefix(done, more);
  }

  /** Extending by the dict of some pairs is extending by the pairs. */
  lemma DictOfExtendByDict<V>(items: seq<(string, V)>, done: seq<(string, V)>, more: seq<(string, V)>)
    requires DictOf(items) == DictOf(done)
    ensures DictOf(items + DictOf(more)) == DictOf(done + more)
  {
    DictOfAbsorbsSuffix(items, more);
    DictOfExtend(items, done, more);
  }

  lemma {:induction false} LastValueAppend<V>(a: seq<(string, V)>, b: seq<(string, V)>, k: string)
    requires k in Keys(a) || k in Keys(b)
    ensures k in Keys(a + b)
    ensures LastValue(a + b, k) == if k in Keys(b) then LastValue(b, k) else LastValue(a, k)
  {
    assert Keys(a + b) == Keys(a) + Keys(b);
    if b != [] {
      var n := |b| - 1;
      var front := b[..n];
      assert (a + b)[..|a + b| - 1] == a + front;
      assert Keys(b) == Keys(front) + [b[n].0];
      if b[n].0 != k {
        LastValueAppend(a, front, k);
      }
    } else {
      assert a + b == a;
    }
  }

  /** In a dict (unique keys) a key's last value is its only value. */
  lemma {:induction false} LastValueOfUnique<V>(d: seq<(string, V)>, i: nat)
    requires NoDups(Keys(d)) && i < |d|
    ensures d[i].0 in Keys(d) && LastValue(d, d[i].0) == d[i].1
  {
    var n := |d| - 1;
    if i < n {
      assert Keys(d[..n]) == Keys(d)[..n];
      LastValueOfUnique(d[..n], i);
    }
  }

  lemma LastValueOfDictOf<V>(items: seq<(string, V)>, k: string)
    requires k in Keys(items)
    ensures k in Keys(DictOf(items)) && LastValue(DictOf(items), k) == LastValue(items, k)
  {
    var d := DictOf(items);
    var i := FirstIndex(Keys(d), k);
    LastValueOfUnique(d, i);
  }

  /** Two item lists with the same key order and the same last values build
      the same dict. */
  lemma DictOfExt<V>(x: seq<(string, V)>, y: seq<(string, V)>)
    requires Distinct(Keys(x)) == Distinct(Keys(y))
    requires forall k :: k in Keys(x) ==> k in Keys(y) && LastValue(x, k) == LastValue(y, k)
    ensures DictOf(x) == DictOf(y)
  {
    var dx, dy := DictOf(x), DictOf(y);
    assert |dx| == |dy|;
    forall i | 0 <= i < |dx| ensures dx[i] == dy[i] {
      assert Keys(dx)[i] == Keys(dy)[i];
    }
  }

  /** A list whose keys are already unique is its own dict. */
  lemma DictOfUnique<V>(d: seq<(string, V)>)
    requires NoDups(Keys(d))
    ensures DictOf(d) == d
  {
    DistinctOfNoDups(Keys(d));
    forall i | 0 <= i < |d| ensures DictOf(d)[i] == d[i] {
      assert Keys(DictOf(d))[i] == Keys(d)[i];
      LastValueOfUnique(d, i);
    }
  }

  /** `dict(dict(items)) == dict(items)`. */
  lemma DictOfIdempotent<V>(items: seq<(string, V)>)
    ensures DictOf(DictOf(items)) == DictOf(items)
  {
    DictOfUnique(DictOf(items));
  }

  /** A pair with no later pair of the same key gives its key's value. */
  lemma {:induction false} LastValueIsLastPair<V>(items: seq<(string, V)>, i: nat)
    requires i < |items|
    requires forall j :: i < j < |items| ==> items[j].0 != items[i].0
    ensures items[i].0 in Keys(items) && LastValue(items, items[i].0) == items[i].1
  {
    var n := |items| - 1;
    if i < n {
      assert Keys(items) == Keys(items[..n]) + [items[n].0];
      LastValueIsLastPair(items[..n], i);
    }
  }

  /** Building a dict of the later pairs first changes nothing: this is why
      flatten_dict may turn a nested dict into a dict before extending `items`. */
  lemma DictOfAbsorbsSuffix<V>(a: seq<(string, V)>, b: seq<(string, V)>)
    ensures DictOf(a + DictOf(b)) == DictOf(a + b)
  {
    var db := DictOf(b);
    assert Keys(a + db) == Keys(a) + Keys(db);
    assert Keys(a + b) == Keys(a) + Keys(b);
    DistinctAbsorbsSuffix(Keys(a), Keys(b));
    forall k | k in Keys(a + db) ensures k in Keys(a + b) && LastValue(a + db, k) == LastValue(a + b, k) {
      LastValueAbsorbsSuffix(a, b, k);
    }
    DictOfExt(a + db, a + b);
  }

  lemma LastValueAbsorbsSuffix<V>(a: seq<(string, V)>, b: seq<(string, V)>, k: string)
    requires k in Keys(a + DictOf(b))
    ensures k in Keys(a + b) && LastValue(a + DictOf(b), k) == LastValue(a + b, k)
  {
    var db := DictOf(b);
    assert Keys(a + db) == Keys(a) + Keys(db);
    assert Keys(a + b) == Keys(a) + Keys(b);
    LastValueAppend(a, db, k);
    LastValueAppend(a, b, k);
    if k in Keys(db) {
      LastValueOfDictOf(b, k);
    }
  }

  /** Extending a dict and extending the pairs it was built from agree. */
  lemma DictOfAbsorbsPrefix<V>(a: seq<(string, V)>, b: seq<(string, V)>)
    ensures DictOf(DictOf(a) + b) == DictOf(a + b)
  {
    var da := DictOf(a);
    assert Keys(da + b) == Keys(da) + Keys(b);
    assert Keys(a + b) == Keys(a) + Keys(b);
    DistinctAbsorbsPrefix(Keys(a), Keys(b));
    forall k | k in Keys(da + b) ensures k in Keys(a + b) && LastValue(da + b, k) == LastValue(a + b, k) {
      LastValueAbsorbsPrefix(a, b, k);
    }
    DictOfExt(da + b, a + b);
  }

  lemma LastValueAbsorbsPrefix<V>(a: seq<(string, V)>, b: seq<(string, V)>, k: string)
    requires k in Keys(DictOf(a) + b)
    ensures k in Keys(a + b) && LastValue(DictOf(a) + b, k) == LastValue(a + b, k)
  {
    var da := DictOf(a);
    assert Keys(da + b) == Keys(da) + Keys(b);
    assert Keys(a + b) == Keys(a) + Keys(b);
    LastValueAppend(da, b, k);
    LastValueAppend(a, b, k);
    if k !in Keys(b) {
      LastValueOfDictOf(a, k);
    }
  }

  // ---------------------------------------------------------------------
  // What flatten_dict promises.

  predicate AllScalars<S>(items: seq<(string, Value<S>)>) {
    forall i :: 0 <= i < |items| ==> items[i].1.Scalar?
  }

  /** Every leaf of the tree is a non-dict value. */
  lemma {:induction false} LeavesAreScalars<S>(entries: seq<(string, Value<S>)>, n: nat, parentKey: string, sep: string)
    requires n <= |entries|
    ensures AllScalars(LeavesUpTo(entries, n, parentKey, sep))
    decreases Dict(entries), n
  {
    if n > 0 {
      var done := LeavesUpTo(entries, n - 1, parentKey, sep);
      var last := EntryLeaves(entries, n - 1, parentKey, sep);
      LeavesAreScalars(entries, n - 1, parentKey, sep);
      assert entries[n - 1] in entries;
      if entries[n - 1].1.Dict? {
        var sub := entries[n - 1].1.entries;
        LeavesAreScalars(sub, |sub|, NewKey(parentKey, sep, entries[n - 1].0), sep);
      }
      assert AllScalars(last);
      assert LeavesUpTo(entries, n, parentKey, sep) == done + last;
    }
  }

  /** No value of the flattened dict is itself a dict. */
  lemma FlattenedHasNoDicts<S>(entries: seq<(string, Value<S>)>, parentKey: string, sep: string)
    ensures forall i :: 0 <= i < |Flattened(entries, parentKey, sep)| ==>
      !Flattened(entries, parentKey, sep)[i].1.Dict?
  {
    var leaves := Leaves(entries, parentKey, sep);
    LeavesAreScalars(entries, |entries|, parentKey, sep);
    assert AllScalars(leaves);
    forall i | 0 <= i < |Flattened(entries, parentKey, sep)|
      ensures !Flattened(entries, parentKey, sep)[i].1.Dict?
    {
      var k := Flattened(entries, parentKey, sep)[i].0;
      LastValueIsAValue(leaves, k);
    }
  }

  /** A key's last value is the value of one of its pairs. */
  lemma {:induction false} LastValueIsAValue<V>(items: seq<(string, V)>, k: string)
    requires k in Keys(items)
    ensures exists j :: 0 <= j < |items| && items[j].1 == LastValue(items, k)
  {
    var n := |items| - 1;
    if items[n].0 != k {
      assert Keys(items) == Keys(items[..n]) + [items[n].0];
      LastValueIsAValue(items[..n], k);
      var j :| 0 <= j < n && items[..n][j].1 == LastValue(items[..n], k);
      assert items[j].1 == LastValue(items, k);
    }
  }

  /** Leaves of consecutive entries come out in the entries' order. */
  lemma {:induction false} LeavesAppend<S>(a: seq<(string, Value<S>)>, b: seq<(string, Value<S>)>, parentKey: string, sep: string)
    ensures Leaves(a + b, parentKey, sep) == Leaves(a, parentKey, sep) + Leaves(b, parentKey, sep)
  {
    LeavesUpToAppend(a, b, |b|, parentKey, sep);
  }

  lemma {:induction false} LeavesUpToAppend<S>(a: seq<(string, Value<S>)>, b: seq<(string, Value<S>)>, n: nat, parentKey: string, sep: string)
    requires n <= |b|
    ensures LeavesUpTo(a + b, |a| + n, parentKey, sep) == Leaves(a, parentKey, sep) + LeavesUpTo(b, n, parentKey, sep)
  {
    if n == 0 {
      LeavesUpToPrefix(a, b, |a|, parentKey, sep);
    } else {
      var m := n - 1;
      LeavesUpToAppend(a, b, m, parentKey, sep);
      EntryLeavesOfEntry(a + b, |a| + m, b, m, parentKey, sep);
    }
  }

  /** The leaves of the first n entries do not depend on the entries after them. */
  lemma {:induction false} LeavesUpToPrefix<S>(a: seq<(string, Value<S>)>, b: seq<(string, Value<S>)>, n: nat, parentKey: string, sep: string)
    requires n <= |a|
    ensures LeavesUpTo(a + b, n, parentKey, sep) == LeavesUpTo(a, n, parentKey, sep)
  {
    if n > 0 {
      LeavesUpToPrefix(a, b, n - 1, parentKey, sep);
      EntryLeavesOfEntry(a + b, n - 1, a, n - 1, parentKey, sep);
    }
  }

  /** An entry's leaves depend on the entry alone. */
  lemma EntryLeavesOfEntry<S>(x: seq<(string, Value<S>)>, i: nat, y: seq<(string, Value<S>)>, j: nat, parentKey: string, sep: string)
    requires i < |x| && j < |y| && x[i] == y[j]
    ensures EntryLeaves(x, i, parentKey, sep) == EntryLeaves(y, j, parentKey, sep)
  {
  }

  /** With an empty parent key, a top-level non-dict entry keeps its key and
      value among the leaves, and its key is a key of the result. */
  lemma TopLevelLeafKeepsKey<S>(entries: seq<(string, Value<S>)>, i: nat, sep: string)
    requires i < |entries| && entries[i].1.Scalar?
    ensures entries[i] in Leaves(entries, "", sep)
    ensures entries[i].0 in Keys(Flattened(entries, "", sep))
  {
    LeafOfEntry(entries, i, |entries|, "", sep);
    var leaves := Leaves(entries, "", sep);
    assert EntryLeaves(entries, i, "", sep) == [entries[i]];
    assert entries[i] in leaves;
    var j :| 0 <= j < |leaves| && leaves[j] == entries[i];
    assert Keys(leaves)[j] == entries[i].0;
  }

  /** The leaves of an entry appear among the leaves of every longer prefix. */
  lemma {:induction false} LeafOfEntry<S>(entries: seq<(string, Value<S>)>, i: nat, n: nat, parentKey: string, sep: string)
    requires i < n <= |entries|
    ensures forall x :: x in EntryLeaves(entries, i, parentKey, sep) ==> x in LeavesUpTo(entries, n, parentKey, sep)
  {
    if i < n - 1 {
      LeafOfEntry(entries, i, n - 1, parentKey, sep);
    }
  }

  /** The key flatten_dict gives to the leaf reached through the keys `path`. */
  function PathKey(parentKey: string, path: seq<string>, sep: string): string
    decreases |path|
  {
    if path == [] then parentKey else PathKey(NewKey(parentKey, sep, path[0]), path[1..], sep)
  }

  /** The keys of `path` joined by `sep`. */
  function JoinKeys(path: seq<string>, sep: string): string
    requires path != []
  {
    if |path| == 1 then path[0] else path[0] + sep + JoinKeys(path[1..], sep)
  }

  /** A nested leaf's key is its path of keys joined by `sep`, after
      `parent_key + sep` when the parent key is not empty. (An empty first key
      under an empty parent key is passed over, as Python's `if parent_key`
      makes it.) */
  lemma {:induction false} PathKeyIsJoined(parentKey: string, path: seq<string>, sep: string)
    requires path != []
    requires parentKey != "" || path[0] != ""
    ensures PathKey(parentKey, path, sep) ==
      (if parentKey != "" then parentKey + sep else "") + JoinKeys(path, sep)
    decreases |path|
  {
    var nk := NewKey(parentKey, sep, path[0]);
    if |path| > 1 {
      assert nk != "";
      PathKeyIsJoined(nk, path[1..], sep);
      assert PathKey(parentKey, path, sep) == nk + sep + JoinKeys(path[1..], sep);
    }
  }

  /** `path` (entry indices) leads through dicts to a non-dict value. */
  predicate IsLeafPath<S>(entries: seq<(string, Value<S>)>, path: seq<nat>)
    decreases |path|
  {
    && path != []
    && path[0] < |entries|
    && if |path| == 1 then entries[path[0]].1.Scalar?
       else entries[path[0]].1.Dict? && IsLeafPath(entries[path[0]].1.entries, path[1..])
  }

  function KeysAlong<S>(entries: seq<(string, Value<S>)>, path: seq<nat>): (ks: seq<string>)
    requires IsLeafPath(entries, path)
    decreases |path|
  {
    [entries[path[0]].0] +
    if |path| == 1 then [] else KeysAlong(entries[path[0]].1.entries, path[1..])
  }

  function LeafAt<S>(entries: seq<(string, Value<S>)>, path: seq<nat>): Value<S>
    requires IsLeafPath(entries, path)
    decreases |path|
  {
    if |path| == 1 then entries[path[0]].1 else LeafAt(entries[path[0]].1.entries, path[1..])
  }

  /** Every leaf of the tree is among the leaves, under the key of its path. */
  lemma {:induction false} LeafPathInLeaves<S>(entries: seq<(string, Value<S>)>, path: seq<nat>, parentKey: string, sep: string)
    requires IsLeafPath(entries, path)
    ensures (PathKey(parentKey, KeysAlong(entries, path), sep), LeafAt(entries, path)) in Leaves(entries, parentKey, sep)
    decreases |path|
  {
    var i := path[0];
    var nk := NewKey(parentKey, sep, entries[i].0);
    LeafOfEntry(entries, i, |entries|, parentKey, sep);
    assert KeysAlong(entries, path)[0] == entries[i].0;
    if |path| > 1 {
      var sub := entries[i].1.entries;
      LeafPathInLeaves(sub, path[1..], nk, sep);
      assert KeysAlong(entries, path)[1..] == KeysAlong(sub, path[1..]);
    }
  }

  /** A dict without nested dicts and an empty parent key flattens to itself. */
  lemma FlatDictUnchanged<S>(entries: seq<(string, Value<S>)>, sep: string)
    requires NoDups(Keys(entries))
    requires forall i :: 0 <= i < |entries| ==> entries[i].1.Scalar?
    ensures Flattened(entries, "", sep) == entries
  {
    FlatLeaves(entries, |entries|, sep);
    assert entries[..|entries|] == entries;
    DictOfUnique(entries);
  }

  lemma {:induction false} FlatLeaves<S>(entries: seq<(string, Value<S>)>, n: nat, sep: string)
    requires n <= |entries|
    requires forall i :: 0 <= i < |entries| ==> entries[i].1.Scalar?
    ensures LeavesUpTo(entries, n, "", sep) == entries[..n]
  {
    if n > 0 {
      FlatLeaves(entries, n - 1, sep);
      assert entries[..n] == entries[..n - 1] + [entries[n - 1]];
    }
  }

  /** The result lists keys in the order in which their first leaf is met
      depth-first. */
  lemma FlattenedKeyOrder<S>(entries: seq<(string, Value<S>)>, parentKey: string, sep: string, i: nat, j: nat)
    requires i < j < |Flattened(entries, parentKey, sep)|
    ensures
      var ks := Keys(Leaves(entries, parentKey, sep));
      var f := Flattened(entries, parentKey, sep);
      f[i].0 in ks && f[j].0 in ks && FirstIndex(ks, f[i].0) < FirstIndex(ks, f[j].0)
  {
    var ks := Keys(Leaves(entries, parentKey, sep));
    var f := Flattened(entries, parentKey, sep);
    assert Keys(f) == Distinct(ks);
    assert Keys(f)[i] == f[i].0 && Keys(f)[j] == f[j].0;
    DistinctFirstSeenOrder(ks, i, j);
  }

  /** On a key collision the leaf met last depth-first wins: it is in the
      result. */
  lemma FlattenedLastWins<S>(entries: seq<(string, Value<S>)>, parentKey: string, sep: string, i: nat)
    requires var leaves := Leaves(entries, parentKey, sep);
      i < |leaves| && forall j :: i < j < |leaves| ==> leaves[j].0 != leaves[i].0
    ensures Leaves(entries, parentKey, sep)[i] in Flattened(entries, parentKey, sep)
  {
    var leaves := Leaves(entries, parentKey, sep);
    var f := Flattened(entries, parentKey, sep);
    LastValueIsLastPair(leaves, i);
    assert Keys(leaves)[i] == leaves[i].0;
    var t := FirstIndex(Keys(f), leaves[i].0);
    assert f[t] == leaves[i];
  }
}
