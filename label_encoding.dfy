/**
 * First-occurrence label encoding of one column, as `discretize_column`
 * (classification_utilities.py) does it: collect the distinct values of the
 * column in order of first appearance, number them 0, 1, 2, ..., and replace
 * every row's value by its number.
 *
 * A column is a `seq<T>`; `T` only needs equality, as a dictionary key does.
 */
module LabelEncoding {

  /** The outcome of an access that Python answers with a value or a KeyError naming the missing key. */
  datatype Result<+R, +K> = Ok(value: R) | KeyError(key: K)

  /** No value occurs twice in `s`. */
  predicate Distinct<T(==)>(s: seq<T>) {
    forall i, j :: 0 <= i < j < |s| ==> s[i] != s[j]
  }

  /** The set of values occurring in `s`. */
  function Elems<T(==)>(s: seq<T>): set<T> {
    set x | x in s
  }

  /**
   * `Series.unique()`: the distinct values of `s`, each once, in the order in
   * which they first appear.
   */
  function Unique<T(==)>(s: seq<T>): (u: seq<T>)
    ensures Distinct(u)
    ensures forall i :: 0 <= i < |s| ==> s[i] in u
    ensures forall k :: 0 <= k < |u| ==> u[k] in s
    ensures |u| <= |s|
  {
    if s == [] then []
    else
      var init, last := s[..|s| - 1], s[|s| - 1];
      assert s == init + [last];
      var u' := Unique(init);
      if last in u' then u' else u' + [last]
  }

  /**
   * `dict((el, i) for i, el in enumerate(u))`: every value of `u` mapped to a
   * position at which it stands; as with `dict`, a later pair overwrites an
   * earlier one with the same key, so on distinct values the position is the
   * value's only one.
   */
  function IndexTable<T(==)>(u: seq<T>): (d: map<T, nat>)
    ensures forall k :: 0 <= k < |u| ==> u[k] in d
    ensures forall x :: x in d ==> d[x] < |u| && u[d[x]] == x
    ensures Distinct(u) ==> forall k :: 0 <= k < |u| ==> d[u[k]] == k
  {
    if u == [] then map[]
    else
      var init, last := u[..|u| - 1], u[|u| - 1];
      assert u == init + [last];
      IndexTable(init)[last := |u| - 1]
  }

  /**
   * `col.apply(lambda x: d[x])`: each row's value looked up in `d`, row by
   * row; the first row whose value is not a key of `d` raises KeyError.
   */
  function Apply<K(==), V>(col: seq<K>, d: map<K, V>): (r: Result<seq<V>, K>)
    ensures r.Ok? <==> forall i :: 0 <= i < |col| ==> col[i] in d
    ensures r.Ok? ==> |r.value| == |col| && forall i :: 0 <= i < |col| ==> r.value[i] == d[col[i]]
    ensures r.KeyError? ==>
              exists i :: 0 <= i < |col| && col[i] == r.key && r.key !in d
                          && forall j :: 0 <= j < i ==> col[j] in d
  {
    if col == [] then Ok([])
    else if col[0] !in d then KeyError(col[0])
    else
      match Apply(col[1..], d)
      case Ok(rest) => Ok([d[col[0]]] + rest)
      case KeyError(k) =>
        assert forall i :: 1 <= i < |col| ==> col[i] == col[1..][i - 1];
        KeyError(k)
  }

  /** The lookup `d[x]` never fails: every row's value is a key of the table built from the column. */
  lemma LookupNeverFails<T>(col: seq<T>)
    ensures forall i :: 0 <= i < |col| ==> col[i] in IndexTable(Unique(col))
  {
    var d := IndexTable(Unique(col));
    forall i | 0 <= i < |col| ensures col[i] in d {
      assert col[i] in col;
    }
  }

  /**
   * The whole pipeline of `discretize_column` on one column, as written:
   * unique, number, look up. It never raises, gives one code per row, and the
   * distinct value at a row's code is the row's own value.
   */
  function Codes<T(==)>(col: seq<T>): (r: Result<seq<nat>, T>)
    ensures r.Ok? && |r.value| == |col|
    ensures forall i :: 0 <= i < |col| ==> r.value[i] < |Unique(col)| && Unique(col)[r.value[i]] == col[i]
  {
    LookupNeverFails(col);
    Apply(col, IndexTable(Unique(col)))
  }

  /**
   * The code column that `discretize_column` writes: one code per row, each
   * below the number of distinct values, and the value it stands for is the
   * row's own value.
   */
  function Discretize<T(==)>(col: seq<T>): (codes: seq<nat>)
    ensures |codes| == |col|
    ensures forall i :: 0 <= i < |col| ==> codes[i] < |Unique(col)| && Unique(col)[codes[i]] == col[i]
  {
    Codes(col).value
  }

  /** Index of the first occurrence of `x` in `s`. */
  function FirstIndex<T(==)>(s: seq<T>, x: T): (i: nat)
    requires x in s
    ensures i < |s| && s[i] == x
    ensures x !in s[..i]
  {
    if s[0] == x then 0
    else
      var j := FirstIndex(s[1..], x);
      assert s[..j + 1] == [s[0]] + s[1..][..j];
      j + 1
  }

  /** `Unique` of a prefix is a prefix of `Unique`: later rows never reorder earlier values. */
  lemma {:induction false} UniquePrefix<T>(s: seq<T>, n: nat)
    requires n <= |s|
    ensures Unique(s[..n]) <= Unique(s)
  {
    if n < |s| {
      var init := s[..|s| - 1];
      assert init[..n] == s[..n];
      UniquePrefix(init, n);
      assert Unique(init) <= Unique(s);
    } else {
      assert s[..n] == s;
    }
  }

  /** At its first occurrence a value is appended to `Unique` of the rows before it. */
  lemma UniqueAtFirstOccurrence<T>(s: seq<T>, f: nat)
    requires f < |s| && s[f] !in s[..f]
    ensures Unique(s[..f + 1]) == Unique(s[..f]) + [s[f]]
  {
    assert s[..f + 1][..f] == s[..f];
  }

  /** The value first seen at row `f` stands in `Unique` right after the distinct values seen before it. */
  lemma PlaceInUnique<T>(s: seq<T>, f: nat)
    requires f < |s| && s[f] !in s[..f]
    ensures |Unique(s[..f])| < |Unique(s)| && Unique(s)[|Unique(s[..f])|] == s[f]
  {
    var before, u := Unique(s[..f]), Unique(s);
    UniqueAtFirstOccurrence(s, f);
    UniquePrefix(s, f + 1);
    assert u[..|before| + 1] == before + [s[f]];
  }

  /** In a sequence without repetitions, equal elements stand at equal positions. */
  lemma DistinctPositions<T>(u: seq<T>, a: nat, b: nat)
    requires Distinct(u) && a < |u| && b < |u| && u[a] == u[b]
    ensures a == b
  {
  }

  /**
   * A value's code is the number of distinct values that occur before its
   * first occurrence.
   */
  lemma {:induction false} CodeIsFirstAppearanceRank<T>(col: seq<T>, i: nat)
    requires i < |col|
    ensures Discretize(col)[i] == |Unique(col[..FirstIndex(col, col[i])])|
  {
    var f := FirstIndex(col, col[i]);
    PlaceInUnique(col, f);
    DistinctPositions(Unique(col), Discretize(col)[i], |Unique(col[..f])|);
  }

  /** The first row gets code 0. */
  lemma {:induction false} FirstRowGetsZero<T>(col: seq<T>)
    requires |col| > 0
    ensures Discretize(col)[0] == 0
  {
    CodeIsFirstAppearanceRank(col, 0);
    assert FirstIndex(col, col[0]) == 0;
  }

  /** A value first seen at `a` has fewer distinct values before it than any later prefix end `b`. */
  lemma RankGrows<T>(s: seq<T>, a: nat, b: nat)
    requires a < b <= |s| && s[a] !in s[..a]
    ensures |Unique(s[..a])| < |Unique(s[..b])|
  {
    UniqueAtFirstOccurrence(s, a);
    assert s[..b][..a + 1] == s[..a + 1];
    UniquePrefix(s[..b], a + 1);
  }

  /** Codes follow the order of first appearance, in both directions. */
  lemma {:induction false} CodesFollowFirstAppearance<T>(col: seq<T>, i: nat, j: nat)
    requires i < |col| && j < |col|
    ensures FirstIndex(col, col[i]) < FirstIndex(col, col[j]) <==> Discretize(col)[i] < Discretize(col)[j]
  {
    var fi, fj := FirstIndex(col, col[i]), FirstIndex(col, col[j]);
    CodeIsFirstAppearanceRank(col, i);
    CodeIsFirstAppearanceRank(col, j);
    if fi < fj {
      RankGrows(col, fi, fj);
    } else if fj < fi {
      RankGrows(col, fj, fi);
    }
  }

  /** Two rows get the same code exactly when they hold the same value. */
  lemma SameCodeIffSameValue<T>(col: seq<T>, i: nat, j: nat)
    requires i < |col| && j < |col|
    ensures Discretize(col)[i] == Discretize(col)[j] <==> col[i] == col[j]
  {
    var u, c := Unique(col), Discretize(col);
    assert u[c[i]] == col[i] && u[c[j]] == col[j];
  }

  /** The codes are dense: every number below the count of distinct values is some row's code. */
  lemma {:induction false} CodesAreDense<T>(col: seq<T>, k: nat)
    requires k < |Unique(col)|
    ensures exists i :: 0 <= i < |col| && Discretize(col)[i] == k
  {
    var u := Unique(col);
    assert u[k] in u;
    var i := FirstIndex(col, u[k]);
    assert u[Discretize(col)[i]] == u[k];
  }

  /** A sequence without repetitions has as many distinct values as elements. */
  lemma {:induction false} DistinctCardinality<T>(s: seq<T>)
    requires Distinct(s)
    ensures |Elems(s)| == |s|
  {
    if s != [] {
      var init := s[..|s| - 1];
      assert s == init + [s[|s| - 1]];
      assert Elems(s) == Elems(init) + {s[|s| - 1]};
      DistinctCardinality(init);
    }
  }

  /** The range of codes, [0, |Unique(col)|), has one code per distinct value of the column. */
  lemma {:induction false} CodeCountIsDistinctCount<T>(col: seq<T>)
    ensures |Unique(col)| == |Elems(col)|
  {
    DistinctCardinality(Unique(col));
    assert Elems(Unique(col)) == Elems(col);
  }

  /**
   * The same rank counted on sets: a value's code is the number of distinct
   * values among the rows before its first occurrence.
   */
  lemma {:induction false} CodeCountsEarlierValues<T>(col: seq<T>, i: nat)
    requires i < |col|
    ensures Discretize(col)[i] == |Elems(col[..FirstIndex(col, col[i])])|
  {
    CodeIsFirstAppearanceRank(col, i);
    CodeCountIsDistinctCount(col[..FirstIndex(col, col[i])]);
  }
}
