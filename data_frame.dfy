/**
 * The part of a pandas DataFrame that `discretize_column` and the `lang`
 * step of `prepare_data` (classification_utilities.py) touch: an ordered list
 * of column labels and, for each label, a column of cells, all of one length.
 * `discretize_column` mutates the caller's frame and returns nothing, so the
 * frame is a class whose methods update its fields in place.
 */
module Frames {
  import opened LabelEncoding

  /** A cell: a categorical value as text, or an integer (the codes). */
  datatype Cell = Text(text: string) | Int(n: int)

  /** The label under which `discretize_column` stores the codes of column `name`. */
  function DiscrName(name: string): (discr: string)
    ensures |discr| == |name| + 6 && discr[..|name|] == name && discr[|name|..] == "_discr"
  {
    name + "_discr"
  }

  /** The codes of `col` as integer cells, row for row. */
  function CodeCells<T(==)>(col: seq<T>): (cells: seq<Cell>)
    ensures |cells| == |col|
    ensures forall i :: 0 <= i < |col| ==> cells[i] == Int(Discretize(col)[i])
  {
    var codes := Discretize(col);
    seq(|col|, i requires 0 <= i < |col| => Int(codes[i]))
  }

  /** `labels` without `name`, the others kept in their order. */
  function Without(labels: seq<string>, name: string): (r: seq<string>)
    ensures forall c :: c in r <==> c in labels && c != name
    ensures Distinct(labels) ==> Distinct(r)
  {
    if labels == [] then []
    else
      var rest := Without(labels[1..], name);
      assert forall c :: c in labels[1..] ==> c in labels;
      assert Distinct(labels) ==> Distinct(labels[1..]) && labels[0] !in labels[1..];
      if labels[0] == name then rest else [labels[0]] + rest
  }

  /** Removing a label that is not there leaves the list as it was. */
  lemma {:induction false} WithoutAbsent(labels: seq<string>, name: string)
    requires name !in labels
    ensures Without(labels, name) == labels
  {
    if labels != [] {
      WithoutAbsent(labels[1..], name);
      assert labels == [labels[0]] + labels[1..];
    }
  }

  /** Removing the label at position `k` of a list without repetitions cuts out exactly that position. */
  lemma {:induction false} WithoutCutsOut(labels: seq<string>, name: string, k: nat)
    requires Distinct(labels) && k < |labels| && labels[k] == name
    ensures Without(labels, name) == labels[..k] + labels[k + 1..]
  {
    assert labels == [labels[0]] + labels[1..];
    if k == 0 {
      WithoutAbsent(labels[1..], name);
    } else {
      assert Distinct(labels[1..]);
      WithoutCutsOut(labels[1..], name, k - 1);
      assert labels[..k] + labels[k + 1..] == [labels[0]] + (labels[1..][..k - 1] + labels[1..][k..]);
    }
  }

  /** Setting one key and then removing another equals removing first and setting after. */
  lemma SetThenDrop<V>(m: map<string, V>, k: string, x: string, v: V)
    requires k != x
    ensures m[k := v] - {x} == (m - {x})[k := v]
  {
  }

  class DataFrame {
    /** Column labels, in the frame's column order. */
    var labels: seq<string>
    /** The cells of each column, by label. */
    var columns: map<string, seq<Cell>>
    /** Number of rows (the length of the index). */
    var rows: nat

    /** Labels are unique, name exactly the stored columns, and every column has one cell per row. */
    ghost predicate Valid()
      reads this
    {
      && Distinct(labels)
      && (forall c :: c in columns <==> c in labels)
      && (forall c :: c in columns ==> |columns[c]| == rows)
    }

    /** An empty frame over `rows` rows. */
    constructor (rows: nat)
      ensures Valid()
      ensures labels == [] && columns == map[] && this.rows == rows
    {
      labels := [];
      columns := map[];
      this.rows := rows;
    }

    /** `df[name]`: the column's cells, or KeyError when there is no such column. */
    method Column(name: string) returns (r: Result<seq<Cell>, string>)
      requires Valid()
      ensures r.Ok? <==> name in labels
      ensures r.Ok? ==> r.value == columns[name] && |r.value| == rows
      ensures r.KeyError? ==> r.key == name
    {
      if name in columns {
        r := Ok(columns[name]);
      } else {
        r := KeyError(name);
      }
    }

    /**
     * `df[name] = values`: replaces the column in place when the label exists,
     * otherwise appends a new column at the end.
     */
    method SetColumn(name: string, values: seq<Cell>)
      requires Valid()
      requires |values| == rows
      modifies this
      ensures Valid() && rows == old(rows)
      ensures columns == old(columns)[name := values]
      ensures labels == if name in old(labels) then old(labels) else old(labels) + [name]
    {
      if name !in labels {
        labels := labels + [name];
      }
      columns := columns[name := values];
    }

    /** `df.drop(columns=[name], inplace=True)`: KeyError when there is no such column. */
    method DropColumn(name: string) returns (r: Result<(), string>)
      requires Valid()
      modifies this
      ensures Valid() && rows == old(rows)
      ensures r.Ok? <==> name in old(labels)
      ensures r.KeyError? ==> r.key == name && labels == old(labels) && columns == old(columns)
      ensures r.Ok? ==> labels == Without(old(labels), name) && columns == old(columns) - {name}
      ensures r.Ok? ==> forall k :: 0 <= k < |old(labels)| && old(labels)[k] == name ==>
                          labels == old(labels)[..k] + old(labels)[k + 1..]
    {
      if name !in columns {
        return KeyError(name);
      }
      forall k | 0 <= k < |labels| && labels[k] == name
        ensures Without(labels, name) == labels[..k] + labels[k + 1..]
      {
        WithoutCutsOut(labels, name, k);
      }
      labels := Without(labels, name);
      columns := columns - {name};
      r := Ok(());
    }

    /**
     * `discretize_column(df, name)`: reads the column (KeyError when it is
     * missing, before anything is written), encodes it by first appearance and
     * stores the codes under `name + "_discr"`, adding that column or
     * overwriting it. Every other column, the source column included, is kept.
     */
    method DiscretizeColumn(name: string) returns (r: Result<(), string>)
      requires Valid()
      modifies this
      ensures Valid() && rows == old(rows)
      ensures r.Ok? <==> name in old(labels)
      ensures r.KeyError? ==> r.key == name && labels == old(labels) && columns == old(columns)
      ensures r.Ok? ==> columns == old(columns)[DiscrName(name) := CodeCells(old(columns)[name])]
      ensures r.Ok? ==> labels == if DiscrName(name) in old(labels) then old(labels) else old(labels) + [DiscrName(name)]
      ensures r.Ok? ==> columns[name] == old(columns)[name]
      ensures r.Ok? ==> forall c :: c in old(columns) && c != DiscrName(name) ==> columns[c] == old(columns)[c]
      ensures r.Ok? ==> forall i :: 0 <= i < rows ==> columns[DiscrName(name)][i] == Int(Discretize(columns[name])[i])
    {
      var column := Column(name);
      if column.KeyError? {
        return KeyError(name);
      }
      var values := column.value;
      var d := IndexTable(Unique(values));
      LookupNeverFails(values);
      var codes := Apply(values, d).value;
      assert codes == Discretize(values);
      SetColumn(DiscrName(name), seq(|codes|, i requires 0 <= i < |codes| => Int(codes[i])));
      r := Ok(());
    }

    /**
     * Lines 63 and 66 of `prepare_data`: discretize the `lang` column, then
     * drop it: `lang` is gone and its codes are in `lang_discr`.
     */
    method EncodeLanguage() returns (r: Result<(), string>)
      requires Valid()
      modifies this
      ensures Valid() && rows == old(rows)
      ensures r.Ok? <==> "lang" in old(labels)
      ensures r.KeyError? ==> r.key == "lang" && labels == old(labels) && columns == old(columns)
      ensures r.Ok? ==> columns == (old(columns) - {"lang"})["lang_discr" := CodeCells(old(columns)["lang"])]
      ensures r.Ok? ==> labels == Without(if "lang_discr" in old(labels) then old(labels) else old(labels) + ["lang_discr"], "lang")
    {
      var lang := "lang";
      ghost var discr := DiscrName(lang);
      assert discr == "lang_discr";
      ghost var columns0 := columns;
      r := DiscretizeColumn(lang);
      if r.KeyError? {
        return;
      }
      ghost var codes := CodeCells(columns0[lang]);
      r := DropColumn(lang);
      assert r.Ok?;
      SetThenDrop(columns0, discr, lang, codes);
    }
  }
}
