/**
 * `pd.Categorical(column).cat.codes` for the fixed categorical columns of
 * the heatmap step: each value becomes its position among the column's
 * distinct values in sorted order, and a missing value becomes -1.
 */
module Categorical {

  import Lex
  import opened Wrappers
  import opened Codec
  import opened Collections

  const CategoricalColumns: seq<string> :=
    ["Sex", "Stroke", "AgeCategory", "Diabetic", "Smoking", "HeartDisease"]

  /**
   * The order categories are sorted by: numbers by value, text by
   * code-point order, and numbers before text in a column that holds both.
   * `Null` is not a category.
   */
  predicate Before(a: Scalar, b: Scalar)
  {
    match (a, b)
    case (Int(x), Int(y)) => x < y
    case (Int(_), Text(_)) => true
    case (Text(x), Text(y)) => Lex.Less(x, y)
    case _ => false
  }

  lemma BeforeIrreflexive(a: Scalar)
    ensures !Before(a, a)
  {
    if a.Text? {
      Lex.LessIrreflexive(a.s);
    }
  }

  lemma BeforeTransitive(a: Scalar, b: Scalar, c: Scalar)
    requires Before(a, b) && Before(b, c)
    ensures Before(a, c)
  {
    if a.Text? {
      Lex.LessTransitive(a.s, b.s, c.s);
    }
  }

  lemma BeforeAsymmetric(a: Scalar, b: Scalar)
    requires Before(a, b)
    ensures !Before(b, a)
  {
    if a.Text? && b.Text? {
      Lex.LessAsymmetric(a.s, b.s);
    }
  }

  lemma BeforeTotal(a: Scalar, b: Scalar)
    requires a != Null && b != Null && a != b
    ensures Before(a, b) || Before(b, a)
  {
    if a.Text? && b.Text? {
      Lex.LessTotal(a.s, b.s);
    }
  }

  /** Strictly increasing: sorted and without repeats. */
  predicate Ascending(cats: seq<Scalar>)
  {
    forall i, j :: 0 <= i < j < |cats| ==> Before(cats[i], cats[j])
  }

  /** Adds `v` to a sorted category list unless it is already there. */
  function AddCategory(v: Scalar, cats: seq<Scalar>): (r: seq<Scalar>)
    requires v != Null && Null !in cats && Ascending(cats)
    ensures Ascending(r) && Null !in r
    ensures forall u :: u in r <==> u in cats || u == v
    decreases |cats|
  {
    if cats == [] then [v]
    else if v == cats[0] then cats
    else if Before(v, cats[0]) then
      AddFrontKeepsOrder(v, cats);
      [v] + cats
    else
      var tail := AddCategory(v, cats[1..]);
      BeforeTotal(v, cats[0]);
      FirstBelowAll(cats[0], tail, cats[1..], v);
      [cats[0]] + tail
  }

  lemma AddFrontKeepsOrder(v: Scalar, cats: seq<Scalar>)
    requires Ascending(cats) && cats != [] && Before(v, cats[0])
    ensures Ascending([v] + cats)
  {
    forall i, j | 0 <= i < j < |[v] + cats| ensures Before(([v] + cats)[i], ([v] + cats)[j]) {
      if i == 0 && j > 1 {
        BeforeTransitive(v, cats[0], cats[j - 1]);
      }
    }
  }

  lemma FirstBelowAll(h: Scalar, tail: seq<Scalar>, rest: seq<Scalar>, v: Scalar)
    requires Ascending([h] + rest) && Ascending(tail)
    requires forall u :: u in tail <==> u in rest || u == v
    requires Before(h, v)
    ensures Ascending([h] + tail)
  {
    forall j | 0 <= j < |tail| ensures Before(h, tail[j]) {
      assert tail[j] in tail;
      if tail[j] != v {
        var k :| 0 <= k < |rest| && rest[k] == tail[j];
        assert ([h] + rest)[0] == h && ([h] + rest)[k + 1] == rest[k];
      }
    }
    forall i, j | 0 <= i < j < |[h] + tail| ensures Before(([h] + tail)[i], ([h] + tail)[j]) {
      if i > 0 {
        assert ([h] + tail)[i] == tail[i - 1] && ([h] + tail)[j] == tail[j - 1];
      } else {
        assert ([h] + tail)[j] == tail[j - 1];
      }
    }
  }

  /** `Categorical(column).categories`: the distinct non-missing values, sorted. */
  function Categories(column: seq<Scalar>): (cats: seq<Scalar>)
    ensures Ascending(cats) && Null !in cats
    ensures forall u :: u in cats <==> u in column && u != Null
    decreases |column|
  {
    if column == [] then []
    else if column[0] == Null then Categories(column[1..])
    else AddCategory(column[0], Categories(column[1..]))
  }

  /** Where `v` stands in `cats`, or -1 when it is not there. */
  function Position(cats: seq<Scalar>, v: Scalar): (p: int)
    ensures p == -1 <==> v !in cats
    ensures 0 <= p ==> p < |cats| && cats[p] == v
    decreases |cats|
  {
    if cats == [] then -1
    else if cats[0] == v then 0
    else
      var p := Position(cats[1..], v);
      if p < 0 then -1 else p + 1
  }

  /** `Categorical(column).codes`: each cell's position among the categories. */
  function Codes(column: seq<Scalar>): (codes: seq<int>)
    ensures |codes| == |column|
    ensures forall i :: 0 <= i < |column| ==>
      (codes[i] == -1 <==> column[i] == Null) &&
      (column[i] != Null ==> 0 <= codes[i] < |Categories(column)| && Categories(column)[codes[i]] == column[i])
  {
    var cats := Categories(column);
    seq(|column|, i requires 0 <= i < |column| => Position(cats, column[i]))
  }

  /** The number of categories is the number of distinct non-missing values. */
  lemma CategoriesCount(column: seq<Scalar>)
    ensures |Categories(column)| == |set u | u in column && u != Null|
  {
    var cats := Categories(column);
    assert NoDup(cats) by {
      forall i, j | 0 <= i < j < |cats| ensures cats[i] != cats[j] {
        BeforeIrreflexive(cats[i]);
      }
    }
    NoDupCardinality(cats);
    assert Elements(cats) == set u | u in column && u != Null;
  }

  /**
   * Two cells share a code exactly when they hold the same value, and the
   * codes follow the order of the values.
   */
  lemma CodesFollowValueOrder(column: seq<Scalar>)
    ensures forall i, j :: 0 <= i < |column| && 0 <= j < |column| ==>
      (column[i] == column[j] <==> Codes(column)[i] == Codes(column)[j])
    ensures forall i, j :: 0 <= i < |column| && 0 <= j < |column| && Before(column[i], column[j]) ==>
      Codes(column)[i] < Codes(column)[j]
  {
    var codes := Codes(column);
    forall i, j | 0 <= i < |column| && 0 <= j < |column| && Before(column[i], column[j])
      ensures codes[i] < codes[j]
    {
      BeforeIrreflexive(column[i]);
      if codes[j] < codes[i] {
        BeforeAsymmetric(column[i], column[j]);
      }
    }
  }

  /** Every code from 0 to the number of categories less one is given to some cell. */
  lemma CodesCoverCategories(column: seq<Scalar>)
    ensures forall c :: 0 <= c < |Categories(column)| ==> c in Codes(column)
  {
    var cats, codes := Categories(column), Codes(column);
    forall c | 0 <= c < |cats| ensures c in codes {
      assert cats[c] in cats;
      var i :| 0 <= i < |column| && column[i] == cats[c];
      assert codes[i] == c by {
        BeforeIrreflexive(cats[c]);
      }
    }
  }

  /** The categories of the two-row column in the worked example: Female before Male. */
  lemma SexExample()
    ensures Codes([Text("Male"), Text("Female")]) == [1, 0]
  {
    var column := [Text("Male"), Text("Female")];
    CategoriesCount(column);
    CodesFollowValueOrder(column);
    assert Before(Text("Female"), Text("Male"));
    assert (set u | u in column && u != Null) == {Text("Male"), Text("Female")};
  }

  /** Column `name` of `pd.DataFrame(records)`: a record without the field holds a missing value. */
  function ColumnOf(records: seq<Record>, name: string): seq<Scalar>
  {
    seq(|records|, i requires 0 <= i < |records| => if name in records[i] then records[i][name] else Null)
  }

  /** `pd.DataFrame(records)` has column `name` when some record has that field. */
  predicate HasColumn(records: seq<Record>, name: string)
  {
    exists i :: 0 <= i < |records| && name in records[i]
  }

  /**
   * The categorical step over the fetched records: the codes of each
   * categorical column, or `None` when a column is absent from the frame
   * (`df_recent[col]` raises `KeyError`).  An empty fetch has no columns at all.
   */
  function CodedColumns(records: seq<Record>): (r: Option<seq<seq<int>>>)
    ensures r.Some? <==> forall c :: 0 <= c < |CategoricalColumns| ==> HasColumn(records, CategoricalColumns[c])
    ensures records == [] ==> r.None?
    ensures r.Some? ==> |r.value| == |CategoricalColumns|
    ensures r.Some? ==> forall c :: 0 <= c < |CategoricalColumns| ==>
      r.value[c] == Codes(ColumnOf(records, CategoricalColumns[c]))
  {
    assert records == [] ==> !HasColumn(records, CategoricalColumns[0]);
    if forall c :: 0 <= c < |CategoricalColumns| ==> HasColumn(records, CategoricalColumns[c])
    then Some(seq(|CategoricalColumns|, c requires 0 <= c < |CategoricalColumns| =>
                    Codes(ColumnOf(records, CategoricalColumns[c]))))
    else None
  }
}
