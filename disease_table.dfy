/**
 * The disease profile table: the CSV the questionnaire loads at start-up,
 * one row per patient profile, several rows per disease.
 */
module DiseaseTable {
  import opened Options
  import opened Seqs

  /**
   * One table row: its `Disease` cell, and the partial map from every other
   * column name to that row's value in it (a column the row does not define
   * is absent).
   */
  datatype Row = Row(disease: string, values: map<string, string>)

  type Table = seq<Row>

  /** The column that names the disease; it is part of every row's index. */
  const DiseaseColumn: string := "Disease"

  /** The row's value in `column`, if the row defines that column. */
  function Cell(row: Row, column: string): (r: Option<string>)
    ensures column == DiseaseColumn ==> r == Some(row.disease)
    ensures column != DiseaseColumn ==> (r.Some? <==> column in row.values)
    ensures column != DiseaseColumn && r.Some? ==> r.value == row.values[column]
  {
    if column == DiseaseColumn then Some(row.disease)
    else if column in row.values then Some(row.values[column])
    else None
  }

  /** Some row of the table is a profile of disease `d`. */
  predicate Mentions(t: Table, d: string) {
    exists i :: 0 <= i < |t| && t[i].disease == d
  }

  /** Every disease in `ds` has a row in the table. */
  predicate AllKnown(t: Table, ds: seq<string>) {
    forall d :: d in ds ==> Mentions(t, d)
  }

  /** The distinct diseases of the table as a list, in order of first appearance. */
  function Diseases(t: Table): (ds: seq<string>)
    ensures NoDup(ds)
    ensures forall d :: d in ds <==> Mentions(t, d)
  {
    if t == [] then []
    else
      var init := t[..|t| - 1];
      var prior := Diseases(init);
      var d := t[|t| - 1].disease;
      assert forall e :: Mentions(t, e) <==> Mentions(init, e) || e == d by {
        forall e ensures Mentions(t, e) <==> Mentions(init, e) || e == d {
          if Mentions(init, e) {
            var i :| 0 <= i < |init| && init[i].disease == e;
            assert t[i].disease == e;
          }
        }
      }
      if d in prior then prior else prior + [d]
  }

  /** The index of the first row of disease `d`, the row elimination takes as the disease's profile. */
  function FirstIndex(t: Table, d: string): (i: nat)
    requires Mentions(t, d)
    ensures i < |t| && t[i].disease == d
    ensures forall k :: 0 <= k < i ==> t[k].disease != d
  {
    if t[0].disease == d then 0
    else
      assert Mentions(t[1..], d) by {
        var j :| 0 <= j < |t| && t[j].disease == d;
        assert t[1..][j - 1].disease == d;
      }
      1 + FirstIndex(t[1..], d)
  }

  /** The profile elimination compares against: the first row of the disease. */
  function Profile(t: Table, d: string): (row: Row)
    requires Mentions(t, d)
    ensures row in t && row.disease == d
    ensures exists i :: 0 <= i < |t| && t[i] == row && forall k :: 0 <= k < i ==> t[k].disease != d
  {
    t[FirstIndex(t, d)]
  }

  /** The first row of a disease is determined by its two defining properties. */
  lemma FirstIndexUnique(t: Table, d: string, i: nat)
    requires i < |t| && t[i].disease == d
    requires forall k :: 0 <= k < i ==> t[k].disease != d
    ensures FirstIndex(t, d) == i
  {
    var f := FirstIndex(t, d);
    assert !(f < i) && !(i < f);
  }

  /** Appending rows does not move the first row of a disease already present. */
  lemma FirstIndexAppend(t: Table, row: Row, d: string)
    requires Mentions(t, d)
    ensures Mentions(t + [row], d)
    ensures FirstIndex(t + [row], d) == FirstIndex(t, d)
  {
    var i := FirstIndex(t, d);
    assert (t + [row])[i] == t[i];
    FirstIndexUnique(t + [row], d, i);
  }

  /**
   * `unique()` lists the diseases in the order of their first rows: a disease
   * listed earlier has its first row earlier in the table.
   */
  lemma {:induction false} DiseasesInFirstAppearanceOrder(t: Table)
    ensures forall i, j :: 0 <= i < j < |Diseases(t)| ==>
              FirstIndex(t, Diseases(t)[i]) < FirstIndex(t, Diseases(t)[j])
  {
    if t != [] {
      var init := t[..|t| - 1];
      var row := t[|t| - 1];
      assert t == init + [row];
      DiseasesInFirstAppearanceOrder(init);
      var prior := Diseases(init);
      var ds := Diseases(t);
      forall k | 0 <= k < |prior|
        ensures FirstIndex(t, prior[k]) == FirstIndex(init, prior[k]) < |init|
      {
        FirstIndexAppend(init, row, prior[k]);
      }
      if row.disease !in prior {
        assert ds == prior + [row.disease];
        assert !Mentions(init, row.disease);
        FirstIndexUnique(t, row.disease, |init|);
        forall i, j | 0 <= i < j < |ds|
          ensures FirstIndex(t, ds[i]) < FirstIndex(t, ds[j])
        {
          if j < |prior| {
            assert ds[i] == prior[i] && ds[j] == prior[j];
          } else {
            assert ds[i] == prior[i] && ds[j] == row.disease;
          }
        }
      }
    }
  }
}
