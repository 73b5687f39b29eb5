/**
 * Next-question selection, `get_next_symptom`: the first unasked catalog
 * symptom that still takes more than one value among the candidates' rows.
 */
module Selection {
  import opened Options
  import opened Catalog
  import opened DiseaseTable

  /**
   * The distinct values column `s` takes over all
   * rows of the candidate diseases (a row that does not define it contributes `None`).
   */
  function ValuesAmong(t: Table, cands: seq<string>, s: string): set<Option<string>>
  {
    set i | 0 <= i < |t| && t[i].disease in cands :: Cell(t[i], s)
  }

  /** Column `s` takes more than one distinct value among the candidates' rows. */
  predicate Informative(t: Table, cands: seq<string>, s: string) {
    |ValuesAmong(t, cands, s)| > 1
  }

  /** A set has more than one element exactly when it holds two different ones. */
  lemma MoreThanOne<T>(vs: set<T>)
    ensures |vs| > 1 <==> exists v, w :: v in vs && w in vs && v != w
  {
    if |vs| > 1 {
      var v :| v in vs;
      assert |vs - {v}| == |vs| - 1;
      var w :| w in vs - {v};
    }
    if exists v, w :: v in vs && w in vs && v != w {
      var v, w :| v in vs && w in vs && v != w;
      assert w in vs - {v};
      assert |vs - {v}| == |vs| - 1;
    }
  }

  /** A symptom is informative exactly when two rows of candidate diseases disagree on it. */
  lemma InformativeIff(t: Table, cands: seq<string>, s: string)
    ensures Informative(t, cands, s) <==>
              exists i, j :: 0 <= i < |t| && 0 <= j < |t| && t[i].disease in cands && t[j].disease in cands
                             && Cell(t[i], s) != Cell(t[j], s)
  {
    var vs := ValuesAmong(t, cands, s);
    MoreThanOne(vs);
    if Informative(t, cands, s) {
      var v, w :| v in vs && w in vs && v != w;
      var i :| 0 <= i < |t| && t[i].disease in cands && Cell(t[i], s) == v;
      var j :| 0 <= j < |t| && t[j].disease in cands && Cell(t[j], s) == w;
    }
    if exists i, j :: 0 <= i < |t| && 0 <= j < |t| && t[i].disease in cands && t[j].disease in cands
                      && Cell(t[i], s) != Cell(t[j], s) {
      var i, j :| 0 <= i < |t| && 0 <= j < |t| && t[i].disease in cands && t[j].disease in cands
                  && Cell(t[i], s) != Cell(t[j], s);
      assert Cell(t[i], s) in vs && Cell(t[j], s) in vs;
    }
  }

  /** A symptom the selector must pass over: already asked, or the same for every candidate row. */
  predicate Skipped(t: Table, cands: seq<string>, asked: seq<string>, s: string) {
    s in asked || !Informative(t, cands, s)
  }

  /**
   * The `for symptom in symptom_columns` loop over the columns `cols`: the
   * first one that is neither asked nor constant, or `None`.
   */
  function FirstInformative(t: Table, cands: seq<string>, asked: seq<string>, cols: seq<string>): (r: Option<string>)
    ensures r.None? <==> forall k :: 0 <= k < |cols| ==> Skipped(t, cands, asked, cols[k])
    ensures r.Some? ==> exists i :: 0 <= i < |cols| && cols[i] == r.value && !Skipped(t, cands, asked, cols[i])
                          && forall k :: 0 <= k < i ==> Skipped(t, cands, asked, cols[k])
  {
    if cols == [] then None
    else if cols[0] !in asked && Informative(t, cands, cols[0]) then Some(cols[0])
    else
      var r := FirstInformative(t, cands, asked, cols[1..]);
      assert forall k :: 1 <= k < |cols| ==> cols[k] == cols[1..][k - 1];
      if r.Some? then
        var i :| 0 <= i < |cols[1..]| && cols[1..][i] == r.value && !Skipped(t, cands, asked, cols[1..][i])
                 && forall k :: 0 <= k < i ==> Skipped(t, cands, asked, cols[1..][k]);
        assert cols[i + 1] == r.value;
        r
      else r
  }

  /**
   * `get_next_symptom(possible_diseases, asked_symptoms)`. No candidates
   * means no question; otherwise the answer is a catalog symptom not yet
   * asked and informative, every catalog symptom before it is asked or
   * constant, and there is no answer only when every catalog symptom is.
   */
  function NextQuestion(t: Table, cands: seq<string>, asked: seq<string>): (r: Option<string>)
    ensures cands == [] ==> r == None
    ensures r.None? <==> cands == [] || forall k :: 0 <= k < |SymptomColumns| ==> Skipped(t, cands, asked, SymptomColumns[k])
    ensures r.Some? ==> r.value in SymptomColumns && r.value !in asked && Informative(t, cands, r.value)
    ensures r.Some? ==> exists i :: 0 <= i < |SymptomColumns| && SymptomColumns[i] == r.value
                          && forall k :: 0 <= k < i ==> Skipped(t, cands, asked, SymptomColumns[k])
  {
    if cands == [] then None else FirstInformative(t, cands, asked, SymptomColumns)
  }

  /** Once every catalog symptom has been asked there is no next question. */
  lemma AllAskedNoQuestion(t: Table, cands: seq<string>, asked: seq<string>)
    requires forall c :: c in SymptomColumns ==> c in asked
    ensures NextQuestion(t, cands, asked) == None
  {
  }

  /** Without candidates no symptom is informative. */
  lemma NoCandidatesNothingInformative(t: Table, s: string)
    ensures !Informative(t, [], s)
  {
    assert ValuesAmong(t, [], s) == {};
  }
}
