/**
 * Candidate elimination: the nested loop in `ask_question` that drops every
 * candidate disease whose first table row contradicts a recorded answer.
 */
module Elimination {
  import opened Options
  import opened Seqs
  import opened DiseaseTable
  import opened Observations

  /** A row agrees with an item when it does not define the column or holds the same value there. */
  predicate Agrees(row: Row, e: Entry) {
    match Cell(row, e.symptom)
    case None => true
    case Some(value) => value == e.answer
  }

  /** A row agrees with every recorded item. */
  predicate Consistent(row: Row, o: Observations) {
    forall i :: 0 <= i < |o| ==> Agrees(row, o[i])
  }

  /** The candidates whose first row is consistent with the answers, in their order. */
  function Survivors(t: Table, cands: seq<string>, o: Observations): seq<string>
    requires AllKnown(t, cands)
  {
    if cands == [] then []
    else
      (if Consistent(Profile(t, cands[0]), o) then [cands[0]] else [])
      + Survivors(t, cands[1..], o)
  }

  /** The comprehension `[d for d in cands if d not in removed]`. */
  function Keep(cands: seq<string>, removed: set<string>): seq<string>
  {
    if cands == [] then []
    else (if cands[0] in removed then [] else [cands[0]]) + Keep(cands[1..], removed)
  }

  /**
   * The elimination loop: collect every candidate whose first row
   * contradicts some recorded item (stopping at the first one), then keep
   * the candidates not collected.
   */
  method Eliminate(t: Table, cands: seq<string>, o: Observations) returns (survivors: seq<string>)
    requires AllKnown(t, cands)
    ensures survivors == Survivors(t, cands, o)
  {
    var removed: set<string> := {};
    for i := 0 to |cands|
      invariant forall d :: d in removed <==>
                  exists k :: 0 <= k < i && cands[k] == d && !Consistent(Profile(t, d), o)
    {
      var disease := cands[i];
      var profile := Profile(t, disease);
      ghost var before := removed;
      for j := 0 to |o|
        invariant removed == before
        invariant forall k :: 0 <= k < j ==> Agrees(profile, o[k])
      {
        var value := Cell(profile, o[j].symptom);
        if value.Some? && value.value != o[j].answer {
          removed := removed + {disease};
          break;
        }
      }
    }
    KeepSurvivors(t, cands, o, removed);
    survivors := Keep(cands, removed);
  }

  /** Keeping the candidates outside the collected set is filtering by consistency. */
  lemma {:induction false} KeepSurvivors(t: Table, cands: seq<string>, o: Observations, removed: set<string>)
    requires AllKnown(t, cands)
    requires forall d :: d in removed <==>
               exists k :: 0 <= k < |cands| && cands[k] == d && !Consistent(Profile(t, d), o)
    ensures Keep(cands, removed) == Survivors(t, cands, o)
  {
    KeepSurvivorsOf(t, cands, cands, o, removed);
  }

  lemma {:induction false} KeepSurvivorsOf(t: Table, all: seq<string>, cands: seq<string>, o: Observations, removed: set<string>)
    requires AllKnown(t, all)
    requires forall d :: d in cands ==> d in all
    requires forall d :: d in removed <==>
               exists k :: 0 <= k < |all| && all[k] == d && !Consistent(Profile(t, d), o)
    ensures Keep(cands, removed) == Survivors(t, cands, o)
  {
    if cands != [] {
      var d := cands[0];
      assert d in all;
      var k :| 0 <= k < |all| && all[k] == d;
      assert d in removed <==> !Consistent(Profile(t, d), o);
      KeepSurvivorsOf(t, all, cands[1..], o, removed);
    }
  }

  /** A candidate survives exactly when it was a candidate and its first row agrees with every answer. */
  lemma {:induction false} SurvivorsMembership(t: Table, cands: seq<string>, o: Observations)
    requires AllKnown(t, cands)
    ensures forall d :: d in Survivors(t, cands, o) <==> d in cands && Consistent(Profile(t, d), o)
  {
    if cands != [] {
      SurvivorsMembership(t, cands[1..], o);
      assert forall d :: d in cands <==> d == cands[0] || d in cands[1..];
    }
  }

  /** Elimination keeps the surviving candidates in their original relative order, so the list never grows. */
  lemma {:induction false} SurvivorsSubsequence(t: Table, cands: seq<string>, o: Observations)
    requires AllKnown(t, cands)
    ensures IsSubsequence(Survivors(t, cands, o), cands)
  {
    if cands != [] {
      SurvivorsSubsequence(t, cands[1..], o);
      var s := Survivors(t, cands, o);
      if Consistent(Profile(t, cands[0]), o) {
        assert s[0] == cands[0] && s[1..] == Survivors(t, cands[1..], o);
      } else {
        assert s == Survivors(t, cands[1..], o);
      }
    }
  }

  /** Filtering the survivors again with the same answers changes nothing. */
  lemma {:induction false} SurvivorsIdempotent(t: Table, cands: seq<string>, o: Observations)
    requires AllKnown(t, cands)
    ensures AllKnown(t, Survivors(t, cands, o))
    ensures Survivors(t, Survivors(t, cands, o), o) == Survivors(t, cands, o)
  {
    SurvivorsMembership(t, cands, o);
    if cands != [] {
      SurvivorsIdempotent(t, cands[1..], o);
      var s := Survivors(t, cands, o);
      if Consistent(Profile(t, cands[0]), o) {
        assert s[0] == cands[0] && s[1..] == Survivors(t, cands[1..], o);
      } else {
        assert s == Survivors(t, cands[1..], o);
      }
    }
  }

  /** A row consistent with more answers is consistent with fewer. */
  lemma ConsistentWithFewer(row: Row, fewer: Observations, more: Observations)
    requires forall e :: e in fewer ==> e in more
    requires Consistent(row, more)
    ensures Consistent(row, fewer)
  {
    forall i | 0 <= i < |fewer| ensures Agrees(row, fewer[i]) {
      assert fewer[i] in more;
    }
  }

  /**
   * More answers never let more candidates through: with a superset of the
   * recorded items the survivors are a subsequence of those for the subset.
   */
  lemma {:induction false} SurvivorsMonotone(t: Table, cands: seq<string>, fewer: Observations, more: Observations)
    requires AllKnown(t, cands)
    requires forall e :: e in fewer ==> e in more
    ensures IsSubsequence(Survivors(t, cands, more), Survivors(t, cands, fewer))
  {
    if cands != [] {
      SurvivorsMonotone(t, cands[1..], fewer, more);
      var row := Profile(t, cands[0]);
      var sMore, sFewer := Survivors(t, cands, more), Survivors(t, cands, fewer);
      var rMore, rFewer := Survivors(t, cands[1..], more), Survivors(t, cands[1..], fewer);
      if Consistent(row, more) {
        ConsistentWithFewer(row, fewer, more);
        assert sMore[0] == sFewer[0] && sMore[1..] == rMore && sFewer[1..] == rFewer;
      } else if Consistent(row, fewer) {
        assert sMore == rMore && sFewer[1..] == rFewer;
      } else {
        assert sMore == rMore && sFewer == rFewer;
      }
    }
  }

  /** Overwriting a column the row does not define leaves its consistency as it was. */
  lemma {:induction false} ConsistentPutUndefined(row: Row, o: Observations, symptom: string, answer: string)
    requires Cell(row, symptom) == None
    ensures Consistent(row, Put(o, symptom, answer)) <==> Consistent(row, o)
  {
    if o != [] {
      var r := Put(o, symptom, answer);
      assert r[0].symptom == symptom || r[0] == o[0];
      assert Consistent(row, o) <==> Agrees(row, o[0]) && Consistent(row, o[1..]);
      assert Consistent(row, r) <==> Agrees(row, r[0]) && Consistent(row, r[1..]);
      if o[0].symptom != symptom {
        ConsistentPutUndefined(row, o[1..], symptom, answer);
        assert r[1..] == Put(o[1..], symptom, answer);
      } else {
        assert r[1..] == o[1..];
      }
    }
  }

  /**
   * A column the first row does not define never excludes the disease: after
   * `o[symptom] = answer` it survives exactly when it survived before, whatever the answer.
   */
  lemma UndefinedColumnNeverExcludes(t: Table, cands: seq<string>, o: Observations, d: string, symptom: string, answer: string)
    requires AllKnown(t, cands)
    requires Mentions(t, d) && Cell(Profile(t, d), symptom) == None
    ensures d in Survivors(t, cands, Put(o, symptom, answer)) <==> d in Survivors(t, cands, o)
  {
    SurvivorsMembership(t, cands, o);
    SurvivorsMembership(t, cands, Put(o, symptom, answer));
    ConsistentPutUndefined(Profile(t, d), o, symptom, answer);
  }
}
