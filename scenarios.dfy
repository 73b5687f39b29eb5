/**
 * Worked examples over a two-disease table: a fresh session seeded with
 * "fever", one seeded with nothing, and the two places where the code's
 * behaviour depends on its data layout (elimination reads a disease's first
 * row only; a step filters the stored candidates, not the whole table).
 */
module Scenarios {
  import opened Options
  import opened Text
  import opened Catalog
  import opened DiseaseTable
  import opened Observations
  import opened Elimination
  import opened Selection
  import opened Seeding
  import opened Questionnaire

  /** Flu: fever and cough; Cold: cough without fever. */
  function FluCold(): Table {
    [Row("Flu", map["Fever" := "Yes", "Cough" := "Yes"]),
     Row("Cold", map["Fever" := "No", "Cough" := "Yes"])]
  }

  /** The candidates a fresh session starts from. */
  lemma FluColdDiseases()
    ensures Diseases(FluCold()) == ["Flu", "Cold"]
  {
    var t := FluCold();
    assert t[..1] == [t[0]];
    assert Diseases(t[..1]) == ["Flu"];
  }

  lemma FluColdProfiles()
    ensures AllKnown(FluCold(), ["Flu", "Cold"])
    ensures Profile(FluCold(), "Flu") == FluCold()[0]
    ensures Profile(FluCold(), "Cold") == FluCold()[1]
  {
    assert FluCold()[0].disease == "Flu" && FluCold()[1].disease == "Cold";
    FirstIndexUnique(FluCold(), "Flu", 0);
    FirstIndexUnique(FluCold(), "Cold", 1);
  }

  /** Fever heads the catalog, so it is asked first whenever it is informative. */
  lemma FeverAskedFirst(t: Table, cands: seq<string>)
    requires cands != [] && Informative(t, cands, "Fever")
    ensures NextQuestion(t, cands, []) == Some("Fever")
  {
    assert SymptomColumns[0] == "Fever";
  }

  /** The input "fever" is the single token "fever". */
  lemma TokensFever()
    ensures Tokens("fever") == ["fever"]
  {
    assert Lower("fever") == "fever";
    SplitJoin(["fever"], ',');
  }

  /** The token "fever" names the Fever column. */
  lemma NormalizeFever()
    ensures Normalize("fever") == Some("Fever")
  {
    StripUntrimmed("fever");
    NormalizeColumnName("fever", "Fever");
  }

  /** The input "fever" seeds the single observation Fever = Yes. */
  lemma SeedFever()
    ensures SeedObservations(Tokens("fever")) == [Entry("Fever", "Yes")]
  {
    TokensFever();
    NormalizeFever();
    assert ["fever"][..0] == [];
  }

  /** The empty input is one empty token, which names no column. */
  lemma SeedEmpty()
    ensures SeedObservations(Tokens("")) == []
  {
    assert Tokens("") == [""];
    StripUntrimmed("");
    assert Normalize("") == None;
    assert [""][..0] == [];
  }

  /** Fever = Yes leaves Flu alone; Fever = No leaves Cold alone. */
  lemma FluColdAfterFever()
    ensures AllKnown(FluCold(), ["Flu", "Cold"])
    ensures Survivors(FluCold(), ["Flu", "Cold"], [Entry("Fever", "Yes")]) == ["Flu"]
    ensures Survivors(FluCold(), ["Flu", "Cold"], [Entry("Fever", "No")]) == ["Cold"]
  {
    FluColdProfiles();
    var yes := [Entry("Fever", "Yes")];
    var no := [Entry("Fever", "No")];
    assert ["Flu", "Cold"][1..] == ["Cold"];
    assert ["Cold"][1..] == [];
    assert Consistent(FluCold()[0], yes) && !Agrees(FluCold()[1], yes[0]);
    assert !Agrees(FluCold()[0], no[0]) && Consistent(FluCold()[1], no);
  }

  /**
   * Seeded with "fever", the first step eliminates Cold and finishes at once
   * with Flu, recording "Fever" as the symptom summary.
   */
  lemma FeverGivesFlu()
    ensures var o := SeedObservations(Tokens("fever"));
            var cands := Survivors(FluCold(), Diseases(FluCold()), o);
            cands == ["Flu"] && Terminal(NextQuestion(FluCold(), cands, Keys(o)), cands)
            && Diagnosis(cands) == "Flu" && Summary(o) == "Fever"
  {
    SeedFever();
    FluColdDiseases();
    FluColdAfterFever();
    assert YesKeys([Entry("Fever", "Yes")]) == ["Fever"];
  }

  /** Flu and Cold disagree on Fever. */
  lemma FluColdFeverInformative()
    ensures Informative(FluCold(), ["Flu", "Cold"], "Fever")
  {
    InformativeIff(FluCold(), ["Flu", "Cold"], "Fever");
    assert Cell(FluCold()[0], "Fever") != Cell(FluCold()[1], "Fever");
    assert FluCold()[0].disease == "Flu" && FluCold()[1].disease == "Cold";
  }

  /**
   * Seeded with nothing, Fever (Yes for Flu, No for Cold) is the first
   * question; answering "no" leaves Cold alone and finishes with Cold.
   */
  lemma EmptyInputAsksFever()
    ensures SeedObservations(Tokens("")) == []
    ensures NextQuestion(FluCold(), Diseases(FluCold()), []) == Some("Fever")
    ensures var o := Put([], "Fever", RecordedAnswer("no"));
            var cands := Survivors(FluCold(), ["Flu", "Cold"], o);
            cands == ["Cold"] && Diagnosis(cands) == "Cold" && Summary(o) == ""
  {
    SeedEmpty();
    FluColdDiseases();
    FluColdFeverInformative();
    FeverAskedFirst(FluCold(), ["Flu", "Cold"]);
    assert Put([], "Fever", RecordedAnswer("no")) == [Entry("Fever", "No")];
    FluColdAfterFever();
  }

  /**
   * Two diseases whose rows agree on every column are never told apart: after
   * Fever = Yes both survive, no symptom is informative, and the step
   * finishes with the first of them.
   */
  lemma IdenticalProfilesTie()
    ensures AllKnown([Row("Flu", map["Fever" := "Yes"]), Row("Grippe", map["Fever" := "Yes"])], ["Flu", "Grippe"])
    ensures var t := [Row("Flu", map["Fever" := "Yes"]), Row("Grippe", map["Fever" := "Yes"])];
            var cands := Survivors(t, ["Flu", "Grippe"], [Entry("Fever", "Yes")]);
            cands == ["Flu", "Grippe"] && NextQuestion(t, cands, ["Fever"]) == None
            && Terminal(NextQuestion(t, cands, ["Fever"]), cands) && Diagnosis(cands) == "Flu"
  {
    var t := [Row("Flu", map["Fever" := "Yes"]), Row("Grippe", map["Fever" := "Yes"])];
    assert t[0].disease == "Flu" && t[1].disease == "Grippe";
    FirstIndexUnique(t, "Flu", 0);
    FirstIndexUnique(t, "Grippe", 1);
    var o := [Entry("Fever", "Yes")];
    assert Consistent(t[0], o) && Consistent(t[1], o);
    assert ["Flu", "Grippe"][1..] == ["Grippe"];
    assert Survivors(t, ["Grippe"], o) == ["Grippe"] by {
      assert ["Grippe"][1..] == [];
    }
    forall k | 0 <= k < |SymptomColumns| ensures !Informative(t, ["Flu", "Grippe"], SymptomColumns[k]) {
      InformativeIff(t, ["Flu", "Grippe"], SymptomColumns[k]);
      assert Cell(t[0], SymptomColumns[k]) == Cell(t[1], SymptomColumns[k]);
    }
  }

  /** Two Flu rows that disagree on Fever make Fever informative. */
  lemma TwoFluRowsInformative(t: Table)
    requires |t| >= 2 && t[0] == Row("Flu", map["Fever" := "Yes"]) && t[1] == Row("Flu", map["Fever" := "No"])
    ensures Informative(t, ["Flu", "Cold"], "Fever")
  {
    InformativeIff(t, ["Flu", "Cold"], "Fever");
    assert Cell(t[0], "Fever") != Cell(t[1], "Fever");
  }

  /**
   * Selection reads every row of a candidate disease, elimination only its
   * first row: with a second Flu row without fever, Fever is still asked, and
   * answering "no" eliminates Flu as well as Cold.
   */
  lemma FirstRowOnly()
    ensures AllKnown([Row("Flu", map["Fever" := "Yes"]), Row("Flu", map["Fever" := "No"]),
                      Row("Cold", map["Fever" := "Yes"])], ["Flu", "Cold"])
    ensures var t := [Row("Flu", map["Fever" := "Yes"]), Row("Flu", map["Fever" := "No"]),
                      Row("Cold", map["Fever" := "Yes"])];
            NextQuestion(t, ["Flu", "Cold"], []) == Some("Fever")
            && Survivors(t, ["Flu", "Cold"], [Entry("Fever", "No")]) == []
  {
    var t := [Row("Flu", map["Fever" := "Yes"]), Row("Flu", map["Fever" := "No"]),
              Row("Cold", map["Fever" := "Yes"])];
    assert t[0].disease == "Flu" && t[2].disease == "Cold";
    TwoFluRowsInformative(t);
    FeverAskedFirst(t, ["Flu", "Cold"]);
    FirstIndexUnique(t, "Flu", 0);
    FirstIndexUnique(t, "Cold", 2);
    var o := [Entry("Fever", "No")];
    assert !Agrees(t[0], o[0]) && !Agrees(t[2], o[0]);
    assert ["Flu", "Cold"][1..] == ["Cold"];
    assert ["Cold"][1..] == [];
  }

  /**
   * A step filters the stored candidates: once Fever = Yes has eliminated
   * Cold, changing the answer to No eliminates Flu and does not bring Cold
   * back, although Cold alone matches Fever = No.
   */
  lemma ReversedAnswerDoesNotRestore()
    ensures AllKnown(FluCold(), ["Flu", "Cold"])
    ensures var yes := [Entry("Fever", "Yes")];
            var no := Put(yes, "Fever", "No");
            Survivors(FluCold(), ["Flu", "Cold"], yes) == ["Flu"]
            && Survivors(FluCold(), ["Flu"], no) == []
            && Survivors(FluCold(), ["Flu", "Cold"], no) == ["Cold"]
  {
    FluColdAfterFever();
    FluColdProfiles();
    var no := [Entry("Fever", "No")];
    assert Put([Entry("Fever", "Yes")], "Fever", "No") == no;
    assert ["Flu"][1..] == [];
    assert !Agrees(FluCold()[0], no[0]);
  }
}
