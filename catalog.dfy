/**
 * The symptom catalog: the fixed, ordered list of symptom columns the
 * questionnaire asks about, and the map from a lower-cased name to its
 * column that normalises the user's free-text input.
 */
module Catalog {
  import opened Options
  import opened Seqs
  import opened Text

  /** `symptom_columns`, in the order the selector walks them. */
  const SymptomColumns: seq<string> := ["Fever", "Cough", "Fatigue", "Difficulty Breathing"]

  /**
   * The dictionary that maps each column's lower-cased name to the column: entries are
   * inserted left to right, so a later column wins a clash of lower-cased names.
   */
  function LowerMap(cols: seq<string>): map<string, string>
  {
    if cols == [] then map[]
    else LowerMap(cols[..|cols| - 1])[Lower(cols[|cols| - 1]) := cols[|cols| - 1]]
  }

  /** The lower-cased names of the catalog columns. */
  lemma LowerNames()
    ensures Lower("Fever") == "fever"
    ensures Lower("Cough") == "cough"
    ensures Lower("Fatigue") == "fatigue"
    ensures Lower("Difficulty Breathing") == "difficulty breathing"
  {
  }

  /** `SYMPTOM_MAP`, written out; `SymptomMapIsComprehension` shows it is the comprehension over the columns. */
  function SymptomMap(): map<string, string> {
    map["fever" := "Fever", "cough" := "Cough", "fatigue" := "Fatigue",
        "difficulty breathing" := "Difficulty Breathing"]
  }

  /** The written-out map is the one built from each catalog column's lower-cased name, in catalog order. */
  lemma SymptomMapIsComprehension()
    ensures SymptomMap() == LowerMap(SymptomColumns)
  {
    LowerNames();
    var cols := SymptomColumns;
    assert cols[..3] == ["Fever", "Cough", "Fatigue"];
    assert cols[..3][..2] == ["Fever", "Cough"];
    assert cols[..3][..2][..1] == ["Fever"];
    assert LowerMap(["Fever"]) == map["fever" := "Fever"];
    assert LowerMap(["Fever", "Cough"]) == map["fever" := "Fever", "cough" := "Cough"];
    assert LowerMap(["Fever", "Cough", "Fatigue"]) == map["fever" := "Fever", "cough" := "Cough", "fatigue" := "Fatigue"];
  }

  /** Every column is found under its own lower-cased name. */
  lemma SymptomMapFindsColumn(c: string)
    requires c in SymptomColumns
    ensures Lower(c) in SymptomMap() && SymptomMap()[Lower(c)] == c
  {
    LowerNames();
  }

  /**
   * The lookup `predict` does for one comma-separated token of the already
   * lower-cased input: strip it and look it up in `SYMPTOM_MAP`.
   */
  function Normalize(token: string): (r: Option<string>)
    ensures r.Some? ==> r.value in SymptomColumns
  {
    var clean := Strip(token);
    if clean in SymptomMap() then Some(SymptomMap()[clean]) else None
  }

  /** A token is recognised exactly when it is a column's lower-cased name, and then it names that column. */
  lemma NormalizeColumnName(token: string, c: string)
    requires c in SymptomColumns
    ensures Normalize(token) == Some(c) <==> Strip(token) == Lower(c)
  {
    LowerNames();
  }
}
