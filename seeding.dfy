/**
 * Session seeding in `predict`: the raw symptom text is lower-cased and
 * split on commas, and every token naming a catalog column records that
 * column as answered `"Yes"`.
 */
module Seeding {
  import opened Options
  import opened Seqs
  import opened Text
  import opened Catalog
  import opened Observations

  /** `request.form['symptoms'].lower().split(',')`. */
  function Tokens(input: string): seq<string> {
    Split(Lower(input), ',')
  }

  /** One turn of the token loop: a recognised token records its column as `"Yes"`, any other is dropped. */
  function SeedToken(o: Observations, token: string): Observations {
    match Normalize(token)
    case None => o
    case Some(column) => Put(o, column, "Yes")
  }

  /** The observations after the token loop has run over `tokens`, from an empty dictionary. */
  function SeedObservations(tokens: seq<string>): Observations {
    if tokens == [] then []
    else SeedToken(SeedObservations(tokens[..|tokens| - 1]), tokens[|tokens| - 1])
  }

  /** Some token is recognised as column `c`. */
  predicate Recognised(tokens: seq<string>, c: string) {
    exists i :: 0 <= i < |tokens| && Normalize(tokens[i]) == Some(c)
  }

  /** Seeding records each column once, only catalog columns, and only the answer `"Yes"`. */
  lemma {:induction false} SeedObservationsYes(tokens: seq<string>)
    ensures WellFormed(SeedObservations(tokens))
    ensures forall e :: e in SeedObservations(tokens) ==> e.answer == "Yes" && e.symptom in SymptomColumns
  {
    if tokens != [] {
      var init := tokens[..|tokens| - 1];
      SeedObservationsYes(init);
      match Normalize(tokens[|tokens| - 1])
      case None =>
      case Some(column) =>
        PutWellFormed(SeedObservations(init), column, "Yes");
        PutEntries(SeedObservations(init), column, "Yes");
    }
  }

  /** The seeded columns are exactly the columns some token names. */
  lemma {:induction false} SeedObservationsKeys(tokens: seq<string>)
    ensures forall c :: c in Keys(SeedObservations(tokens)) <==> Recognised(tokens, c)
  {
    if tokens != [] {
      var init := tokens[..|tokens| - 1];
      var last := tokens[|tokens| - 1];
      SeedObservationsKeys(init);
      var step := Normalize(last);
      var o := SeedObservations(init);
      assert SeedObservations(tokens) == SeedToken(o, last);
      SeedTokenKeys(o, last);
      assert tokens == init + [last];
      forall c ensures Recognised(tokens, c) <==> Recognised(init, c) || step == Some(c) {
        RecognisedSnoc(init, last, c);
      }
    }
  }

  /** One token adds its column to the keys, if it names one. */
  lemma SeedTokenKeys(o: Observations, token: string)
    ensures forall c :: c in Keys(SeedToken(o, token)) <==> c in Keys(o) || Normalize(token) == Some(c)
  {
    match Normalize(token)
    case None =>
    case Some(column) =>
      assert Keys(Put(o, column, "Yes")) == if column in Keys(o) then Keys(o) else Keys(o) + [column];
  }

  /** A token added at the end is recognised as `c`, or an earlier one was. */
  lemma RecognisedSnoc(init: seq<string>, last: string, c: string)
    ensures Recognised(init + [last], c) <==> Recognised(init, c) || Normalize(last) == Some(c)
  {
    var tokens := init + [last];
    if Recognised(init, c) {
      var i :| 0 <= i < |init| && Normalize(init[i]) == Some(c);
      assert tokens[i] == init[i];
    }
    if Normalize(last) == Some(c) {
      assert tokens[|init|] == last;
    }
    if Recognised(tokens, c) && Normalize(last) != Some(c) {
      var i :| 0 <= i < |tokens| && Normalize(tokens[i]) == Some(c);
      assert tokens[|init|] == last;
      assert i < |init|;
      assert init[i] == tokens[i];
    }
  }

  /** Seeding as a whole: `SeedObservationsYes` and `SeedObservationsKeys` together. */
  lemma SeedObservationsShape(tokens: seq<string>)
    ensures WellFormed(SeedObservations(tokens))
    ensures forall e :: e in SeedObservations(tokens) ==> e.answer == "Yes" && e.symptom in SymptomColumns
    ensures forall c :: c in Keys(SeedObservations(tokens)) <==> Recognised(tokens, c)
  {
    SeedObservationsYes(tokens);
    SeedObservationsKeys(tokens);
  }

  /** The value seeded for a column: `"Yes"` if some token names it, nothing otherwise. */
  lemma SeedLookup(tokens: seq<string>, c: string)
    ensures Lookup(SeedObservations(tokens), c) == if Recognised(tokens, c) then Some("Yes") else None
  {
    var o := SeedObservations(tokens);
    SeedObservationsShape(tokens);
    LookupFinds(o, c);
  }

  /** The token loop, one turn at a time. */
  lemma SeedPrefix(tokens: seq<string>, i: nat)
    requires i < |tokens|
    ensures SeedObservations(tokens[..i + 1]) == SeedToken(SeedObservations(tokens[..i]), tokens[i])
  {
    assert tokens[..i + 1][..i] == tokens[..i];
  }

  /** What the seeded state says about each column. */
  lemma SeedFacts(tokens: seq<string>)
    ensures WellFormed(SeedObservations(tokens))
    ensures forall c :: c in Keys(SeedObservations(tokens)) ==> c in SymptomColumns
    ensures forall c :: c in Keys(SeedObservations(tokens)) <==> Recognised(tokens, c)
    ensures forall c :: Lookup(SeedObservations(tokens), c) == if Recognised(tokens, c) then Some("Yes") else None
  {
    SeedObservationsShape(tokens);
    forall c ensures Lookup(SeedObservations(tokens), c) == if Recognised(tokens, c) then Some("Yes") else None {
      SeedLookup(tokens, c);
    }
    var o := SeedObservations(tokens);
    forall c | c in Keys(o) ensures c in SymptomColumns {
      var i :| 0 <= i < |o| && o[i].symptom == c;
      assert o[i] in o;
    }
  }

  /** A token that names no column leaves the seeded state as it was. */
  lemma SeedIgnoresUnknown(tokens: seq<string>, token: string)
    requires Normalize(token) == None
    ensures SeedObservations(tokens + [token]) == SeedObservations(tokens)
  {
    assert (tokens + [token])[..|tokens|] == tokens;
  }

  /** Naming a column that is already seeded again leaves the seeded state as it was. */
  lemma SeedRepeatIsHarmless(tokens: seq<string>, token: string)
    requires Normalize(token).Some? && Recognised(tokens, Normalize(token).value)
    ensures SeedObservations(tokens + [token]) == SeedObservations(tokens)
  {
    assert (tokens + [token])[..|tokens|] == tokens;
    SeedLookup(tokens, Normalize(token).value);
    PutUnchanged(SeedObservations(tokens), Normalize(token).value, "Yes");
  }
}
