/**
 * The per-user questionnaire session: the state `predict` seeds and every
 * visit to the question page advances by one step.
 */
module Questionnaire {
  import opened Options
  import opened Seqs
  import opened Text
  import opened Catalog
  import opened DiseaseTable
  import opened Observations
  import opened Elimination
  import opened Selection
  import opened Seeding

  /** The label recorded when no candidate is left. */
  const NoMatch: string := "Could not determine a match based on symptoms."

  /** A posted answer: the form fields `symptom` and `answer`. */
  datatype Answer = Answer(symptom: string, reply: string)

  /** The `History` row written when a session ends; the clock reading is passed in. */
  datatype HistoryRecord = HistoryRecord(email: string, symptoms: string, disease: string, timestamp: string)

  /** What one step shows: the next yes/no question, or the result with the record it stores. */
  datatype Turn = Ask(symptom: string) | Finish(record: HistoryRecord)

  /** How a reply is recorded: exactly `"yes"` is `"Yes"`, anything else is `"No"`. */
  function RecordedAnswer(reply: string): (answer: string)
    ensures answer == "Yes" <==> reply == "yes"
    ensures answer == "No" <==> reply != "yes"
  {
    if reply == "yes" then "Yes" else "No"
  }

  /** The diagnosis label: the first remaining candidate, or `NoMatch` when none is left. */
  function Diagnosis(cands: seq<string>): (d: string)
    ensures cands != [] ==> d == cands[0]
    ensures cands == [] ==> d == NoMatch
  {
    if cands != [] then cands[0] else NoMatch
  }

  /** Whether a step ends the questionnaire: no question left, no candidate, or one. */
  predicate Terminal(next: Option<string>, cands: seq<string>) {
    next.None? || cands == [] || |cands| == 1
  }

  /** A duplicate-free asked list drawn from the catalog has at most one entry per catalog symptom. */
  lemma AskedBound(asked: seq<string>)
    requires NoDup(asked)
    requires forall s :: s in asked ==> s in SymptomColumns
    ensures |asked| <= |SymptomColumns|
  {
    NoDupBound(asked, SymptomColumns);
  }

  class Session {
    /** The disease table, read-only and shared. */
    const table: Table
    /** `session['email']`. */
    var email: string
    /** `session['user_symptoms']`. */
    var userSymptoms: Observations
    /** `session['asked_symptoms']`. */
    var askedSymptoms: seq<string>
    /** `session['possible_diseases']`. */
    var possibleDiseases: seq<string>

    /**
     * The session invariant: each symptom is recorded once, the asked list
     * is the list of recorded symptoms in the order they were first recorded,
     * and the candidates are distinct diseases of the table.
     */
    ghost predicate Valid()
      reads this
    {
      && WellFormed(userSymptoms)
      && askedSymptoms == Keys(userSymptoms)
      && NoDup(askedSymptoms)
      && NoDup(possibleDiseases)
      && AllKnown(table, possibleDiseases)
    }

    /** Every asked symptom is a catalog symptom (true while only offered questions are answered). */
    ghost predicate CatalogOnly()
      reads this
    {
      forall s :: s in askedSymptoms ==> s in SymptomColumns
    }

    /**
     * A session as the `setdefault` calls of the question page leave it: no
     * answers, nothing asked, every disease of the table a candidate.
     */
    constructor (table: Table, email: string)
      ensures Valid() && CatalogOnly()
      ensures this.table == table && this.email == email
      ensures userSymptoms == [] && askedSymptoms == []
      ensures possibleDiseases == Diseases(table)
    {
      this.table := table;
      this.email := email;
      userSymptoms := [];
      askedSymptoms := [];
      possibleDiseases := Diseases(table);
    }

    /**
     * `predict`: start afresh (keeping the email), make every disease a
     * candidate, and record `"Yes"` for every comma-separated token that
     * names a catalog column after lower-casing and stripping.
     */
    method Seed(input: string)
      modifies this
      ensures Valid() && CatalogOnly()
      ensures email == old(email)
      ensures userSymptoms == SeedObservations(Tokens(input))
      ensures askedSymptoms == Keys(userSymptoms)
      ensures possibleDiseases == Diseases(table)
      ensures forall c :: c in askedSymptoms <==> Recognised(Tokens(input), c)
      ensures forall c :: Lookup(userSymptoms, c) == if Recognised(Tokens(input), c) then Some("Yes") else None
    {
      userSymptoms := [];
      askedSymptoms := [];
      possibleDiseases := Diseases(table);
      var tokens := Tokens(input);
      for i := 0 to |tokens|
        invariant userSymptoms == SeedObservations(tokens[..i])
        invariant askedSymptoms == Keys(userSymptoms)
        invariant email == old(email) && possibleDiseases == Diseases(table)
      {
        SeedPrefix(tokens, i);
        var clean := Strip(tokens[i]);
        if clean in SymptomMap() {
          var column := SymptomMap()[clean];
          userSymptoms := Put(userSymptoms, column, "Yes");
          if column !in askedSymptoms {
            askedSymptoms := askedSymptoms + [column];
          }
        }
      }
      assert tokens[..|tokens|] == tokens;
      SeedFacts(tokens);
    }

    /**
     * Recording a posted answer: `user_symptoms[symptom]` is overwritten with
     * `"Yes"` or `"No"`, and the symptom is appended to the asked list unless
     * it is already there.
     */
    method Record(answer: Answer)
      requires Valid()
      modifies this
      ensures Valid()
      ensures email == old(email) && possibleDiseases == old(possibleDiseases)
      ensures userSymptoms == Put(old(userSymptoms), answer.symptom, RecordedAnswer(answer.reply))
      ensures askedSymptoms == if answer.symptom in old(askedSymptoms) then old(askedSymptoms)
                               else old(askedSymptoms) + [answer.symptom]
      ensures Lookup(userSymptoms, answer.symptom) == Some(RecordedAnswer(answer.reply))
      ensures old(CatalogOnly()) && answer.symptom in SymptomColumns ==> CatalogOnly()
    {
      var symptom := answer.symptom;
      PutWellFormed(userSymptoms, symptom, RecordedAnswer(answer.reply));
      PutLookup(userSymptoms, symptom, RecordedAnswer(answer.reply));
      userSymptoms := Put(userSymptoms, symptom, RecordedAnswer(answer.reply));
      if symptom !in askedSymptoms {
        askedSymptoms := askedSymptoms + [symptom];
      }
    }

    /**
     * The elimination pass of the question page: the stored candidates are
     * filtered against all recorded answers, keeping their order.
     */
    method Refilter()
      requires Valid()
      modifies this
      ensures Valid()
      ensures email == old(email) && userSymptoms == old(userSymptoms) && askedSymptoms == old(askedSymptoms)
      ensures possibleDiseases == Survivors(table, old(possibleDiseases), userSymptoms)
      ensures IsSubsequence(possibleDiseases, old(possibleDiseases))
    {
      var candidates := possibleDiseases;
      if candidates != [] {
        possibleDiseases := Eliminate(table, candidates, userSymptoms);
      }
      SurvivorsSubsequence(table, candidates, userSymptoms);
      SurvivorsMembership(table, candidates, userSymptoms);
      SubsequenceNoDup(possibleDiseases, candidates);
    }

    /**
     * One visit to the question page (`ask_question`): record the posted
     * answer, if any; filter the stored candidates against all answers;
     * select the next question; then either ask it, or finish with the
     * diagnosis and the history record.
     */
    method Step(answer: Option<Answer>, timestamp: string) returns (turn: Turn)
      requires Valid()
      modifies this
      ensures Valid()
      ensures email == old(email)
      // answer recording
      ensures userSymptoms == if answer.Some?
                              then Put(old(userSymptoms), answer.value.symptom, RecordedAnswer(answer.value.reply))
                              else old(userSymptoms)
      ensures askedSymptoms == if answer.Some? && answer.value.symptom !in old(askedSymptoms)
                               then old(askedSymptoms) + [answer.value.symptom]
                               else old(askedSymptoms)
      ensures old(CatalogOnly()) && (answer.None? || answer.value.symptom in SymptomColumns) ==> CatalogOnly()
      // elimination: the stored candidates, filtered against every answer, never grow
      ensures possibleDiseases == Survivors(table, old(possibleDiseases), userSymptoms)
      ensures IsSubsequence(possibleDiseases, old(possibleDiseases))
      // selection and termination
      ensures turn.Finish? <==> Terminal(NextQuestion(table, possibleDiseases, askedSymptoms), possibleDiseases)
      ensures turn.Ask? ==> NextQuestion(table, possibleDiseases, askedSymptoms) == Some(turn.symptom)
                            && turn.symptom in SymptomColumns && turn.symptom !in askedSymptoms
      ensures turn.Finish? ==> turn.record == HistoryRecord(email, Summary(userSymptoms), Diagnosis(possibleDiseases), timestamp)
    {
      if answer.Some? {
        Record(answer.value);
      }
      Refilter();
      var next := NextQuestion(table, possibleDiseases, askedSymptoms);
      if next.None? || possibleDiseases == [] || |possibleDiseases| == 1 {
        var diagnosis := Diagnosis(possibleDiseases);
        var summary := Summary(userSymptoms);
        turn := Finish(HistoryRecord(email, summary, diagnosis, timestamp));
      } else {
        turn := Ask(next.value);
      }
    }
  }

  /**
   * A whole questionnaire after seeding: the first visit to the question
   * page, then one visit per reply, each answering the symptom just asked,
   * until a visit finishes or the replies run out. `asks` counts the
   * questions shown. Every question is a new catalog symptom, so the seeded
   * symptoms and the questions together never exceed the catalog, and the
   * candidates only ever shrink.
   */
  method Run(s: Session, replies: seq<string>, timestamp: string) returns (turn: Turn, asks: nat)
    requires s.Valid() && s.CatalogOnly()
    modifies s
    ensures s.Valid() && s.CatalogOnly()
    ensures |old(s.askedSymptoms)| + asks <= |SymptomColumns|
    ensures asks <= |replies| + 1
    ensures turn.Ask? ==> asks == |replies| + 1
    ensures IsSubsequence(s.possibleDiseases, old(s.possibleDiseases))
  {
    turn := s.Step(None, timestamp);
    var k := 0;
    while k < |replies| && turn.Ask?
      invariant s.Valid() && s.CatalogOnly()
      invariant 0 <= k <= |replies|
      invariant |s.askedSymptoms| == |old(s.askedSymptoms)| + k
      invariant turn.Ask? ==> turn.symptom in SymptomColumns && turn.symptom !in s.askedSymptoms
      invariant IsSubsequence(s.possibleDiseases, old(s.possibleDiseases))
      decreases |replies| - k
    {
      ghost var before := s.possibleDiseases;
      turn := s.Step(Some(Answer(turn.symptom, replies[k])), timestamp);
      SubsequenceTransitive(s.possibleDiseases, before, old(s.possibleDiseases));
      k := k + 1;
    }
    if turn.Ask? {
      asks := k + 1;
      AskedBound(s.askedSymptoms + [turn.symptom]);
    } else {
      asks := k;
      AskedBound(s.askedSymptoms);
    }
  }
}
