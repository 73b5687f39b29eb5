# Adaptive symptom questionnaire

A Dafny model of the questionnaire at the heart of the symptom-checker web
application in `app.py`. A user types a comma-separated list of symptoms.
Every catalog symptom named in that list is recorded as present. The
application then asks yes/no questions about one symptom at a time. After
each answer it drops every candidate disease whose profile contradicts what
has been recorded. It stops when no question remains that could tell the
candidates apart, when no candidate is left, or when exactly one is left.
It then writes a history record: the user's email, the symptoms answered
"Yes", the diagnosis label and a timestamp.

The model is organised as follows:

- `Text` holds the string operations the code relies on (Python's `lower`,
  `strip`, `split(',')` and `", ".join`).
- `Catalog` holds the four catalog columns and the lowercase-name map.
- `DiseaseTable` holds the profile table: rows, cells, the distinct diseases
  in order of first appearance, and a disease's first row.
- `Observations` holds the recorded answers, a dictionary that keeps
  insertion order.
- `Elimination` holds the candidate filter: a specification function, and
  the nested loop as a method proved against it.
- `Selection` holds `get_next_symptom`.
- `Seeding` holds the parsing of the initial input.
- `Questionnaire` holds the session: a class with the three session fields,
  whose methods `Seed` (the `predict` route) and `Step` (one visit to the
  `ask_question` route) update it in place.
- `Scenarios` works through small tables: the input "fever", the empty
  input, a tie between identical profiles, and the two behaviours described
  next.

Two behaviours of the code are modelled as written and shown by lemmas:

- Selection looks at every row of every candidate disease, but elimination
  compares only each disease's first row. A symptom can therefore be asked
  and then eliminate every candidate (`Scenarios.FirstRowOnly`).
- Each step filters the stored candidate list, not the whole table. A
  disease eliminated earlier never returns, even after the answer that
  eliminated it is changed (`Scenarios.ReversedAnswerDoesNotRestore`).

Three further facts about the code that the model keeps:

- `ask_question` never clears the session after a diagnosis, so `Step`
  leaves the state as elimination left it.
- The no-match label is the literal "Could not determine a match based on
  symptoms." at app.py:158 (`Questionnaire.NoMatch`).
- Elimination reads each disease's first row, while selection reads all of
  its rows.

## Model

| member | source | states |
|---|---|---|
| Text.Lower | app.py:115 | lower-casing keeps the length, turns each upper-case letter into its lower-case letter, changes no other character, and leaves no upper-case letter |
| Text.StripShape | app.py:117 | the stripped token is a slice of the token, everything cut from either end is whitespace, and the result neither starts nor ends with whitespace |
| Text.StripUntrimmed | app.py:117 | a token with no whitespace at either end is unchanged by stripping |
| Text.StripIdempotent | app.py:117 | stripping twice is stripping once |
| Text.Split | app.py:115 | splitting on a comma gives at least one piece, and no piece contains a comma |
| Text.JoinSplit | app.py:115 | joining the comma-split pieces with a comma gives back the input, so the split loses no character |
| Text.SplitJoin | app.py:115 | splitting a comma-join of comma-free pieces gives back the pieces |
| Catalog.SymptomMapIsComprehension | app.py:24-25 | the lowercase-name map equals the comprehension over the four catalog columns, in their order |
| Catalog.SymptomMapFindsColumn | app.py:25 | every catalog column's lowercase name is a key, and it maps back to that column |
| Catalog.Normalize | app.py:117-119 | a recognised token always yields a catalog column |
| Catalog.NormalizeColumnName | app.py:117-119 | a token yields column c exactly when its stripped form is c's lowercase name |
| DiseaseTable.Diseases | app.py:114 | the candidates a session starts from are duplicate-free and are exactly the diseases that have a row |
| DiseaseTable.DiseasesInFirstAppearanceOrder | app.py:114 | a disease listed earlier than another has its first row earlier in the table |
| DiseaseTable.FirstIndex | app.py:144 | the index found holds the disease, and no earlier row does |
| DiseaseTable.Profile | app.py:144 | the profile used for elimination is the first row of the table for that disease: a row of that disease with no earlier row of it |
| DiseaseTable.FirstIndexUnique | app.py:144 | a row of the disease with no earlier row of it is the first row |
| Observations.Put | app.py:134 | storing a value leaves the key order alone for a present key and appends an absent one |
| Observations.PutLookup | app.py:134 | after storing, the key holds the new value and every other key holds its old value |
| Observations.PutEntries | app.py:134 | storing adds the new item, keeps every item of another key, and adds nothing else |
| Observations.PutUnchanged | app.py:120 | storing the value a key already holds leaves the dictionary exactly as it was |
| Observations.PutWellFormed | app.py:134 | storing keeps every key held once |
| Observations.LookupFinds | app.py:145-146 | a key has a value exactly when it is among the keys, and that item is in the dictionary |
| Observations.YesKeysExactly | app.py:160 | the symptoms in the summary keep the dictionary's order, and (keys being unique) are exactly those answered "Yes" |
| Elimination.Eliminate | app.py:141-149 | the nested loop returns exactly the candidates whose first row agrees with every recorded answer, in candidate order |
| Elimination.KeepSurvivors | app.py:149 | keeping the candidates not marked for removal, with removal meaning "first row contradicts an answer", gives the survivors |
| Elimination.SurvivorsMembership | app.py:143-148 | a disease survives exactly when it was a candidate and its first row agrees with every answer |
| Elimination.SurvivorsSubsequence | app.py:149 | the survivors are a subsequence of the candidates, so the list never grows or reorders |
| Elimination.SurvivorsIdempotent | app.py:141-149 | filtering again against the same answers changes nothing |
| Elimination.SurvivorsMonotone | app.py:145-148 | recording more answers never lets a disease back in |
| Elimination.ConsistentWithFewer | app.py:145-148 | a row that agrees with all answers agrees with any subset of them |
| Elimination.ConsistentPutUndefined | app.py:146 | recording an answer for a column the row does not define leaves its agreement unchanged |
| Elimination.UndefinedColumnNeverExcludes | app.py:146 | an answer about a column a disease's first row lacks never changes whether that disease survives |
| Selection.InformativeIff | app.py:53-56 | a symptom is informative exactly when two rows of candidate diseases disagree on it |
| Selection.FirstInformative | app.py:54-58 | the result is none exactly when every column is asked or constant; otherwise it is the first column that is neither |
| Selection.NextQuestion | app.py:50-58 | no candidates give no question; otherwise the question is an unasked, informative catalog symptom with every earlier one skipped, and no question means every catalog symptom is skipped |
| Selection.AllAskedNoQuestion | app.py:54-55 | once every catalog symptom is asked there is no next question |
| Selection.NoCandidatesNothingInformative | app.py:51-53 | without candidates no symptom is informative |
| Seeding.SeedObservationsYes | app.py:115-122 | seeding records each symptom once, and records only catalog columns with "Yes" |
| Seeding.SeedObservationsKeys | app.py:115-122 | a column is recorded exactly when some token names it |
| Seeding.SeedObservationsShape | app.py:115-122 | the two facts above together |
| Seeding.SeedLookup | app.py:120 | a recognised column holds "Yes" and any other key holds nothing |
| Seeding.SeedFacts | app.py:115-122 | the seeded answers are well-formed, hold only catalog columns, hold exactly the recognised ones, and hold "Yes" for each |
| Seeding.SeedIgnoresUnknown | app.py:118 | a token that names no column changes nothing |
| Seeding.SeedRepeatIsHarmless | app.py:120-122 | naming an already recognised column again leaves the seeded answers exactly as they were |
| Questionnaire.RecordedAnswer | app.py:133 | exactly the reply "yes" is recorded as "Yes"; anything else is "No" |
| Questionnaire.AskedBound | app.py:135-136 | a duplicate-free list of catalog symptoms has at most as many entries as the catalog (four) |
| Questionnaire.Session.constructor | app.py:128-130 | a session without state starts with no answers, nothing asked, and every disease of the table as a candidate |
| Questionnaire.Session.Seed | app.py:107-123 | the email is kept; the answers are the seeded observations of the lowered, comma-split input; the asked list is their keys; every disease is a candidate; a column is asked and holds "Yes" exactly when a token names it |
| Questionnaire.Session.Record | app.py:131-136 | the posted symptom's value is overwritten with the recorded answer, it is appended to the asked list only if absent, and the session invariant is kept |
| Questionnaire.Session.Refilter | app.py:138-149 | the stored candidates become their survivors against all answers, a subsequence of what they were |
| Questionnaire.Session.Step | app.py:125-168 | records the answer; filters the stored candidates (never growing them); finishes exactly when there is no question, no candidate or one candidate, with the first candidate or the no-match label and the ", "-joined "Yes" symptoms; otherwise asks the selected unasked catalog symptom |
| Questionnaire.Run | app.py:125-168 | a session answering each offered question in turn keeps its invariant, shows at most one question per reply plus one, never has more seeded and asked symptoms together than the catalog holds (so at most four questions), and its candidates only shrink |
| Scenarios.FeverGivesFlu | app.py:107-168 | on a Flu/Cold table, the input "fever" finishes at the first step with Flu and the summary "Fever" |
| Scenarios.EmptyInputAsksFever | app.py:107-168 | on the same table, an empty input asks Fever first, and the answer "no" finishes with Cold and an empty summary |
| Scenarios.IdenticalProfilesTie | app.py:154-156 | two diseases with identical rows both survive, no question is left, and the first of them is reported |
| Scenarios.FirstRowOnly | app.py:144 | a symptom on which a disease's second row differs is asked, yet the answer matching that row eliminates every candidate |
| Scenarios.ReversedAnswerDoesNotRestore | app.py:138-149 | after Fever = Yes drops Cold, changing the answer to No drops Flu and does not bring Cold back |

## Left out

- Routing, templates and redirects are not modelled: the login check at the top of the question page, rendering, and `session.modified`. Neither is the session-cookie mechanics; the session is a heap object.
- OTP login, random number generation and SMTP email are not modelled. They are I/O outside the questionnaire.
- The `User` and `History` database models are not modelled, and neither are the database writes. `Step` returns the history record it would store.
- The clock is not modelled: `datetime.now()` becomes the `timestamp` parameter of `Step`.
- Loading the CSV file and the fallback to an empty table when it is missing are not modelled. The table is a parameter of the session.
- pandas' handling of missing values is left out. Cells are strings, and a cell a row lacks is an absent key. When selection counts distinct values, an undefined cell counts as one value.
- Elimination.Agrees: a missing cell never excludes a disease in the model. In the source it does: every row has every column of the table, a missing cell is NaN, and NaN differs from every answer, so the test at app.py:146 removes the disease. In the source, "column not in the profile" arises only for a posted symptom that names no column of the table. `Elimination.UndefinedColumnNeverExcludes` is about the model's absent keys.
- Text.Lower: lower-cases ASCII letters only. Only two non-ASCII characters lower-case to ASCII letters: U+212A (to 'k') and U+0130 (to 'i' with a combining dot). Neither can turn a token into a catalog name, so the set of recognised tokens is unchanged.
- Listing the history records is not modelled. It is a database query outside the questionnaire.
- `train_model.py` and `preprocess.py` are not modelled. They are an offline training script and a data-preparation script that the running questionnaire never calls.
