/**
 * The session's `user_symptoms` dictionary: symptom -> recorded answer, with
 * Python's insertion order. It is kept as the sequence of its items.
 */
module Observations {
  import opened Options
  import opened Seqs
  import opened Text

  /** One item `(symptom, answer)` of the dictionary. */
  datatype Entry = Entry(symptom: string, answer: string)

  type Observations = seq<Entry>

  /** The dictionary's keys, in insertion order. */
  function Keys(o: Observations): (ks: seq<string>)
    ensures |ks| == |o|
    ensures forall i :: 0 <= i < |o| ==> ks[i] == o[i].symptom
  {
    if o == [] then [] else [o[0].symptom] + Keys(o[1..])
  }

  /** A dictionary holds each key once. */
  predicate WellFormed(o: Observations) {
    NoDup(Keys(o))
  }

  /** `o.get(k)`. */
  function Lookup(o: Observations, k: string): Option<string>
  {
    if o == [] then None
    else if o[0].symptom == k then Some(o[0].answer)
    else Lookup(o[1..], k)
  }

  /** A key is found exactly when it is held, and what is found is the value of one of its items. */
  lemma {:induction false} LookupFinds(o: Observations, k: string)
    ensures Lookup(o, k).Some? <==> k in Keys(o)
    ensures Lookup(o, k).Some? ==> Entry(k, Lookup(o, k).value) in o
  {
    if o != [] {
      LookupFinds(o[1..], k);
      assert Keys(o) == [o[0].symptom] + Keys(o[1..]);
    }
  }

  /**
   * `o[k] = v`: an existing key keeps its place and gets the new value; a new
   * key goes at the end; every other key keeps its value.
   */
  function Put(o: Observations, k: string, v: string): (r: Observations)
    ensures Keys(r) == if k in Keys(o) then Keys(o) else Keys(o) + [k]
  {
    if o == [] then [Entry(k, v)]
    else if o[0].symptom == k then
      var r := [Entry(k, v)] + o[1..];
      assert r[1..] == o[1..];
      r
    else
      var rest := Put(o[1..], k, v);
      var r := [o[0]] + rest;
      assert r[1..] == rest;
      assert Keys(o) == [o[0].symptom] + Keys(o[1..]);
      r
  }

  /** After `o[k] = v`, `k` holds `v` and every other key holds what it held before. */
  lemma {:induction false} PutLookup(o: Observations, k: string, v: string)
    ensures Lookup(Put(o, k, v), k) == Some(v)
    ensures forall k' :: k' != k ==> Lookup(Put(o, k, v), k') == Lookup(o, k')
  {
    if o != [] && o[0].symptom != k {
      PutLookup(o[1..], k, v);
      var r := Put(o, k, v);
      assert r[0] == o[0] && r[1..] == Put(o[1..], k, v);
    }
  }

  /** `o[k] = v` adds the item `(k, v)`, keeps every item of another key, and adds nothing else. */
  lemma {:induction false} PutEntries(o: Observations, k: string, v: string)
    ensures Entry(k, v) in Put(o, k, v)
    ensures forall e :: e in Put(o, k, v) ==> e in o || e == Entry(k, v)
    ensures forall e :: e in o && e.symptom != k ==> e in Put(o, k, v)
  {
    var r := Put(o, k, v);
    if o == [] {
      assert r == [Entry(k, v)];
    } else if o[0].symptom == k {
      assert r == [Entry(k, v)] + o[1..];
      forall e | e in o && e.symptom != k ensures e in r {
        assert e in o[1..];
      }
    } else {
      PutEntries(o[1..], k, v);
      assert r == [o[0]] + Put(o[1..], k, v);
      assert forall e :: e in o ==> e == o[0] || e in o[1..];
    }
  }

  /** Storing the value a key already holds changes nothing. */
  lemma {:induction false} PutUnchanged(o: Observations, k: string, v: string)
    requires Lookup(o, k) == Some(v)
    ensures Put(o, k, v) == o
  {
    if o[0].symptom != k {
      PutUnchanged(o[1..], k, v);
      assert o == [o[0]] + o[1..];
    } else {
      assert o[0] == Entry(k, v);
      assert o == [o[0]] + o[1..];
    }
  }

  /** Storing a value keeps every key held once. */
  lemma PutWellFormed(o: Observations, k: string, v: string)
    requires WellFormed(o)
    ensures WellFormed(Put(o, k, v))
  {
  }

  /** The keys answered `"Yes"`, in insertion order. */
  function YesKeys(o: Observations): seq<string>
  {
    if o == [] then []
    else (if o[0].answer == "Yes" then [o[0].symptom] else []) + YesKeys(o[1..])
  }

  /**
   * The keys answered `"Yes"` keep the dictionary's order, and (each key
   * being held once) they are exactly the keys whose value is `"Yes"`.
   */
  lemma {:induction false} YesKeysExactly(o: Observations)
    ensures IsSubsequence(YesKeys(o), Keys(o))
    ensures WellFormed(o) ==> forall k :: k in YesKeys(o) <==> Lookup(o, k) == Some("Yes")
  {
    if o != [] {
      YesKeysExactly(o[1..]);
      var ks := Keys(o);
      var ys := YesKeys(o);
      assert ks[1..] == Keys(o[1..]);
      if o[0].answer == "Yes" {
        assert ys[0] == ks[0] && ys[1..] == YesKeys(o[1..]);
      } else {
        assert ys == YesKeys(o[1..]);
      }
      if WellFormed(o) {
        LookupFinds(o[1..], o[0].symptom);
        assert NoDup(Keys(o[1..]));
        assert o[0].symptom !in Keys(o[1..]);
      }
    }
  }

  /** The symptom summary of the history record: `", ".join(s for s, v in o.items() if v == 'Yes')`. */
  function Summary(o: Observations): string {
    Join(YesKeys(o), ", ")
  }
}
