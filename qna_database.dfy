/**
 * The JSON question/answer cache of qa_processor.py (`qna_database.json`):
 * `save_to_database` and `check_database`. The file holds one JSON object;
 * Python keeps its keys in insertion order, so it is modelled as a sequence of
 * (normalised question, answer) pairs with distinct keys. A missing file
 * behaves as the empty object in both functions.
 */
module QnaDatabase {
  import opened Wrappers
  import opened Text

  type Entries = seq<(string, string)>

  /** `question.lower().strip()`: the key a question is stored under. */
  function NormalizeKey(question: string): string {
    Strip(Lower(question))
  }

  /** No key occurs twice, as in any JSON object that `json.load` returns. */
  predicate DistinctKeys(es: Entries) {
    forall i, j :: 0 <= i < j < |es| ==> es[i].0 != es[j].0
  }

  /** `database.get(key)`: the answer stored under `key`, if any. */
  function Lookup(es: Entries, key: string): (r: Option<string>)
    ensures r.None? <==> forall i :: 0 <= i < |es| ==> es[i].0 != key
    ensures r.Some? ==> exists i :: 0 <= i < |es| && es[i] == (key, r.value)
  {
    if es == [] then None
    else if es[0].0 == key then Some(es[0].1)
    else
      var r := Lookup(es[1..], key);
      assert r.Some? ==> exists i :: 0 <= i < |es[1..]| && es[1..][i] == (key, r.value);
      r
  }

  /** `database[key] = value`: an existing key keeps its place and gets the
      new value; a new key goes at the end. */
  function Stored(es: Entries, key: string, value: string): Entries {
    if es == [] then [(key, value)]
    else if es[0].0 == key then [(key, value)] + es[1..]
    else [es[0]] + Stored(es[1..], key, value)
  }

  /** The first entry, in file order, whose key is similar to `key`
      according to `similar` (the `SequenceMatcher` ratio above 0.8). */
  function FirstSimilar(es: Entries, key: string, similar: (string, string) -> bool): (r: Option<string>)
    ensures r.None? <==> forall i :: 0 <= i < |es| ==> !similar(key, Lower(es[i].0))
    ensures r.Some? ==>
      exists i :: 0 <= i < |es| && similar(key, Lower(es[i].0)) && es[i].1 == r.value &&
                  forall j :: 0 <= j < i ==> !similar(key, Lower(es[j].0))
  {
    if es == [] then None
    else if similar(key, Lower(es[0].0)) then Some(es[0].1)
    else
      var r := FirstSimilar(es[1..], key, similar);
      if r.Some? then
        var i :| 0 <= i < |es[1..]| && similar(key, Lower(es[1..][i].0)) && es[1..][i].1 == r.value &&
                 forall j :: 0 <= j < i ==> !similar(key, Lower(es[1..][j].0));
        assert forall j :: 0 <= j < i + 1 ==> !similar(key, Lower(es[j].0)) by {
          forall j | 0 <= j < i + 1 ensures !similar(key, Lower(es[j].0)) {
            if j > 0 { assert es[j] == es[1..][j - 1]; }
          }
        }
        assert es[i + 1] == es[1..][i];
        r
      else r
  }

  /** `check_database(question)`: the exact match on the normalised key
      first, then the first similar key. */
  function CheckSpec(es: Entries, question: string, similar: (string, string) -> bool): Option<string> {
    var key := NormalizeKey(question);
    match Lookup(es, key)
    case Some(a) => Some(a)
    case None => FirstSimilar(es, key, similar)
  }

  /** Storing overwrites only the stored key: that key now gives `value`,
      every other key gives what it gave before. */
  lemma {:induction false} LookupStored(es: Entries, key: string, value: string, k: string)
    ensures Lookup(Stored(es, key, value), k) == if k == key then Some(value) else Lookup(es, k)
  {
    if es != [] && es[0].0 != key {
      LookupStored(es[1..], key, value, k);
      assert Stored(es, key, value)[1..] == Stored(es[1..], key, value);
    }
  }

  lemma TailDistinct(es: Entries)
    requires es != [] && DistinctKeys(es)
    ensures DistinctKeys(es[1..])
    ensures forall m :: 0 <= m < |es[1..]| ==> es[1..][m].0 != es[0].0
  {
    forall i, j | 0 <= i < j < |es[1..]| ensures es[1..][i].0 != es[1..][j].0 {
      assert es[1..][i] == es[i + 1] && es[1..][j] == es[j + 1];
    }
    forall m | 0 <= m < |es[1..]| ensures es[1..][m].0 != es[0].0 {
      assert es[1..][m] == es[m + 1];
    }
  }

  /** Where storing puts the entries: every entry stays in its place, the
      one with the key getting the new value, and a new key goes last. */
  lemma {:induction false} StoredLayout(es: Entries, key: string, value: string)
    requires DistinctKeys(es)
    ensures var r := Stored(es, key, value);
      && |r| == (if Lookup(es, key).Some? then |es| else |es| + 1)
      && (forall i :: 0 <= i < |es| ==> r[i] == (if es[i].0 == key then (key, value) else es[i]))
      && (Lookup(es, key).None? ==> r[|es|] == (key, value))
  {
    if es != [] && es[0].0 != key {
      TailDistinct(es);
      StoredLayout(es[1..], key, value);
      var r := Stored(es, key, value);
      assert r == [es[0]] + Stored(es[1..], key, value);
      forall i | 0 <= i < |es| ensures r[i] == (if es[i].0 == key then (key, value) else es[i]) {
        if i > 0 {
          assert r[i] == Stored(es[1..], key, value)[i - 1] && es[i] == es[1..][i - 1];
        }
      }
    } else if es != [] {
      TailDistinct(es);
    }
  }

  /** Storing keeps the keys distinct, keeps every entry in its place, and
      grows the file by one entry exactly when the key is new. */
  lemma StoredShape(es: Entries, key: string, value: string)
    requires DistinctKeys(es)
    ensures var r := Stored(es, key, value);
      && DistinctKeys(r)
      && |r| == (if Lookup(es, key).Some? then |es| else |es| + 1)
      && (forall i :: 0 <= i < |es| ==> r[i] == (if es[i].0 == key then (key, value) else es[i]))
      && (Lookup(es, key).None? ==> r[|es|] == (key, value))
  {
    StoredLayout(es, key, value);
    var r := Stored(es, key, value);
    assert forall i :: 0 <= i < |es| ==> r[i].0 == es[i].0;
  }

  /** A question differs from its key only by letter case and by surrounding
      whitespace: any such variant of a question has the same key. */
  lemma SameKeyForVariants(question: string, w1: string, variant: string, w2: string)
    requires Lower(variant) == Lower(question)
    requires AllSpace(w1) && AllSpace(w2)
    ensures NormalizeKey(w1 + variant + w2) == NormalizeKey(question)
  {
    LowerAppend(w1, variant);
    LowerAppend(w1 + variant, w2);
    LowerKeepsSpace(w1);
    LowerKeepsSpace(w2);
    StripIgnoresPadding(Lower(w1), Lower(variant), Lower(w2));
  }

  /** After `save_to_database(question, answer)`, `check_database` with any
      question of the same key returns `answer` through the exact match,
      whatever the similarity test says. */
  lemma SaveThenCheck(es: Entries, question: string, answer: string, asked: string, similar: (string, string) -> bool)
    requires NormalizeKey(asked) == NormalizeKey(question)
    ensures CheckSpec(Stored(es, NormalizeKey(question), answer), asked, similar) == Some(answer)
  {
    LookupStored(es, NormalizeKey(question), answer, NormalizeKey(asked));
  }

  /** The cache file as the processor sees it: read before, and rewritten
      after, every save. */
  class QnaStore {
    var entries: Entries

    ghost predicate Valid()
      reads this
    {
      DistinctKeys(entries)
    }

    /** No `qna_database.json` yet. */
    constructor ()
      ensures Valid() && entries == []
    {
      entries := [];
    }

    /** `save_to_database(question, answer)`. */
    method Save(question: string, answer: string)
      requires Valid()
      modifies this
      ensures Valid()
      ensures entries == Stored(old(entries), NormalizeKey(question), answer)
    {
      StoredShape(entries, NormalizeKey(question), answer);
      entries := Stored(entries, NormalizeKey(question), answer);
    }

    /** `check_database(question)`: the dictionary lookup, then the loop over
        the items in file order. */
    method Check(question: string, similar: (string, string) -> bool) returns (r: Option<string>)
      ensures r == CheckSpec(entries, question, similar)
    {
      var key := NormalizeKey(question);
      r := Lookup(entries, key);
      if r.Some? {
        return;
      }
      var i := 0;
      while i < |entries|
        invariant 0 <= i <= |entries|
        invariant FirstSimilar(entries, key, similar) == FirstSimilar(entries[i..], key, similar)
      {
        assert entries[i..][1..] == entries[i + 1..];
        if similar(key, Lower(entries[i].0)) {
          return Some(entries[i].1);
        }
        i := i + 1;
      }
      return None;
    }
  }
}
