/** Vocabulary filtering: `known` and the tiered `candidates`. */
module Vocabulary {
  import opened Edits
  import opened Frequency

  /** The words of ws that are keys of the model. */
  function Known(ws: set<Word>, m: Model): (r: set<Word>)
    ensures r <= ws && r <= m.Keys
    ensures forall x :: x in ws && x in m ==> x in r
  {
    m.Keys * ws
  }

  /** The first non-empty tier: w itself, its known neighbours at one edit,
      its known neighbours at two edits, or w alone. */
  function Candidates(w: Word, m: Model): (c: set<Word>)
    ensures c != {}
    ensures c <= m.Keys || c == {w}
  {
    if Known({w}, m) != {} then Known({w}, m)
    else if Known(Edits1(w), m) != {} then Known(Edits1(w), m)
    else if Known(TwoEdits(w), m) != {} then Known(TwoEdits(w), m)
    else {w}
  }

  /** Tier 1: a word of the model is its own only candidate. */
  lemma KnownWordIsOnlyCandidate(w: Word, m: Model)
    requires w in m
    ensures Candidates(w, m) == {w}
  {
    assert Known({w}, m) == {w};
  }

  /** The known words of edits1(w) are the known words one edit away. */
  lemma KnownAtOneEdit(w: Word, m: Model)
    ensures forall x :: x in Known(Edits1(w), m) <==> x in m && OneEdit(w, x)
  {
    Edits1Members(w);
  }

  /** The known words of edits2(w) are the known words two edits away. */
  lemma KnownAtTwoEdits(w: Word, m: Model)
    ensures forall x :: x in Known(TwoEdits(w), m) <==> x in m && TwoEdit(w, x)
  {
    TwoEditsMembers(w);
  }

  /** Tier 2: an unknown word with known neighbours at one edit has exactly those
      as candidates. */
  lemma CandidatesAtOneEdit(w: Word, m: Model)
    requires w !in m
    requires exists x :: x in m && OneEdit(w, x)
    ensures forall x :: x in Candidates(w, m) <==> x in m && OneEdit(w, x)
  {
    KnownAtOneEdit(w, m);
    var x :| x in m && OneEdit(w, x);
    assert x in Known(Edits1(w), m);
    assert Known({w}, m) == {};
  }

  lemma ThirdTier(w: Word, m: Model)
    requires Known({w}, m) == {} && Known(Edits1(w), m) == {} && Known(TwoEdits(w), m) != {}
    ensures Candidates(w, m) == Known(TwoEdits(w), m)
  {
  }

  /** Tier 3: with no known neighbour at one edit, the candidates are the known
      neighbours at two edits, if there are any. */
  lemma CandidatesAtTwoEdits(w: Word, m: Model)
    requires w !in m
    requires forall x :: x in m ==> !OneEdit(w, x)
    requires exists x :: x in m && TwoEdit(w, x)
    ensures forall x :: x in Candidates(w, m) <==> x in m && TwoEdit(w, x)
  {
    assert Known(Edits1(w), m) == {} by {
      KnownAtOneEdit(w, m);
    }
    var x :| x in m && TwoEdit(w, x);
    assert x in Known(TwoEdits(w), m) by {
      KnownAtTwoEdits(w, m);
    }
    assert Known({w}, m) == {};
    ThirdTier(w, m);
    KnownAtTwoEdits(w, m);
  }

  /** Tier 4: with no known word within two edits, w is its own only candidate. */
  lemma CandidatesFallback(w: Word, m: Model)
    requires w !in m
    requires forall x :: x in m ==> !OneEdit(w, x) && !TwoEdit(w, x)
    ensures Candidates(w, m) == {w}
  {
    KnownAtOneEdit(w, m);
    KnownAtTwoEdits(w, m);
    assert Known({w}, m) == {};
    assert Known(Edits1(w), m) == {};
    assert Known(TwoEdits(w), m) == {};
  }
}
