/** Ranking: `correction` picks a candidate of largest probability. */
module Corrector {
  import opened Outcomes
  import opened Edits
  import opened Frequency
  import opened Vocabulary

  /** The probability a candidate is ranked by; an absent word ranks 0. */
  ghost function Rank(x: Word, m: Model): int {
    match Probability(x, m)
    case Ok(p) => p
    case Panicked(_) => 0
  }

  /** r is a candidate of w whose rank no other candidate exceeds. */
  ghost predicate IsCorrection(w: Word, m: Model, r: Word) {
    var c := Candidates(w, m);
    r in c && forall y :: y in c ==> Rank(y, m) <= Rank(r, m)
  }

  lemma TwoDistinct(s: set<Word>, a: Word, b: Word)
    requires a in s && b in s && a != b
    ensures |s| > 1
  {
    var t := s - {a};
    assert s == t + {a} && a !in t;
    assert b in t;
  }

  /** `max_by` over P: the first element is the running maximum, and each
      further element replaces it unless its P is smaller. Every element is
      compared once there are two or more, so one absent from the model or a
      zero total panics. */
  method MaxByProbability(c: set<Word>, m: Model) returns (r: Outcome<Word>)
    ensures r == Panicked(NoGreatest) <==> c == {}
    ensures r.Ok? ==> r.value in c && forall y :: y in c ==> Rank(y, m) <= Rank(r.value, m)
    ensures r.Panicked? <==> c == {} || (|c| > 1 && (Total(m) == 0 || !(c <= m.Keys)))
    ensures r.Panicked? && c != {} && c <= m.Keys ==> r.reason == DivideByZero
  {
    if c == {} {
      return Panicked(NoGreatest);
    }
    var best :| best in c;
    var rest := c - {best};
    while rest != {}
      invariant best in c && rest <= c && best !in rest
      invariant forall z :: z in c && z !in rest ==> Rank(z, m) <= Rank(best, m)
      invariant rest != c - {best} ==> Total(m) != 0 && forall z :: z in c && z !in rest ==> z in m
      decreases rest
    {
      var y :| y in rest;
      var px := P(best, m);
      var py := P(y, m);
      if px.Panicked? {
        TwoDistinct(c, best, y);
        return Panicked(px.reason);
      }
      if py.Panicked? {
        TwoDistinct(c, best, y);
        return Panicked(py.reason);
      }
      if px.value <= py.value {
        best := y;
      }
      rest := rest - {y};
    }
    if rest == c - {best} {
      assert c == {best};
    }
    r := Ok(best);
  }

  /** `correction`: the largest-P candidate. The only panic left is a division
      by a zero total while comparing two or more candidates; the `expect` on
      an absent word and the one on an empty candidate set are never reached. */
  method Correction(w: Word, m: Model) returns (r: Outcome<Word>)
    ensures r.Ok? ==> IsCorrection(w, m, r.value)
    ensures r.Panicked? <==> |Candidates(w, m)| > 1 && Total(m) == 0
    ensures r.Panicked? ==> r.reason == DivideByZero
    ensures Valid(m) ==> r.Ok?
  {
    var c := Candidates(w, m);
    r := MaxByProbability(c, m);
    if |c| > 1 {
      assert c != {w};
      var x :| x in c;
      if Valid(m) {
        TotalBounds(m, x);
      }
    }
  }

  /** A word of the model corrects to itself. */
  lemma KnownWordCorrectsToItself(w: Word, m: Model, r: Word)
    requires w in m
    ensures IsCorrection(w, m, r) <==> r == w
  {
    KnownWordIsOnlyCandidate(w, m);
  }

  /** Correcting a correction gives it back. */
  lemma CorrectionIdempotent(w: Word, m: Model, r: Word, r2: Word)
    requires IsCorrection(w, m, r)
    ensures IsCorrection(r, m, r)
    ensures IsCorrection(r, m, r2) ==> r2 == r
  {
    if r in m {
      KnownWordIsOnlyCandidate(r, m);
    }
  }

  // ---------------------------------------------------------------------------
  // Integer division makes the ranking ignore frequency

  /** In a model built by counting, every candidate is a correction: a
      singleton tier has one member, and in a model of two or more words every
      probability truncates to 0. */
  lemma CorrectionIgnoresFrequency(w: Word, m: Model, r: Word)
    requires Valid(m)
    ensures IsCorrection(w, m, r) <==> r in Candidates(w, m)
  {
    var c := Candidates(w, m);
    if r in c {
      forall y | y in c
        ensures Rank(y, m) <= Rank(r, m)
      {
        if y != r {
          TwoDistinct(c, y, r);
          assert c != {w};
          ProbabilityValues(y, m);
          ProbabilityValues(r, m);
        }
      }
    }
  }

  /** A model in which "spelling" is twice as frequent as "spewing". */
  function SpelingModel(): Model {
    map["spelling" := 2, "spewing" := 1]
  }

  lemma SpelingNeighbours()
    ensures OneEdit("speling", "spelling") && OneEdit("speling", "spewing")
  {
    assert Letters[11] == 'l' && Letters[22] == 'w';
    assert Insertion("speling", 4, 'l') == "spelling";
    assert Replacement("speling", 3, 'w') == "spewing";
  }

  lemma TwoKnownNeighbours(w: Word, m: Model, a: Word, b: Word)
    requires w !in m && m.Keys == {a, b}
    requires OneEdit(w, a) && OneEdit(w, b)
    ensures Candidates(w, m) == {a, b}
  {
    CandidatesAtOneEdit(w, m);
  }

  /** The less frequent neighbour is an admissible correction of "speling". */
  lemma SpelingMayGiveSpewing()
    ensures Candidates("speling", SpelingModel()) == {"spelling", "spewing"}
    ensures IsCorrection("speling", SpelingModel(), "spewing")
  {
    var m := SpelingModel();
    SpelingNeighbours();
    assert "speling" !in m;
    assert m.Keys == {"spelling", "spewing"};
    TwoKnownNeighbours("speling", m, "spelling", "spewing");
    CorrectionIgnoresFrequency("speling", m, "spewing");
  }

  /** The number of occurrences of x; an absent word counts 0. */
  function Count(x: Word, m: Model): int {
    if x in m then m[x] else 0
  }

  /** r is a candidate of w whose count no other candidate exceeds. */
  ghost predicate IsCountCorrection(w: Word, m: Model, r: Word) {
    var c := Candidates(w, m);
    r in c && forall y :: y in c ==> Count(y, m) <= Count(r, m)
  }

  /** `correction` ranking by count instead of by the truncated quotient; the
      two orders agree on real-valued probabilities, which have the total as
      common positive denominator. It never divides and never panics. */
  method CorrectionByCount(w: Word, m: Model) returns (r: Word)
    ensures IsCountCorrection(w, m, r)
  {
    var c := Candidates(w, m);
    var best :| best in c;
    var rest := c - {best};
    while rest != {}
      invariant best in c && rest <= c
      invariant forall z :: z in c && z !in rest ==> Count(z, m) <= Count(best, m)
      decreases rest
    {
      var y :| y in rest;
      if Count(best, m) <= Count(y, m) {
        best := y;
      }
      rest := rest - {y};
    }
    r := best;
  }

  /** The real-valued probability count / total, the quotient `P` truncates. */
  ghost function RealProbability(x: Word, m: Model): real
    requires Total(m) > 0
  {
    (Count(x, m) as real) / (Total(m) as real)
  }

  /** Ranking by count is ranking by the real-valued probability: the total is a
      common positive denominator. */
  lemma CountOrderIsProbabilityOrder(x: Word, y: Word, m: Model)
    requires Total(m) > 0
    ensures Count(x, m) <= Count(y, m) <==> RealProbability(x, m) <= RealProbability(y, m)
  {
    var t := Total(m) as real;
    var a := Count(x, m) as real;
    var b := Count(y, m) as real;
    assert RealProbability(x, m) * t == a;
    assert RealProbability(y, m) * t == b;
    if a <= b {
      assert (b - a) / t >= 0.0;
      assert RealProbability(y, m) - RealProbability(x, m) == (b - a) / t;
    } else {
      assert (a - b) / t > 0.0;
      assert RealProbability(x, m) - RealProbability(y, m) == (a - b) / t;
    }
  }

  /** A count-correction is a candidate of largest real-valued probability. */
  lemma CountCorrectionMaximisesProbability(w: Word, m: Model, r: Word)
    requires Total(m) > 0
    ensures IsCountCorrection(w, m, r) <==>
              r in Candidates(w, m) &&
              forall y :: y in Candidates(w, m) ==> RealProbability(y, m) <= RealProbability(r, m)
  {
    forall y | y in Candidates(w, m)
      ensures Count(y, m) <= Count(r, m) <==> RealProbability(y, m) <= RealProbability(r, m)
    {
      CountOrderIsProbabilityOrder(y, r, m);
    }
  }

  /** A candidate more frequent than every other candidate is the correction. */
  lemma MostFrequentCandidateWins(w: Word, m: Model, x: Word, r: Word)
    requires x in Candidates(w, m)
    requires forall y :: y in Candidates(w, m) && y != x ==> Count(y, m) < Count(x, m)
    ensures IsCountCorrection(w, m, r) <==> r == x
  {
  }

  /** Ranking by count, "speling" corrects to "spelling" only. */
  lemma SpelingGivesSpelling(r: Word)
    ensures IsCountCorrection("speling", SpelingModel(), r) <==> r == "spelling"
  {
    SpelingMayGiveSpewing();
    MostFrequentCandidateWins("speling", SpelingModel(), "spelling", r);
  }
}
