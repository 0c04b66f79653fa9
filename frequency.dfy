/** The frequency model: word counts built from a token list (`counter`) and
    the probability of a word under them (`P`). */
module Frequency {
  import opened Outcomes
  import opened Edits

  /** Word to number of occurrences. */
  type Model = map<Word, int>

  /** What `counter` builds: every key occurs at least once. */
  predicate Valid(m: Model) {
    forall k :: k in m ==> m[k] >= 1
  }

  // ---------------------------------------------------------------------------
  // The sum of the counts

  /** The sum of the counts of the keys in ks. */
  ghost function SumOver(m: Model, ks: set<Word>): int
    requires ks <= m.Keys
    decreases ks
  {
    if ks == {} then 0 else var k :| k in ks; m[k] + SumOver(m, ks - {k})
  }

  ghost function Total(m: Model): int {
    SumOver(m, m.Keys)
  }

  /** The sum does not depend on the order in which keys are taken out. */
  lemma {:induction false} SumOverRemove(m: Model, ks: set<Word>, k: Word)
    requires ks <= m.Keys && k in ks
    ensures SumOver(m, ks) == m[k] + SumOver(m, ks - {k})
    decreases ks
  {
    var j :| j in ks && SumOver(m, ks) == m[j] + SumOver(m, ks - {j});
    if j != k {
      SumOverRemove(m, ks - {j}, k);
      SumOverRemove(m, ks - {k}, j);
      assert ks - {j} - {k} == ks - {k} - {j};
    }
  }

  lemma {:induction false} SumOverAgree(m1: Model, m2: Model, ks: set<Word>)
    requires ks <= m1.Keys && ks <= m2.Keys
    requires forall k :: k in ks ==> m1[k] == m2[k]
    ensures SumOver(m1, ks) == SumOver(m2, ks)
    decreases ks
  {
    if ks != {} {
      var k :| k in ks;
      SumOverRemove(m1, ks, k);
      SumOverRemove(m2, ks, k);
      SumOverAgree(m1, m2, ks - {k});
    }
  }

  /** Setting the count of k to v changes the total by v minus the old count. */
  lemma TotalUpdate(m: Model, k: Word, v: int)
    ensures Total(m[k := v]) == Total(m) - (if k in m then m[k] else 0) + v
  {
    var m2 := m[k := v];
    SumOverRemove(m2, m2.Keys, k);
    assert m2.Keys - {k} == m.Keys - {k};
    SumOverAgree(m2, m, m.Keys - {k});
    if k in m {
      SumOverRemove(m, m.Keys, k);
    } else {
      assert m.Keys - {k} == m.Keys;
    }
  }

  lemma {:induction false} SumOverAtLeast(m: Model, ks: set<Word>)
    requires Valid(m) && ks <= m.Keys
    ensures SumOver(m, ks) >= |ks|
    decreases ks
  {
    if ks != {} {
      var k :| k in ks;
      SumOverRemove(m, ks, k);
      SumOverAtLeast(m, ks - {k});
    }
  }

  /** In a valid model the total is at least the count of any key, and exceeds it
      when there is another key. */
  lemma TotalBounds(m: Model, k: Word)
    requires Valid(m) && k in m
    ensures Total(m) >= m[k] >= 1
    ensures m.Keys != {k} ==> Total(m) > m[k]
  {
    SumOverRemove(m, m.Keys, k);
    SumOverAtLeast(m, m.Keys - {k});
    if m.Keys != {k} {
      var j :| j in m.Keys && j != k;
      assert j in m.Keys - {k};
    }
  }

  // ---------------------------------------------------------------------------
  // counter

  method Counter(words: seq<Word>) returns (m: Model)
    ensures forall k :: k in m <==> k in words
    ensures forall k :: k in m ==> m[k] == multiset(words)[k]
    ensures Valid(m)
    ensures Total(m) == |words|
  {
    m := map[];
    for i := 0 to |words|
      invariant forall k :: k in m <==> k in words[..i]
      invariant forall k :: k in m ==> m[k] == multiset(words[..i])[k]
      invariant Total(m) == i
    {
      var word := words[i];
      assert words[..i + 1] == words[..i] + [word];
      if word in m {
        TotalUpdate(m, word, m[word] + 1);
        m := m[word := m[word] + 1];
      } else {
        TotalUpdate(m, word, 1);
        m := m[word := 1];
      }
    }
    assert words[..|words|] == words;
  }

  // ---------------------------------------------------------------------------
  // P

  /** The fold over the values of the model. */
  method SumCounts(m: Model) returns (total: int)
    ensures total == Total(m)
  {
    total := 0;
    var rest := m.Keys;
    while rest != {}
      invariant rest <= m.Keys
      invariant total + SumOver(m, rest) == Total(m)
      decreases rest
    {
      var k :| k in rest;
      SumOverRemove(m, rest, k);
      total := total + m[k];
      rest := rest - {k};
    }
  }

  function Abs(a: int): nat {
    if a < 0 then -a else a
  }

  /** Integer division rounding toward zero, as on machine integers. */
  function Quot(a: int, b: int): int
    requires b != 0
  {
    if (a < 0) == (b < 0) then Abs(a) / Abs(b) else -(Abs(a) / Abs(b))
  }

  /** The count of w divided by the total, or the panic that stops the
      computation: first the lookup of w, then the division. */
  ghost function Probability(w: Word, m: Model): Outcome<int> {
    if w !in m then Panicked(WordNotExistent)
    else if Total(m) == 0 then Panicked(DivideByZero)
    else Ok(Quot(m[w], Total(m)))
  }

  method P(w: Word, m: Model) returns (r: Outcome<int>)
    ensures r == Probability(w, m)
  {
    var num := SumCounts(m);
    if w !in m {
      return Panicked(WordNotExistent);
    }
    if num == 0 {
      return Panicked(DivideByZero);
    }
    r := Ok(Quot(m[w], num));
  }

  /** In a valid model the probability of a key is 1 when it is the only key and
      0 otherwise. */
  lemma ProbabilityValues(w: Word, m: Model)
    requires Valid(m) && w in m
    ensures Probability(w, m) == Ok(if m.Keys == {w} then 1 else 0)
  {
    TotalBounds(m, w);
    var a, t := m[w], Total(m);
    assert Quot(a, t) == a / t;
    if m.Keys == {w} {
      SumOverRemove(m, m.Keys, w);
      assert m.Keys - {w} == {};
      assert t == a;
      DivSelf(a);
    } else {
      DivSmall(a, t);
    }
  }

  lemma DivSelf(a: int)
    requires a > 0
    ensures a / a == 1
  {
  }

  lemma DivSmall(a: int, b: int)
    requires 0 <= a < b
    ensures a / b == 0
  {
  }
}
