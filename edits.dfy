/** Edit generation: the words one or two single-character edits away from a
    word (`splits`, `deletes`, `transposes`, `replaces`, `inserts`, `edits1`,
    `edits2` in src/main.rs). Words are sequences of characters and every index
    is a character index. */
module Edits {

  type Word = seq<char>

  /** A cut of a word into a left and a right part. */
  type Split = (Word, Word)

  /** The alphabet the corrector substitutes and inserts. */
  const Letters: seq<char> := "abcdefghijklmnopqrstuvwxyz"

  // ---------------------------------------------------------------------------
  // Reference edits, stated by position

  function Deletion(w: Word, i: nat): Word
    requires i < |w|
  {
    w[..i] + w[i + 1..]
  }

  function Transposition(w: Word, i: nat): Word
    requires i + 1 < |w|
  {
    w[..i] + [w[i + 1], w[i]] + w[i + 2..]
  }

  function Replacement(w: Word, i: nat, c: char): Word
    requires i < |w|
  {
    w[..i] + [c] + w[i + 1..]
  }

  function Insertion(w: Word, i: nat, c: char): Word
    requires i <= |w|
  {
    w[..i] + [c] + w[i..]
  }

  /** x is reachable from w by one delete, transpose, replace or insert. */
  ghost predicate OneEdit(w: Word, x: Word) {
    || (exists i: nat :: i < |w| && x == Deletion(w, i))
    || (exists i: nat :: i + 1 < |w| && x == Transposition(w, i))
    || (exists i: nat, c: char :: i < |w| && c in Letters && x == Replacement(w, i, c))
    || (exists i: nat, c: char :: i <= |w| && c in Letters && x == Insertion(w, i, c))
  }

  /** x is reachable from w by two such edits. */
  ghost predicate TwoEdit(w: Word, x: Word) {
    exists y :: OneEdit(w, y) && OneEdit(y, x)
  }

  /** Each edit can be undone, and changes the length by exactly one or not at all. */
  lemma EditsUndo(w: Word)
    ensures forall i: nat, c: char :: i <= |w| ==>
              |Insertion(w, i, c)| == |w| + 1 && Deletion(Insertion(w, i, c), i) == w
    ensures forall i: nat, c: char :: i < |w| ==>
              |Replacement(w, i, c)| == |w| && Replacement(Replacement(w, i, c), i, w[i]) == w
    ensures forall i: nat :: i + 1 < |w| ==>
              |Transposition(w, i)| == |w| && Transposition(Transposition(w, i), i) == w
  {
    forall i: nat, c: char | i <= |w|
      ensures Deletion(Insertion(w, i, c), i) == w
    {
      var x := Insertion(w, i, c);
      assert x[..i] == w[..i] && x[i + 1..] == w[i..];
      assert w[..i] + w[i..] == w;
    }
    forall i: nat, c: char | i < |w|
      ensures Replacement(Replacement(w, i, c), i, w[i]) == w
    {
      var x := Replacement(w, i, c);
      assert x[..i] == w[..i] && x[i + 1..] == w[i + 1..];
      assert w[..i] + [w[i]] + w[i + 1..] == w;
    }
    forall i: nat | i + 1 < |w|
      ensures Transposition(Transposition(w, i), i) == w
    {
      var x := Transposition(w, i);
      assert x[..i] == w[..i] && x[i] == w[i + 1] && x[i + 1] == w[i] && x[i + 2..] == w[i + 2..];
      assert w[..i] + [w[i], w[i + 1]] + w[i + 2..] == w;
    }
  }

  // ---------------------------------------------------------------------------
  // splits

  /** Every cut of w, the i-th leaving i characters on the left. */
  function SplitsOf(w: Word): seq<Split> {
    seq(|w| + 1, i requires 0 <= i <= |w| => (w[..i], w[i..]))
  }

  method Splits(w: Word) returns (splits: seq<Split>)
    ensures splits == SplitsOf(w)
    ensures |splits| == |w| + 1
    ensures forall i :: 0 <= i < |splits| ==> |splits[i].0| == i && splits[i].0 + splits[i].1 == w
  {
    splits := [];
    for i := 0 to |w| + 1
      invariant splits == SplitsOf(w)[..i]
    {
      splits := splits + [(w[..i], w[i..])];
    }
    assert SplitsOf(w)[..|w| + 1] == SplitsOf(w);
    forall i | 0 <= i < |splits|
      ensures splits[i].0 + splits[i].1 == w
    {
      assert w[..i] + w[i..] == w;
    }
  }

  // ---------------------------------------------------------------------------
  // The four edit helpers, over a list of splits

  datatype Op = Delete | Transpose | Replace(c: char) | Insert(c: char)

  /** What one split contributes under op: the body of the closure of
      `deletes` and `transposes`, or of the inner loop of `replaces` and `inserts`. */
  function Apply(op: Op, sp: Split): seq<Word> {
    var (l, r) := sp;
    match op
    case Delete => if |r| > 0 then [l + r[1..]] else []
    case Transpose => if |r| > 1 then [l + [r[1], r[0]] + r[2..]] else []
    case Replace(c) => if |r| > 0 then [l + [c] + r[1..]] else []
    case Insert(c) => [l + [c] + r]
  }

  /** The contributions of all splits, in order. */
  function Expand(ss: seq<Split>, op: Op): seq<Word>
    decreases |ss|
  {
    if ss == [] then [] else Expand(ss[..|ss| - 1], op) + Apply(op, ss[|ss| - 1])
  }

  function Deletes(ss: seq<Split>): seq<Word> {
    Expand(ss, Delete)
  }

  function Transposes(ss: seq<Split>): seq<Word> {
    Expand(ss, Transpose)
  }

  /** For each letter in turn, one replacement per split with a non-empty right part. */
  function ReplacesOf(ss: seq<Split>, cs: seq<char>): seq<Word>
    decreases |cs|
  {
    if cs == [] then [] else ReplacesOf(ss, cs[..|cs| - 1]) + Expand(ss, Replace(cs[|cs| - 1]))
  }

  /** For each letter in turn, one insertion per split. */
  function InsertsOf(ss: seq<Split>, cs: seq<char>): seq<Word>
    decreases |cs|
  {
    if cs == [] then [] else InsertsOf(ss, cs[..|cs| - 1]) + Expand(ss, Insert(cs[|cs| - 1]))
  }

  method Replaces(splits: seq<Split>, letters: seq<char>) returns (repl: seq<Word>)
    ensures repl == ReplacesOf(splits, letters)
  {
    repl := [];
    for ci := 0 to |letters|
      invariant repl == ReplacesOf(splits, letters[..ci])
    {
      var c := letters[ci];
      ghost var before := repl;
      for si := 0 to |splits|
        invariant repl == before + Expand(splits[..si], Replace(c))
      {
        var (l, r) := splits[si];
        ghost var step := Apply(Replace(c), splits[si]);
        if r != [] {
          repl := repl + [l + [c] + r[1..]];
          assert step == [l + [c] + r[1..]];
        } else {
          assert step == [];
        }
        assert splits[..si + 1][..si] == splits[..si];
        assert Expand(splits[..si + 1], Replace(c)) == Expand(splits[..si], Replace(c)) + step;
      }
      assert splits[..|splits|] == splits;
      assert letters[..ci + 1][..ci] == letters[..ci];
      assert ReplacesOf(splits, letters[..ci + 1]) == before + Expand(splits, Replace(c));
    }
    assert letters[..|letters|] == letters;
  }

  method Inserts(splits: seq<Split>, letters: seq<char>) returns (ins: seq<Word>)
    ensures ins == InsertsOf(splits, letters)
  {
    ins := [];
    for ci := 0 to |letters|
      invariant ins == InsertsOf(splits, letters[..ci])
    {
      var c := letters[ci];
      ghost var before := ins;
      for si := 0 to |splits|
        invariant ins == before + Expand(splits[..si], Insert(c))
      {
        var (l, r) := splits[si];
        ins := ins + [l + [c] + r];
        assert splits[..si + 1][..si] == splits[..si];
        assert Expand(splits[..si + 1], Insert(c)) == Expand(splits[..si], Insert(c)) + [l + [c] + r];
      }
      assert splits[..|splits|] == splits;
      assert letters[..ci + 1][..ci] == letters[..ci];
      assert InsertsOf(splits, letters[..ci + 1]) == before + Expand(splits, Insert(c));
    }
    assert letters[..|letters|] == letters;
  }

  // ---------------------------------------------------------------------------
  // What the helpers produce from the splits of a word

  /** How many positions of a word of length n an edit applies at. */
  function Arity(op: Op, n: nat): nat {
    match op
    case Delete => n
    case Transpose => if n > 0 then n - 1 else 0
    case Replace(_) => n
    case Insert(_) => n + 1
  }

  function EditAt(w: Word, op: Op, i: nat): Word
    requires i < Arity(op, |w|)
  {
    match op
    case Delete => Deletion(w, i)
    case Transpose => Transposition(w, i)
    case Replace(c) => Replacement(w, i, c)
    case Insert(c) => Insertion(w, i, c)
  }

  lemma ApplyAtSplit(w: Word, op: Op, i: nat)
    requires i <= |w|
    ensures Apply(op, SplitsOf(w)[i]) == if i < Arity(op, |w|) then [EditAt(w, op, i)] else []
  {
    var r := w[i..];
    if i < |w| {
      assert r[1..] == w[i + 1..];
      assert r[0] == w[i];
    }
    if i + 1 < |w| {
      assert r[1] == w[i + 1] && r[2..] == w[i + 2..];
    }
  }

  lemma ExpandSnoc(ss: seq<Split>, k: nat, op: Op)
    requires 0 < k <= |ss|
    ensures Expand(ss[..k], op) == Expand(ss[..k - 1], op) + Apply(op, ss[k - 1])
  {
    assert ss[..k][..k - 1] == ss[..k - 1];
  }

  /** When split i contributes exactly e[i] for i < |e| and nothing after, the
      first k splits contribute a prefix of e. */
  lemma {:induction false} ExpandOnePerSplit(ss: seq<Split>, op: Op, k: nat, e: seq<Word>)
    requires k <= |ss| && |e| <= |ss|
    requires forall i :: 0 <= i < |ss| ==> Apply(op, ss[i]) == if i < |e| then [e[i]] else []
    ensures Expand(ss[..k], op) == e[..if k < |e| then k else |e|]
  {
    if k > 0 {
      ExpandSnoc(ss, k, op);
      ExpandOnePerSplit(ss, op, k - 1, e);
      if k - 1 < |e| {
        assert e[..k] == e[..k - 1] + [e[k - 1]];
      }
    }
  }

  lemma ExpandSplitsAt(w: Word, op: Op)
    ensures var e := Expand(SplitsOf(w), op);
            |e| == Arity(op, |w|) && forall j :: 0 <= j < |e| ==> e[j] == EditAt(w, op, j)
  {
    var ss := SplitsOf(w);
    var n := Arity(op, |w|);
    var e := seq(n, j requires 0 <= j < n => EditAt(w, op, j));
    forall i | 0 <= i < |ss|
      ensures Apply(op, ss[i]) == if i < |e| then [e[i]] else []
    {
      ApplyAtSplit(w, op, i);
    }
    ExpandOnePerSplit(ss, op, |ss|, e);
    assert ss[..|ss|] == ss;
    assert e[..|e|] == e;
  }

  /** The helper for op yields one word per applicable position, in position order. */
  lemma ExpandSplits(w: Word, op: Op)
    ensures var e := Expand(SplitsOf(w), op);
            |e| == Arity(op, |w|) &&
            (forall j :: 0 <= j < |e| ==> e[j] == EditAt(w, op, j)) &&
            (forall x :: x in e <==> exists j: nat :: j < Arity(op, |w|) && x == EditAt(w, op, j))
  {
    ExpandSplitsAt(w, op);
    var e := Expand(SplitsOf(w), op);
    forall x | x in e
      ensures exists j: nat :: j < Arity(op, |w|) && x == EditAt(w, op, j)
    {
      var j :| 0 <= j < |e| && e[j] == x;
    }
  }

  /** `deletes` gives |w| words, the i-th dropping character i. */
  lemma DeletesOfWord(w: Word)
    ensures var d := Deletes(SplitsOf(w));
            |d| == |w| && forall i :: 0 <= i < |d| ==> d[i] == Deletion(w, i) && |d[i]| == |w| - 1
  {
    ExpandSplits(w, Delete);
  }

  /** `transposes` gives max(|w| - 1, 0) words, the i-th swapping characters i and i + 1. */
  lemma TransposesOfWord(w: Word)
    ensures var t := Transposes(SplitsOf(w));
            |t| == (if |w| > 0 then |w| - 1 else 0) &&
            forall i :: 0 <= i < |t| ==>
              t[i] == Transposition(w, i) && |t[i]| == |w| && t[i][i] == w[i + 1] && t[i][i + 1] == w[i] &&
              forall j :: 0 <= j < |w| && j != i && j != i + 1 ==> t[i][j] == w[j]
  {
    ExpandSplits(w, Transpose);
  }

  lemma MulStep(n: int, k: int)
    ensures (n - 1) * k + k == n * k
  {
  }

  lemma {:induction false} ReplacesLength(w: Word, cs: seq<char>)
    ensures |ReplacesOf(SplitsOf(w), cs)| == |cs| * |w|
  {
    if cs != [] {
      var n := |cs|;
      ReplacesLength(w, cs[..n - 1]);
      ExpandSplits(w, Replace(cs[n - 1]));
      MulStep(n, |w|);
    }
  }

  lemma {:induction false} ReplacesMembers(w: Word, cs: seq<char>)
    ensures forall x :: x in ReplacesOf(SplitsOf(w), cs) <==>
                        exists i: nat, c: char :: i < |w| && c in cs && x == Replacement(w, i, c)
  {
    if cs != [] {
      var n := |cs|;
      var last := cs[n - 1];
      var front := cs[..n - 1];
      assert cs == front + [last];
      ReplacesMembers(w, front);
      forall x
        ensures x in ReplacesOf(SplitsOf(w), cs) <==>
                exists i: nat, c: char :: i < |w| && c in cs && x == Replacement(w, i, c)
      {
        ReplacesStep(w, front, last, x);
      }
    }
  }

  lemma ReplacesStep(w: Word, front: seq<char>, last: char, x: Word)
    requires forall y :: y in ReplacesOf(SplitsOf(w), front) <==>
                         exists i: nat, c: char :: i < |w| && c in front && y == Replacement(w, i, c)
    ensures x in ReplacesOf(SplitsOf(w), front + [last]) <==>
            exists i: nat, c: char :: i < |w| && c in front + [last] && x == Replacement(w, i, c)
  {
    var cs := front + [last];
    assert cs[..|cs| - 1] == front;
    var head := ReplacesOf(SplitsOf(w), front);
    var tail := Expand(SplitsOf(w), Replace(last));
    assert ReplacesOf(SplitsOf(w), cs) == head + tail;
    ExpandSplits(w, Replace(last));
    if exists i: nat, c: char :: i < |w| && c in cs && x == Replacement(w, i, c) {
      var i: nat, c: char :| i < |w| && c in cs && x == Replacement(w, i, c);
      if c != last {
        assert c in front;
        assert x in head;
      } else {
        assert x == EditAt(w, Replace(last), i);
      }
    }
    if x in tail {
      var j: nat :| j < Arity(Replace(last), |w|) && x == EditAt(w, Replace(last), j);
      assert x == Replacement(w, j, last) && last in cs;
    }
    if x in head {
      var i: nat, c: char :| i < |w| && c in front && x == Replacement(w, i, c);
      assert c in cs;
    }
  }

  /** x has the length of w and agrees with it everywhere except perhaps at position i. */
  ghost predicate SameExceptAt(x: Word, w: Word, i: nat) {
    |x| == |w| && forall j :: 0 <= j < |w| && j != i ==> x[j] == w[j]
  }

  /** `replaces` gives 26·|w| words of length |w|, each equal to w except at one position. */
  lemma ReplacesOfWord(w: Word)
    ensures var r := ReplacesOf(SplitsOf(w), Letters);
            |r| == 26 * |w| &&
            (forall x :: x in r <==> exists i: nat, c: char :: i < |w| && c in Letters && x == Replacement(w, i, c)) &&
            (forall x :: x in r ==> exists i: nat :: i < |w| && SameExceptAt(x, w, i))
  {
    ReplacesLength(w, Letters);
    ReplacesMembers(w, Letters);
    forall x | x in ReplacesOf(SplitsOf(w), Letters)
      ensures exists i: nat :: i < |w| && SameExceptAt(x, w, i)
    {
      var i: nat, c: char :| i < |w| && c in Letters && x == Replacement(w, i, c);
      assert SameExceptAt(x, w, i);
    }
  }

  lemma {:induction false} InsertsLength(w: Word, cs: seq<char>)
    ensures |InsertsOf(SplitsOf(w), cs)| == |cs| * (|w| + 1)
  {
    if cs != [] {
      var n := |cs|;
      InsertsLength(w, cs[..n - 1]);
      ExpandSplits(w, Insert(cs[n - 1]));
      MulStep(n, |w| + 1);
    }
  }

  lemma {:induction false} InsertsMembers(w: Word, cs: seq<char>)
    ensures forall x :: x in InsertsOf(SplitsOf(w), cs) <==>
                        exists i: nat, c: char :: i <= |w| && c in cs && x == Insertion(w, i, c)
  {
    if cs != [] {
      var n := |cs|;
      var last := cs[n - 1];
      var front := cs[..n - 1];
      assert cs == front + [last];
      InsertsMembers(w, front);
      forall x
        ensures x in InsertsOf(SplitsOf(w), cs) <==>
                exists i: nat, c: char :: i <= |w| && c in cs && x == Insertion(w, i, c)
      {
        InsertsStep(w, front, last, x);
      }
    }
  }

  lemma InsertsStep(w: Word, front: seq<char>, last: char, x: Word)
    requires forall y :: y in InsertsOf(SplitsOf(w), front) <==>
                         exists i: nat, c: char :: i <= |w| && c in front && y == Insertion(w, i, c)
    ensures x in InsertsOf(SplitsOf(w), front + [last]) <==>
            exists i: nat, c: char :: i <= |w| && c in front + [last] && x == Insertion(w, i, c)
  {
    var cs := front + [last];
    assert cs[..|cs| - 1] == front;
    var head := InsertsOf(SplitsOf(w), front);
    var tail := Expand(SplitsOf(w), Insert(last));
    assert InsertsOf(SplitsOf(w), cs) == head + tail;
    ExpandSplits(w, Insert(last));
    if exists i: nat, c: char :: i <= |w| && c in cs && x == Insertion(w, i, c) {
      var i: nat, c: char :| i <= |w| && c in cs && x == Insertion(w, i, c);
      if c != last {
        assert c in front;
        assert x in head;
      } else {
        assert x == EditAt(w, Insert(last), i);
      }
    }
    if x in tail {
      var j: nat :| j < Arity(Insert(last), |w|) && x == EditAt(w, Insert(last), j);
      assert x == Insertion(w, j, last) && last in cs;
    }
    if x in head {
      var i: nat, c: char :| i <= |w| && c in front && x == Insertion(w, i, c);
      assert c in cs;
    }
  }

  /** `inserts` gives 26·(|w| + 1) words of length |w| + 1. */
  lemma InsertsOfWord(w: Word)
    ensures var r := InsertsOf(SplitsOf(w), Letters);
            |r| == 26 * (|w| + 1) &&
            (forall x :: x in r <==> exists i: nat, c: char :: i <= |w| && c in Letters && x == Insertion(w, i, c)) &&
            (forall x :: x in r ==> |x| == |w| + 1)
  {
    InsertsLength(w, Letters);
    InsertsMembers(w, Letters);
  }

  // ---------------------------------------------------------------------------
  // edits1 and edits2

  /** The set of all words the four helpers produce from the splits of w. */
  function Edits1(w: Word): set<Word> {
    var ss := SplitsOf(w);
    set x | x in Deletes(ss) + Transposes(ss) + ReplacesOf(ss, Letters) + InsertsOf(ss, Letters)
  }

  /** A word is in edits1(w) exactly when one of the four helpers produced it. */
  lemma Edits1Parts(w: Word, x: Word)
    ensures var ss := SplitsOf(w);
            x in Edits1(w) <==>
              x in Deletes(ss) || x in Transposes(ss) || x in ReplacesOf(ss, Letters) || x in InsertsOf(ss, Letters)
  {
  }

  /** edits1(w) is exactly the set of words one edit away from w. */
  lemma Edits1Members(w: Word)
    ensures forall x :: x in Edits1(w) <==> OneEdit(w, x)
  {
    ExpandSplits(w, Delete);
    ExpandSplits(w, Transpose);
    ReplacesMembers(w, Letters);
    InsertsMembers(w, Letters);
    forall x
      ensures x in Edits1(w) <==> OneEdit(w, x)
    {
      Edits1Parts(w, x);
      var ss := SplitsOf(w);
      assert x in Deletes(ss) <==> exists i: nat :: i < |w| && x == Deletion(w, i) by {
        if exists i: nat :: i < |w| && x == Deletion(w, i) {
          var i: nat :| i < |w| && x == Deletion(w, i);
          assert x == EditAt(w, Delete, i);
        }
        if x in Deletes(ss) {
          var j: nat :| j < Arity(Delete, |w|) && x == EditAt(w, Delete, j);
          assert x == Deletion(w, j);
        }
      }
      assert x in Transposes(ss) <==> exists i: nat :: i + 1 < |w| && x == Transposition(w, i) by {
        if exists i: nat :: i + 1 < |w| && x == Transposition(w, i) {
          var i: nat :| i + 1 < |w| && x == Transposition(w, i);
          assert x == EditAt(w, Transpose, i);
        }
        if x in Transposes(ss) {
          var j: nat :| j < Arity(Transpose, |w|) && x == EditAt(w, Transpose, j);
          assert x == Transposition(w, j);
        }
      }
    }
  }

  /** Every word of edits1(w) is at most one character longer or shorter than w. */
  lemma Edits1Lengths(w: Word)
    ensures forall x :: x in Edits1(w) ==> |w| - 1 <= |x| <= |w| + 1
  {
    Edits1Members(w);
  }

  lemma OneEditOfEmpty(x: Word)
    ensures OneEdit([], x) <==> |x| == 1 && x[0] in Letters
  {
    if |x| == 1 && x[0] in Letters {
      assert x == Insertion([], 0, x[0]);
    }
  }

  /** edits1 of the empty word is exactly the one-letter words. */
  lemma Edits1OfEmpty()
    ensures Edits1([]) == set c | c in Letters :: [c]
  {
    var e := Edits1([]);
    var singles := set c | c in Letters :: [c];
    Edits1Members([]);
    forall x
      ensures x in e <==> x in singles
    {
      OneEditOfEmpty(x);
      if |x| == 1 && x[0] in Letters {
        assert x == [x[0]];
      }
    }
  }

  /** The set of words edits2 lists. */
  function TwoEdits(w: Word): set<Word> {
    set e1, e2 | e1 in Edits1(w) && e2 in Edits1(e1) :: e2
  }

  method Edits2(w: Word) returns (list: seq<Word>)
    ensures forall x :: x in list <==> exists e1 :: e1 in Edits1(w) && x in Edits1(e1)
  {
    list := [];
    var outer := Edits1(w);
    ghost var done: set<Word> := {};
    while outer != {}
      invariant outer + done == Edits1(w)
      invariant forall x :: x in list <==> exists d :: d in done && x in Edits1(d)
      decreases outer
    {
      var e1 :| e1 in outer;
      var inner := Edits1(e1);
      while inner != {}
        invariant inner <= Edits1(e1)
        invariant forall x :: x in list <==> (exists d :: d in done && x in Edits1(d)) || (x in Edits1(e1) && x !in inner)
        decreases inner
      {
        var e2 :| e2 in inner;
        list := list + [e2];
        inner := inner - {e2};
      }
      done := done + {e1};
      outer := outer - {e1};
    }
  }

  /** edits2(w) is exactly the set of words two edits away from w. */
  lemma TwoEditsMembers(w: Word)
    ensures forall x :: x in TwoEdits(w) <==> TwoEdit(w, x)
  {
    Edits1Members(w);
    forall y | OneEdit(w, y) {
      Edits1Members(y);
    }
    forall x | x in TwoEdits(w)
      ensures TwoEdit(w, x)
    {
      var e1 :| e1 in Edits1(w) && x in Edits1(e1);
      Edits1Members(e1);
    }
  }

  /** Every word of edits2(w) is at most two characters longer or shorter than w. */
  lemma TwoEditsLengths(w: Word)
    ensures forall x :: x in TwoEdits(w) ==> |w| - 2 <= |x| <= |w| + 2
  {
    Edits1Lengths(w);
    forall x | x in TwoEdits(w)
      ensures |w| - 2 <= |x| <= |w| + 2
    {
      var e1 :| e1 in Edits1(w) && x in Edits1(e1);
      Edits1Lengths(e1);
    }
  }
}
