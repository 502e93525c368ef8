/** `LevelManager`: the level catalogue, multiplication facts, distractors,
    the Fisher-Yates shuffle and the placement of answer tiles. */
module Facts {
  import opened Common
  import opened Erosion
  import opened Graffiti

  datatype LevelData = LevelData(id: int, name: string, subtitle: string, table: int,
                                 questions: nat, timeLimit: nat)

  /** `LEVEL_DATA`; table 0 is the mixed level. */
  const LevelCatalog: seq<LevelData> := [
    LevelData(1, "THE SLUMS", "Multiplication x2", 2, 5, 120),
    LevelData(2, "NEON MARKET", "Multiplication x3", 3, 5, 110),
    LevelData(3, "DATA STREAM", "Multiplication x4", 4, 5, 100),
    LevelData(4, "THE SPIRE", "Multiplication x5", 5, 5, 100),
    LevelData(5, "CORE LOGIC", "Multiplication x6", 6, 6, 100),
    LevelData(6, "SYNTH GARDEN", "Multiplication x7", 7, 6, 90),
    LevelData(7, "GHOST WIRE", "Multiplication x8", 8, 6, 90),
    LevelData(8, "DEEP NET", "Multiplication x9", 9, 7, 90),
    LevelData(9, "CYBER VOID", "Multiplication x10", 10, 7, 80),
    LevelData(10, "FINAL EXAM", "All Tables Mixed", 0, 10, 180)
  ]

  const GraffitiColors: seq<string> := ["#39ff14", "#ff00ff", "#ffff00"]

  datatype Answer = Answer(value: int, isCorrect: bool)

  datatype Question = Question(text: string, a: int, b: int, correct: int, answers: seq<Answer>)

  ghost predicate Distinct<T>(s: seq<T>) {
    forall p, q :: 0 <= p < q < |s| ==> s[p] != s[q]
  }

  lemma DistinctPrefix<T>(s: seq<T>, n: nat)
    requires Distinct(s) && n <= |s|
    ensures Distinct(s[..n])
  {
  }

  lemma DistinctCons<T>(x: T, t: seq<T>)
    ensures Distinct([x] + t) <==> x !in t && Distinct(t)
  {
    var s := [x] + t;
    if Distinct(s) {
      forall q | 0 <= q < |t| ensures t[q] != x { assert s[0] == x && s[q + 1] == t[q]; }
      forall p, q | 0 <= p < q < |t| ensures t[p] != t[q] { assert s[p + 1] == t[p] && s[q + 1] == t[q]; }
    }
  }

  lemma DistinctSnoc<T>(t: seq<T>, x: T)
    ensures Distinct(t + [x]) <==> x !in t && Distinct(t)
  {
    var s := t + [x];
    if Distinct(s) {
      forall p | 0 <= p < |t| ensures t[p] != x { assert s[p] == t[p] && s[|t|] == x; }
      forall p, q | 0 <= p < q < |t| ensures t[p] != t[q] { assert s[p] == t[p] && s[q] == t[q]; }
    }
  }
  /** A sequence is duplicate-free exactly when no value occurs twice in its multiset. */
  lemma {:induction false} DistinctMultiset<T>(s: seq<T>)
    ensures Distinct(s) <==> forall x :: multiset(s)[x] <= 1
  {
    if s != [] {
      var t, x := s[..|s| - 1], s[|s| - 1];
      assert s == t + [x];
      DistinctSnoc(t, x);
      DistinctMultiset(t);
      assert multiset(s) == multiset(t) + multiset{x};
      if Distinct(s) {
        assert multiset(t)[x] == 0;
        forall y ensures multiset(s)[y] <= 1 {
          assert multiset(t)[y] <= 1;
        }
      } else if x in t {
        assert multiset(s)[x] >= 2;
      } else {
        var y :| multiset(t)[y] > 1;
        assert multiset(s)[y] > 1;
      }
    }
  }
  lemma PermutationDistinct<T>(s: seq<T>, r: seq<T>)
    requires multiset(s) == multiset(r)
    ensures Distinct(s) ==> Distinct(r)
  {
    DistinctMultiset(s);
    DistinctMultiset(r);
  }

  // ---------------------------------------------------------- shuffle

  function Swap<T>(s: seq<T>, i: nat, j: nat): (r: seq<T>)
    requires i < |s| && j < |s|
  {
    s[i := s[j]][j := s[i]]
  }

  /** Fisher-Yates from position i down to 1, the k-th draw choosing the
      partner of position i. */
  function FisherYates<T>(s: seq<T>, i: int, rand: Random, k: nat): (r: seq<T>)
    requires IsRandom(rand) && i < |s|
    ensures |r| == |s|
    decreases i
  {
    if i <= 0 then s
    else
      var j := Draw(rand(k), i + 1);
      FisherYates(Swap(s, i, j), i - 1, rand, k + 1)
  }

  /** Every swap keeps the multiset of elements, so the shuffle is a permutation. */
  lemma {:induction false} FisherYatesPermutes<T>(s: seq<T>, i: int, rand: Random, k: nat)
    requires IsRandom(rand) && i < |s|
    ensures multiset(FisherYates(s, i, rand, k)) == multiset(s)
    decreases i
  {
    if i > 0 {
      var j := Draw(rand(k), i + 1);
      FisherYatesPermutes(Swap(s, i, j), i - 1, rand, k + 1);
      assert multiset(Swap(s, i, j)) == multiset(s);
    }
  }

  /** The order `shuffle` leaves `s` in when its draws start at k. */
  function Shuffled<T>(s: seq<T>, rand: Random, k: nat): (r: seq<T>)
    requires IsRandom(rand)
    ensures |r| == |s|
  {
    FisherYates(s, |s| - 1, rand, k)
  }

  /** A shuffle is a permutation: same multiset, same members, and no
      duplicates introduced. */
  lemma ShuffledPermutes<T>(s: seq<T>, rand: Random, k: nat)
    requires IsRandom(rand)
    ensures multiset(Shuffled(s, rand, k)) == multiset(s)
    ensures forall x :: x in Shuffled(s, rand, k) <==> x in s
    ensures Distinct(s) ==> Distinct(Shuffled(s, rand, k))
  {
    var r := Shuffled(s, rand, k);
    FisherYatesPermutes(s, |s| - 1, rand, k);
    assert forall x :: x in r <==> x in multiset(r);
    PermutationDistinct(s, r);
  }

  /** How many draws a shuffle of n elements takes. */
  function ShuffleDraws(n: nat): nat { if n <= 1 then 0 else n - 1 }

  /** `shuffle`: in-place Fisher-Yates. */
  method Shuffle<T>(arr: array<T>, rand: Random, k: nat) returns (next: nat)
    requires IsRandom(rand)
    modifies arr
    ensures arr[..] == Shuffled(old(arr[..]), rand, k)
    ensures next == k + ShuffleDraws(arr.Length)
  {
    ghost var target := FisherYates(arr[..], arr.Length - 1, rand, k);
    var i := arr.Length - 1;
    next := k;
    while i > 0
      invariant -1 <= i < arr.Length && (arr.Length > 0 ==> i >= 0)
      invariant next == k + (arr.Length - 1 - i)
      invariant FisherYates(arr[..], i, rand, next) == target
    {
      ghost var before := arr[..];
      var j := Draw(rand(next), i + 1);
      arr[i], arr[j] := arr[j], arr[i];
      assert arr[..] == Swap(before, i, j);
      next := next + 1;
      i := i - 1;
    }
  }

  // -------------------------------------------------------- distractors

  /** The ten perturbations of the product, in the order they are added. */
  function Perturbations(correct: int, a: int, b: int): seq<int> {
    [a * (b + 1), a * (b - 1), (a + 1) * b, (a - 1) * b,
     correct + a, correct - a, correct + 10, correct - 10, correct + 1, correct - 1]
  }

  /** `Set.add` on a set kept in insertion order. */
  function SetAdd(s: seq<int>, v: int): seq<int>
  {
    if v in s then s else s + [v]
  }

  lemma SetAddMembers(s: seq<int>, v: int)
    ensures forall x :: x in SetAdd(s, v) <==> x in s || x == v
    ensures Distinct(s) ==> Distinct(SetAdd(s, v))
  {
    DistinctSnoc(s, v);
  }

  /** `Set.delete`. */
  function SetDelete(s: seq<int>, v: int): (r: seq<int>)
    ensures forall x :: x in r <==> x in s && x != v
    ensures Distinct(s) ==> Distinct(r)
  {
    if s == [] then []
    else if s[0] == v then SetDelete(s[1..], v)
    else
      DistinctCons(s[0], s[1..]);
      assert s == [s[0]] + s[1..];
      DistinctCons(s[0], SetDelete(s[1..], v));
      [s[0]] + SetDelete(s[1..], v)
  }

  /** The set built by adding the values of vs in turn. */
  function Dedup(vs: seq<int>): seq<int>
  {
    if vs == [] then [] else SetAdd(Dedup(vs[..|vs| - 1]), vs[|vs| - 1])
  }

  lemma {:induction false} DedupMembers(vs: seq<int>)
    ensures Distinct(Dedup(vs))
    ensures forall x :: x in Dedup(vs) <==> x in vs
  {
    if vs != [] {
      var init := vs[..|vs| - 1];
      DedupMembers(init);
      SetAddMembers(Dedup(init), vs[|vs| - 1]);
      assert vs == init + [vs[|vs| - 1]];
    }
  }

  /** Adding one more value extends the set built so far. */
  lemma DedupSnoc(vs: seq<int>, n: nat)
    requires n < |vs|
    ensures Dedup(vs[..n + 1]) == SetAdd(Dedup(vs[..n]), vs[n])
  {
    assert vs[..n + 1][..n] == vs[..n];
  }

  /** The candidate set after the ten additions. */
  function Candidates(correct: int, a: int, b: int): seq<int>
  {
    Dedup(Perturbations(correct, a, b))
  }

  /** The members above zero, in order. */
  function Positives(s: seq<int>): (r: seq<int>)
    ensures forall x :: x in r <==> x in s && x > 0
    ensures Distinct(s) ==> Distinct(r)
  {
    if s == [] then []
    else if s[|s| - 1] > 0 then
      assert s == s[..|s| - 1] + [s[|s| - 1]];
      DistinctSnoc(s[..|s| - 1], s[|s| - 1]);
      DistinctSnoc(Positives(s[..|s| - 1]), s[|s| - 1]);
      Positives(s[..|s| - 1]) + [s[|s| - 1]]
    else
      assert s == s[..|s| - 1] + [s[|s| - 1]];
      DistinctSnoc(s[..|s| - 1], s[|s| - 1]);
      Positives(s[..|s| - 1])
  }

  /** The candidate set once the product and the non-positive values are gone. */
  function WrongPool(correct: int, a: int, b: int): seq<int>
  {
    Positives(SetDelete(Candidates(correct, a, b), correct))
  }

  /** The pool is exactly the positive perturbations other than the product,
      each once. */
  lemma WrongPoolMembers(correct: int, a: int, b: int)
    ensures Distinct(WrongPool(correct, a, b))
    ensures forall x :: x in WrongPool(correct, a, b) <==>
      x in Perturbations(correct, a, b) && x != correct && x > 0
  {
    DedupMembers(Perturbations(correct, a, b));
  }

  /** `generateWrongs` as a value: the first two of the shuffled pool. */
  function Wrongs(correct: int, a: int, b: int, rand: Random, k: nat): (w: seq<int>)
    requires IsRandom(rand)
    ensures |w| <= 2
  {
    var pool := WrongPool(correct, a, b);
    Shuffled(pool, rand, k)[..Min(2, |pool|)]
  }

  /** At most two distractors, two whenever the product is non-negative;
      distinct, positive, never the product, each one of the perturbations. */
  lemma WrongsProperties(correct: int, a: int, b: int, rand: Random, k: nat)
    requires IsRandom(rand)
    ensures var w := Wrongs(correct, a, b, rand, k);
      && |w| <= 2 && (correct >= 0 ==> |w| == 2)
      && Distinct(w)
      && forall x :: x in w ==> x > 0 && x != correct && x in Perturbations(correct, a, b)
  {
    var pool := WrongPool(correct, a, b);
    var r := Shuffled(pool, rand, k);
    WrongPoolMembers(correct, a, b);
    ShuffledPermutes(pool, rand, k);
    if correct >= 0 {
      PoolHasTwo(correct, a, b);
    }
    DistinctPrefix(r, Min(2, |pool|));
    assert forall x :: x in r[..Min(2, |pool|)] ==> x in r;
  }

  lemma TwoMembers(s: seq<int>, x: int, y: int)
    requires x in s && y in s && x != y
    ensures |s| >= 2
  {
  }

  /** For a non-negative product, correct+1 and correct+10 always survive,
      so at least two distractors exist. */
  lemma PoolHasTwo(correct: int, a: int, b: int)
    requires correct >= 0
    ensures correct + 1 in WrongPool(correct, a, b) && correct + 10 in WrongPool(correct, a, b)
    ensures |WrongPool(correct, a, b)| >= 2
  {
    var p := Perturbations(correct, a, b);
    assert p[8] == correct + 1 && p[6] == correct + 10;
    WrongPoolMembers(correct, a, b);
    TwoMembers(WrongPool(correct, a, b), correct + 1, correct + 10);
  }

  /** Deleting the unique occurrence of a value from the middle of a set. */
  lemma {:induction false} DeleteMiddle(p: seq<int>, v: int, rest: seq<int>)
    requires v !in p && v !in rest
    ensures SetDelete(p + [v] + rest, v) == p + rest
  {
    var s := p + [v] + rest;
    if p == [] {
      assert s[0] == v && s[1..] == rest;
      DeleteAbsent(rest, v);
    } else {
      assert s[0] == p[0] && s[1..] == p[1..] + [v] + rest;
      DeleteMiddle(p[1..], v, rest);
      assert p + rest == [p[0]] + (p[1..] + rest);
    }
  }

  lemma {:induction false} DeleteAbsent(s: seq<int>, v: int)
    requires v !in s
    ensures SetDelete(s, v) == s
  {
    if s != [] {
      DeleteAbsent(s[1..], v);
      assert [s[0]] + s[1..] == s;
    }
  }

  /** `generateWrongs`: up to two distractors, drawn from the shuffled pool. */
  method GenerateWrongs(correct: int, a: int, b: int, rand: Random, k: nat) returns (wrongs: seq<int>, next: nat)
    requires IsRandom(rand)
    ensures wrongs == Wrongs(correct, a, b, rand, k)
    ensures next == k + ShuffleDraws(|WrongPool(correct, a, b)|)
  {
    var candidates := AddPerturbations(correct, a, b);
    DedupMembers(Perturbations(correct, a, b));
    candidates := SetDelete(candidates, correct);
    candidates := DropNonPositive(candidates);
    var arr := new int[|candidates|](j requires 0 <= j < |candidates| => candidates[j]);
    assert arr[..] == candidates;
    next := Shuffle(arr, rand, k);
    wrongs := arr[..Min(2, arr.Length)];
  }

  /** The ten `candidates.add` calls. */
  method AddPerturbations(correct: int, a: int, b: int) returns (candidates: seq<int>)
    ensures candidates == Candidates(correct, a, b)
  {
    ghost var p := Perturbations(correct, a, b);
    assert p[..0] == [];
    candidates := [];
    AddStep(p, 0, candidates, a * (b + 1));
    candidates := SetAdd(candidates, a * (b + 1));
    AddStep(p, 1, candidates, a * (b - 1));
    candidates := SetAdd(candidates, a * (b - 1));
    AddStep(p, 2, candidates, (a + 1) * b);
    candidates := SetAdd(candidates, (a + 1) * b);
    AddStep(p, 3, candidates, (a - 1) * b);
    candidates := SetAdd(candidates, (a - 1) * b);
    AddStep(p, 4, candidates, correct + a);
    candidates := SetAdd(candidates, correct + a);
    AddStep(p, 5, candidates, correct - a);
    candidates := SetAdd(candidates, correct - a);
    AddStep(p, 6, candidates, correct + 10);
    candidates := SetAdd(candidates, correct + 10);
    AddStep(p, 7, candidates, correct - 10);
    candidates := SetAdd(candidates, correct - 10);
    AddStep(p, 8, candidates, correct + 1);
    candidates := SetAdd(candidates, correct + 1);
    AddStep(p, 9, candidates, correct - 1);
    candidates := SetAdd(candidates, correct - 1);
    assert p[..10] == p;
  }

  /** One `candidates.add`: the set built so far grows by the next perturbation. */
  lemma AddStep(p: seq<int>, n: nat, built: seq<int>, v: int)
    requires n < |p| && built == Dedup(p[..n]) && v == p[n]
    ensures SetAdd(built, v) == Dedup(p[..n + 1])
  {
    DedupSnoc(p, n);
  }

  /** The loop over the set deleting each non-positive member as it is
      visited; deleting the visited member does not disturb the iteration
      over the rest. */
  method DropNonPositive(visiting: seq<int>) returns (candidates: seq<int>)
    requires Distinct(visiting)
    ensures candidates == Positives(visiting)
  {
    candidates := visiting;
    var i := 0;
    while i < |visiting|
      invariant 0 <= i <= |visiting|
      invariant candidates == Positives(visiting[..i]) + visiting[i..]
    {
      var c := visiting[i];
      DropStep(visiting, i);
      if c <= 0 {
        candidates := SetDelete(candidates, c);
      }
      i := i + 1;
    }
    assert visiting[..i] == visiting;
  }

  /** One visit of the filter loop. */
  lemma DropStep(visiting: seq<int>, i: nat)
    requires Distinct(visiting) && i < |visiting|
    ensures var c := visiting[i];
      var next := Positives(visiting[..i + 1]) + visiting[i + 1..];
      if c <= 0 then SetDelete(Positives(visiting[..i]) + visiting[i..], c) == next
      else Positives(visiting[..i]) + visiting[i..] == next
  {
    var c := visiting[i];
    var kept := Positives(visiting[..i]);
    var rest := visiting[i + 1..];
    assert visiting[..i + 1] == visiting[..i] + [c];
    PositivesSnoc(visiting[..i], c);
    assert visiting[i..] == [c] + rest;
    assert kept + visiting[i..] == kept + [c] + rest;
    if c <= 0 {
      DistinctSuffix(visiting, i);
      DistinctCons(c, rest);
      DeleteMiddle(kept, c, rest);
    }
  }

  lemma PositivesSnoc(p: seq<int>, c: int)
    ensures Positives(p + [c]) == if c > 0 then Positives(p) + [c] else Positives(p)
  {
    assert (p + [c])[..|p|] == p;
  }

  lemma DistinctSuffix<T>(s: seq<T>, n: nat)
    requires Distinct(s) && n <= |s|
    ensures Distinct(s[n..])
  {
    assert forall p, q :: 0 <= p < q < |s| - n ==> s[n..][p] == s[n + p] && s[n..][q] == s[n + q];
  }

  // ----------------------------------------------------------- question

  function QuestionText(a: int, b: int): string {
    IntToString(a) + " × " + IntToString(b) + " = ?"
  }

  lemma ProductPositive(a: int, b: int)
    requires a >= 1 && b >= 1
    ensures a * b >= 1
  {
  }

  /** The question for operands a and b, the distractor draws starting at
      k, and the draw index after the answers' shuffle. */
  function MakeQuestion(a: int, b: int, rand: Random, k: nat): (r: (Question, nat))
    requires IsRandom(rand) && a >= 1 && b >= 1
    ensures r.0.a == a && r.0.b == b && r.0.correct == a * b
  {
    var correct := a * b;
    ProductPositive(a, b);
    WrongsProperties(correct, a, b, rand, k);
    Assemble(a, b, Wrongs(correct, a, b, rand, k), rand, k + ShuffleDraws(|WrongPool(correct, a, b)|))
  }

  /** The question once its two distractors are known. */
  function Assemble(a: int, b: int, w: seq<int>, rand: Random, k: nat): (Question, nat)
    requires IsRandom(rand) && |w| == 2
  {
    var answers := Shuffled([Answer(a * b, true), Answer(w[0], false), Answer(w[1], false)], rand, k);
    (Question(QuestionText(a, b), a, b, a * b, answers), k + 2)
  }

  /** Exactly one of three answers is correct, it carries the product, and
      all values are positive and pairwise distinct. */
  ghost predicate WellFormed(q: Question) {
    && q.correct == q.a * q.b
    && |q.answers| == 3
    && (forall i :: 0 <= i < 3 ==> q.answers[i].value > 0)
    && (forall i :: 0 <= i < 3 ==> (q.answers[i].isCorrect <==> q.answers[i].value == q.correct))
    && (exists i :: 0 <= i < 3 && q.answers[i].isCorrect)
    && (forall i, j :: 0 <= i < j < 3 ==> q.answers[i].value != q.answers[j].value)
  }

  lemma MakeQuestionWellFormed(a: int, b: int, rand: Random, k: nat)
    requires IsRandom(rand) && a >= 1 && b >= 1
    ensures WellFormed(MakeQuestion(a, b, rand, k).0)
  {
    var correct := a * b;
    ProductPositive(a, b);
    TwoDistractors(correct, a, b, rand, k);
    var w := Wrongs(correct, a, b, rand, k);
    var next := k + ShuffleDraws(|WrongPool(correct, a, b)|);
    AssembleWellFormed(a, b, w, rand, next);
    MakeQuestionAssembles(a, b, rand, k);
  }

  /** The question is assembled from the distractors, after their draws. */
  lemma MakeQuestionAssembles(a: int, b: int, rand: Random, k: nat)
    requires IsRandom(rand) && a >= 1 && b >= 1
    ensures |Wrongs(a * b, a, b, rand, k)| == 2
    ensures MakeQuestion(a, b, rand, k)
      == Assemble(a, b, Wrongs(a * b, a, b, rand, k), rand, k + ShuffleDraws(|WrongPool(a * b, a, b)|))
  {
    ProductPositive(a, b);
    WrongsProperties(a * b, a, b, rand, k);
  }

  /** For a positive product the two distractors are positive, distinct and not the product. */
  lemma TwoDistractors(correct: int, a: int, b: int, rand: Random, k: nat)
    requires IsRandom(rand) && correct >= 1
    ensures var w := Wrongs(correct, a, b, rand, k);
      |w| == 2 && w[0] > 0 && w[1] > 0 && w[0] != w[1] && w[0] != correct && w[1] != correct
  {
    WrongsProperties(correct, a, b, rand, k);
    var w := Wrongs(correct, a, b, rand, k);
    assert w[0] in w && w[1] in w;
  }

  lemma AssembleWellFormed(a: int, b: int, w: seq<int>, rand: Random, k: nat)
    requires IsRandom(rand) && |w| == 2 && a * b > 0 && w[0] > 0 && w[1] > 0
    requires w[0] != w[1] && w[0] != a * b && w[1] != a * b
    ensures WellFormed(Assemble(a, b, w, rand, k).0)
    ensures var q := Assemble(a, b, w, rand, k).0;
      forall i :: 0 <= i < 3 && !q.answers[i].isCorrect ==> q.answers[i].value in w
  {
    ShuffledAnswers(a * b, w[0], w[1], rand, k);
  }

  /** The two wrong answers are the distractors, hence perturbations of the product. */
  lemma MakeQuestionDistractors(a: int, b: int, rand: Random, k: nat)
    requires IsRandom(rand) && a >= 1 && b >= 1
    ensures var q := MakeQuestion(a, b, rand, k).0;
      forall i :: 0 <= i < |q.answers| && !q.answers[i].isCorrect ==>
        q.answers[i].value in Wrongs(a * b, a, b, rand, k) &&
        q.answers[i].value in Perturbations(a * b, a, b)
  {
    var correct := a * b;
    ProductPositive(a, b);
    TwoDistractors(correct, a, b, rand, k);
    var w := Wrongs(correct, a, b, rand, k);
    AssembleWellFormed(a, b, w, rand, k + ShuffleDraws(|WrongPool(correct, a, b)|));
    MakeQuestionAssembles(a, b, rand, k);
    WrongsProperties(correct, a, b, rand, k);
  }

  /** Shuffling the correct answer and two distinct distractors. */
  lemma ShuffledAnswers(correct: int, w0: int, w1: int, rand: Random, k: nat)
    requires IsRandom(rand) && correct > 0 && w0 > 0 && w1 > 0
    requires w0 != w1 && w0 != correct && w1 != correct
    ensures var answers := Shuffled([Answer(correct, true), Answer(w0, false), Answer(w1, false)], rand, k);
      && |answers| == 3
      && (forall i :: 0 <= i < 3 ==> answers[i].value > 0)
      && (forall i :: 0 <= i < 3 ==> (answers[i].isCorrect <==> answers[i].value == correct))
      && (exists i :: 0 <= i < 3 && answers[i].isCorrect)
      && (forall i, j :: 0 <= i < j < 3 ==> answers[i].value != answers[j].value)
      && (forall i :: 0 <= i < 3 && !answers[i].isCorrect ==> answers[i].value == w0 || answers[i].value == w1)
  {
    var original := [Answer(correct, true), Answer(w0, false), Answer(w1, false)];
    assert Distinct(original);
    var answers := Shuffled(original, rand, k);
    ShuffledPermutes(original, rand, k);
    assert Answer(correct, true) in answers;
    forall i | 0 <= i < 3
      ensures answers[i] in original
    {
      assert answers[i] in answers;
    }
  }

  /** The operands `generateQuestion` draws for `level` from draw `k` on:
      for the mixed table `a` comes from 2..10 first, otherwise it is the
      table; `b` comes from 1..10.  The third component is the next unused draw. */
  function Operands(level: LevelData, rand: Random, k: nat): (r: (int, int, nat))
    requires IsRandom(rand) && level.table >= 0
    ensures 1 <= r.0 && 1 <= r.1 <= 10
    ensures level.table != 0 ==> r.0 == level.table
    ensures level.table == 0 ==> 2 <= r.0 <= 10
  {
    if level.table == 0 then (2 + Draw(rand(k), 9), 1 + Draw(rand(k + 1), 10), k + 2)
    else (level.table, 1 + Draw(rand(k), 10), k + 1)
  }

  /** The question `generateQuestion` poses for `level` from draw `k` on,
      with the index of the next unused draw. */
  function QuestionFor(level: LevelData, rand: Random, k: nat): (r: (Question, nat))
    requires IsRandom(rand) && level.table >= 0
    ensures r.0.correct == r.0.a * r.0.b && 1 <= r.0.b <= 10
    ensures level.table != 0 ==> r.0.a == level.table
    ensures level.table == 0 ==> 2 <= r.0.a <= 10
    ensures r.1 > k
  {
    var (a, b, n) := Operands(level, rand, k);
    MakeQuestion(a, b, rand, n)
  }

  /** The product of the operands is the correct answer and the question
      is well formed. */
  lemma QuestionForShape(level: LevelData, rand: Random, k: nat)
    requires IsRandom(rand) && level.table >= 0
    ensures var (a, b, n) := Operands(level, rand, k);
      var q := QuestionFor(level, rand, k).0;
      && q.a == a && q.b == b && q.correct == a * b
      && q.text == QuestionText(a, b)
      && WellFormed(q)
  {
    var (a, b, n) := Operands(level, rand, k);
    MakeQuestionWellFormed(a, b, rand, n);
  }

  /** `generateQuestion`: draws the operands (a only for the mixed table),
      then the distractors and the answers' order. */
  method GenerateQuestion(level: LevelData, rand: Random, k: nat) returns (q: Question, next: nat)
    requires IsRandom(rand) && level.table >= 0
    ensures (q, next) == QuestionFor(level, rand, k)
  {
    next := k;
    var a: int;
    if level.table == 0 {
      a := 2 + Draw(rand(next), 9);
      next := next + 1;
    } else {
      a := level.table;
    }
    var b := 1 + Draw(rand(next), 10);
    next := next + 1;
    assert (a, b, next) == Operands(level, rand, k);
    QuestionForOperands(level, rand, k, a, b, next);
    q, next := Ask(a, b, rand, next);
  }

  /** The question for a level is the question for its drawn operands. */
  lemma QuestionForOperands(level: LevelData, rand: Random, k: nat, a: int, b: int, n: nat)
    requires IsRandom(rand) && level.table >= 0 && (a, b, n) == Operands(level, rand, k)
    ensures a >= 1 && b >= 1 && QuestionFor(level, rand, k) == MakeQuestion(a, b, rand, n)
  {
  }

  /** The part of `generateQuestion` after the operands are known. */
  method Ask(a: int, b: int, rand: Random, k: nat) returns (q: Question, next: nat)
    requires IsRandom(rand) && a >= 1 && b >= 1
    ensures (q, next) == MakeQuestion(a, b, rand, k)
  {
    var correct := a * b;
    ProductPositive(a, b);
    var wrongs;
    wrongs, next := GenerateWrongs(correct, a, b, rand, k);
    MakeQuestionAssembles(a, b, rand, k);
    q, next := AssembleAnswers(a, b, wrongs, rand, next);
  }

  method AssembleAnswers(a: int, b: int, wrongs: seq<int>, rand: Random, k: nat) returns (q: Question, next: nat)
    requires IsRandom(rand) && |wrongs| == 2
    ensures (q, next) == Assemble(a, b, wrongs, rand, k)
  {
    var correct := a * b;
    var arr := new Answer[] [Answer(correct, true), Answer(wrongs[0], false), Answer(wrongs[1], false)];
    assert arr[..] == [Answer(correct, true), Answer(wrongs[0], false), Answer(wrongs[1], false)];
    next := Shuffle(arr, rand, k);
    q := Question(QuestionText(a, b), a, b, correct, arr[..]);
  }

  // ---------------------------------------------------------- placement

  datatype Zone = Zone(x: real, y: real)

  /** The three fixed zone centres inside the wall area of the canvas. */
  function Zones(canvasW: real, canvasH: real): seq<Zone> {
    var wallTop := canvasH * 0.25;
    var wallBottom := canvasH * 0.72;
    var wallLeft := canvasW * 0.12;
    var wallRight := canvasW * 0.88;
    [Zone(wallLeft + (wallRight - wallLeft) * 0.2, wallTop + (wallBottom - wallTop) * 0.55),
     Zone(wallLeft + (wallRight - wallLeft) * 0.5, wallTop + (wallBottom - wallTop) * 0.35),
     Zone(wallLeft + (wallRight - wallLeft) * 0.8, wallTop + (wallBottom - wallTop) * 0.65)]
  }

  lemma ColorsDistinct()
    ensures Distinct(GraffitiColors)
  {
    assert GraffitiColors[0][1] != GraffitiColors[1][1];
    assert GraffitiColors[0][1] != GraffitiColors[2][1];
    assert GraffitiColors[1][3] != GraffitiColors[2][3];
  }

  /** Tile `t` shows answer `ans` in colour `color` at the jittered centre
      of `zone`, its draws starting at `n`, in its initial unwashed state. */
  ghost predicate Placed(t: GraffitiAnswer, ans: Answer, zone: Zone, color: string, rand: Random, n: nat,
                         glyph: string -> seq<Byte>)
    reads t, t.mask
  {
    && t.Valid() && t.State() == Initial()
    && t.text == IntToString(ans.value)
    && t.isCorrect == ans.isCorrect
    && t.color == color
    && t.x == zone.x + (rand(n) - 0.5) * 20.0
    && t.y == zone.y + (rand(n + 1) - 0.5) * 15.0
    && t.rotation == (rand(n + 2) - 0.5) * 0.15
    && |glyph(t.text)| == ImageBytes && t.alpha == AlphaChannel(glyph(t.text))
  }

  /** `placeAnswers`: shuffle the zones and the colours, then build one tile
      per answer with a jittered position; each tile takes three draws
      (two jitters, then its rotation). */
  method PlaceAnswers(answers: seq<Answer>, canvasW: real, canvasH: real, rand: Random, k: nat,
                      glyph: string -> seq<Byte>)
    returns (tiles: seq<GraffitiAnswer>, next: nat)
    requires IsRandom(rand) && |answers| <= 3
    requires forall text :: |glyph(text)| == ImageBytes
    ensures |tiles| == |answers|
    ensures forall i :: 0 <= i < |tiles| ==> fresh(tiles[i]) && fresh(tiles[i].mask)
    ensures AllPlaced(tiles, answers, Shuffled(Zones(canvasW, canvasH), rand, k),
                      Shuffled(GraffitiColors, rand, k + 2), rand, k + 4, glyph)
    ensures forall i, j :: 0 <= i < j < |tiles| ==>
      tiles[i] != tiles[j] && tiles[i].mask != tiles[j].mask && tiles[i].color != tiles[j].color
    ensures forall i :: 0 <= i < |tiles| ==> tiles[i].color in GraffitiColors
    ensures next == k + 4 + 3 * |answers|
  {
    var zones := ShuffleZones(canvasW, canvasH, rand, k);
    var colors := ShuffleColors(rand, k + 2);
    ShuffledPalette(rand, k + 2);
    tiles, next := MapAnswers(answers, zones, colors, rand, k + 4, glyph);
    AllPlacedEach(tiles, answers, zones, colors, rand, k + 4, glyph);
    DistinctColours(tiles, colors);
  }

  /** The shuffled palette holds the three colours, each once. */
  lemma ShuffledPalette(rand: Random, k: nat)
    requires IsRandom(rand)
    ensures |Shuffled(GraffitiColors, rand, k)| == 3
    ensures Distinct(Shuffled(GraffitiColors, rand, k))
    ensures forall x :: x in Shuffled(GraffitiColors, rand, k) <==> x in GraffitiColors
  {
    ColorsDistinct();
    ShuffledPermutes(GraffitiColors, rand, k);
  }

  /** Tiles painted in the order of a shuffled palette have pairwise
      different colours, all from the palette. */
  lemma DistinctColours(tiles: seq<GraffitiAnswer>, colors: seq<string>)
    requires |tiles| <= |colors| && Distinct(colors)
    requires forall x :: x in colors <==> x in GraffitiColors
    requires forall n :: 0 <= n < |tiles| ==> tiles[n].color == colors[n]
    ensures forall i, j :: 0 <= i < j < |tiles| ==> tiles[i].color != tiles[j].color
    ensures forall i :: 0 <= i < |tiles| ==> tiles[i].color in GraffitiColors
  {
    assert forall n :: 0 <= n < |tiles| ==> colors[n] in colors;
  }

  /** The `shuffle(zones)` of `placeAnswers`: two draws from `k`. */
  method ShuffleZones(canvasW: real, canvasH: real, rand: Random, k: nat) returns (zones: seq<Zone>)
    requires IsRandom(rand)
    ensures zones == Shuffled(Zones(canvasW, canvasH), rand, k)
  {
    var arr := new Zone[3](i requires 0 <= i < 3 => Zones(canvasW, canvasH)[i]);
    assert arr[..] == Zones(canvasW, canvasH);
    var next := Shuffle(arr, rand, k);
    zones := arr[..];
  }

  /** The shuffle of the colour copy in `placeAnswers`: two draws from `k`. */
  method ShuffleColors(rand: Random, k: nat) returns (colors: seq<string>)
    requires IsRandom(rand)
    ensures colors == Shuffled(GraffitiColors, rand, k)
  {
    var arr := new string[3](i requires 0 <= i < 3 => GraffitiColors[i]);
    assert arr[..] == GraffitiColors;
    var next := Shuffle(arr, rand, k);
    colors := arr[..];
  }

  /** The `answers.map(...)` of `placeAnswers`. */
  method MapAnswers(answers: seq<Answer>, zones: seq<Zone>, colors: seq<string>, rand: Random, k: nat,
                    glyph: string -> seq<Byte>)
    returns (tiles: seq<GraffitiAnswer>, next: nat)
    requires IsRandom(rand) && |answers| <= |zones| && |answers| <= |colors|
    requires forall text :: |glyph(text)| == ImageBytes
    ensures |tiles| == |answers| && next == k + 3 * |answers|
    ensures forall n :: 0 <= n < |tiles| ==> fresh(tiles[n]) && fresh(tiles[n].mask)
    ensures AllPlaced(tiles, answers, zones, colors, rand, k, glyph)
    ensures forall n, m :: 0 <= n < m < |tiles| ==> tiles[n] != tiles[m] && tiles[n].mask != tiles[m].mask
  {
    tiles := [];
    next := k;
    var i := 0;
    while i < |answers|
      invariant 0 <= i <= |answers| && |tiles| == i && next == k + 3 * i
      invariant forall n :: 0 <= n < i ==> fresh(tiles[n]) && fresh(tiles[n].mask)
      invariant AllPlaced(tiles, answers, zones, colors, rand, k, glyph)
      invariant forall n, m :: 0 <= n < m < i ==> tiles[n] != tiles[m] && tiles[n].mask != tiles[m].mask
    {
      ghost var prev := tiles;
      var tile := NewTile(answers[i], zones[i], colors[i], rand, next, glyph);
      tiles := tiles + [tile];
      AllPlacedSnoc(prev, tile, answers, zones, colors, rand, k, glyph);
      next := next + 3;
      i := i + 1;
    }
  }

  /** Every tile built so far sits where its answer, zone, colour and draws put it. */
  ghost predicate AllPlaced(tiles: seq<GraffitiAnswer>, answers: seq<Answer>, zones: seq<Zone>, colors: seq<string>,
                            rand: Random, k: nat, glyph: string -> seq<Byte>)
    reads set n | 0 <= n < |tiles| :: tiles[n]
    reads set n | 0 <= n < |tiles| :: tiles[n].mask
  {
    && |tiles| <= |answers| && |tiles| <= |zones| && |tiles| <= |colors|
    && forall n :: 0 <= n < |tiles| ==> Placed(tiles[n], answers[n], zones[n], colors[n], rand, k + 3 * n, glyph)
  }

  lemma AllPlacedSnoc(prev: seq<GraffitiAnswer>, tile: GraffitiAnswer, answers: seq<Answer>, zones: seq<Zone>,
                      colors: seq<string>, rand: Random, k: nat, glyph: string -> seq<Byte>)
    requires AllPlaced(prev, answers, zones, colors, rand, k, glyph)
    requires |prev| < |answers| && |prev| < |zones| && |prev| < |colors|
    requires Placed(tile, answers[|prev|], zones[|prev|], colors[|prev|], rand, k + 3 * |prev|, glyph)
    ensures AllPlaced(prev + [tile], answers, zones, colors, rand, k, glyph)
  {
    var tiles := prev + [tile];
    forall n | 0 <= n < |tiles|
      ensures Placed(tiles[n], answers[n], zones[n], colors[n], rand, k + 3 * n, glyph)
    {
      if n < |prev| {
        assert tiles[n] == prev[n];
      }
    }
  }

  lemma AllPlacedEach(tiles: seq<GraffitiAnswer>, answers: seq<Answer>, zones: seq<Zone>, colors: seq<string>,
                      rand: Random, k: nat, glyph: string -> seq<Byte>)
    requires AllPlaced(tiles, answers, zones, colors, rand, k, glyph)
    ensures forall n :: 0 <= n < |tiles| ==> Placed(tiles[n], answers[n], zones[n], colors[n], rand, k + 3 * n, glyph)
    ensures forall n :: 0 <= n < |tiles| ==> tiles[n].color == colors[n]
  {
  }

  /** Every placed tile is a valid tile. */
  lemma AllPlacedValid(tiles: seq<GraffitiAnswer>, answers: seq<Answer>, zones: seq<Zone>, colors: seq<string>,
                       rand: Random, k: nat, glyph: string -> seq<Byte>)
    requires AllPlaced(tiles, answers, zones, colors, rand, k, glyph)
    ensures forall n :: 0 <= n < |tiles| ==> tiles[n].Valid()
  {
  }

  /** The `new GraffitiAnswer(...)` of one answer. */
  method NewTile(ans: Answer, zone: Zone, color: string, rand: Random, n: nat, glyph: string -> seq<Byte>)
    returns (tile: GraffitiAnswer)
    requires IsRandom(rand) && forall text :: |glyph(text)| == ImageBytes
    ensures fresh(tile) && fresh(tile.mask)
    ensures Placed(tile, ans, zone, color, rand, n, glyph)
  {
    var text := IntToString(ans.value);
    var tileX := zone.x + (rand(n) - 0.5) * 20.0;
    var tileY := zone.y + (rand(n + 1) - 0.5) * 15.0;
    tile := new GraffitiAnswer(text, tileX, tileY, color, ans.isCorrect, rand(n + 2), glyph(text));
  }
}
