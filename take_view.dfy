/** What the quiz page loads for `?quiz_id=<id>&mode=view`: the quiz's first
    question and that question's pairs in `pair_id` order, which form the
    left column, and a shuffled copy of them, which forms the right column. */
module TakeView {
  import opened Php
  import opened Store

  /** `isset($_GET['quiz_id']) ? intval($_GET['quiz_id']) : null`. */
  function QuizIdOf(param: Option<string>): Option<int>
  {
    match param
    case None => None
    case Some(s) => Some(IntVal(s))
  }

  /** The `$pairs` index.php:44-60 loads: nothing unless the quiz id is
      truthy and the quiz exists; then the pairs of the quiz's first
      question. The rows come in table order, which the id invariant makes
      `pair_id` order (see `LoadedPairsAscending`). */
  function LoadPairs(t: Tables, quizId: Option<int>): (ps: seq<Pair>)
    ensures quizId.None? || quizId.value == 0 || OwnerOf(t.quizzes, quizId.value).None? ==> ps == []
    ensures forall p :: p in ps ==> p in t.pairs
  {
    if quizId.None? || quizId.value == 0 || OwnerOf(t.quizzes, quizId.value).None? then []
    else
      match FirstQuestionOf(t.questions, quizId.value)
      case None => []
      case Some(q) => Filter(t.pairs, PairOfQuestion(q))
  }

  /** The left column: every loaded pair belongs to the quiz's first
      question, every pair of that question is loaded, and they come in
      strictly ascending `pair_id` order, as `ORDER BY pair_id ASC` asks. */
  lemma LoadedPairsAscending(t: Tables, next: int, quizId: int)
    requires IdsBelow(t, next)
    requires quizId != 0 && OwnerOf(t.quizzes, quizId).Some?
    requires FirstQuestionOf(t.questions, quizId).Some?
    ensures var ps := LoadPairs(t, Some(quizId));
      var q := FirstQuestionOf(t.questions, quizId).value;
      && (forall p :: p in ps <==> p in t.pairs && p.questionId == q)
      && (forall i, j :: 0 <= i < j < |ps| ==> ps[i].id < ps[j].id)
  {
    var q := FirstQuestionOf(t.questions, quizId).value;
    FilterKeepsAscending(t.pairs, PairOfQuestion(q));
  }

  /** `s` with the elements at `i` and `j` exchanged. */
  function Swap(s: seq<Pair>, i: nat, j: nat): (r: seq<Pair>)
    requires i < |s| && j < |s|
    ensures |r| == |s|
  {
    s[i := s[j]][j := s[i]]
  }

  /** An exchange only reorders. */
  lemma SwapPermutes(s: seq<Pair>, i: nat, j: nat)
    requires i < |s| && j < |s|
    ensures multiset(Swap(s, i, j)) == multiset(s)
  {
    var t := s[i := s[j]];
    assert multiset(t) == multiset(s) - multiset{s[i]} + multiset{s[j]};
  }

  /** PHP's `shuffle` (Fisher–Yates from the top) on the positions `0..j`
      of `s`: for each position `k` from `j` down to 1, the element at `k`
      is exchanged with the one at a drawn index in `0..k`. `draws[k]`,
      reduced modulo `k + 1`, is the random number drawn for position `k`. */
  function FisherYates(s: seq<Pair>, draws: seq<nat>, j: int): seq<Pair>
    requires |draws| == |s| && j < |s|
    decreases j
  {
    if j <= 0 then s else FisherYates(Swap(s, j, draws[j] % (j + 1)), draws, j - 1)
  }

  /** Whatever the draws, the shuffle only reorders: it is a permutation. */
  lemma {:induction false} FisherYatesPermutes(s: seq<Pair>, draws: seq<nat>, j: int)
    requires |draws| == |s| && j < |s|
    ensures |FisherYates(s, draws, j)| == |s|
    ensures multiset(FisherYates(s, draws, j)) == multiset(s)
    decreases j
  {
    if j > 0 {
      var s' := Swap(s, j, draws[j] % (j + 1));
      SwapPermutes(s, j, draws[j] % (j + 1));
      FisherYatesPermutes(s', draws, j - 1);
      assert FisherYates(s, draws, j) == FisherYates(s', draws, j - 1);
    }
  }

  lemma FisherYatesStep(s: seq<Pair>, draws: seq<nat>, j: int)
    requires |draws| == |s| && 0 < j < |s|
    ensures FisherYates(s, draws, j) == FisherYates(Swap(s, j, draws[j] % (j + 1)), draws, j - 1)
  {
  }

  /** `shuffle($right)` in place on the array `a`: its new contents are
      the Fisher–Yates reordering of the old ones for the given draws,
      hence a permutation of them. */
  method Shuffle(a: array<Pair>, draws: seq<nat>)
    requires |draws| == a.Length
    modifies a
    ensures a[..] == FisherYates(old(a[..]), draws, a.Length - 1)
    ensures multiset(a[..]) == multiset(old(a[..]))
  {
    ghost var target := FisherYates(a[..], draws, a.Length - 1);
    var j := a.Length - 1;
    while j > 0
      invariant -1 <= j < a.Length
      invariant FisherYates(a[..], draws, j) == target
    {
      var r := draws[j] % (j + 1);
      ghost var before := a[..];
      FisherYatesStep(before, draws, j);
      var tmp := a[j];
      a[j] := a[r];
      a[r] := tmp;
      assert a[..] == Swap(before, j, r);
      j := j - 1;
    }
    FisherYatesPermutes(old(a[..]), draws, a.Length - 1);
  }

  /** index.php:251-256: in view mode with pairs loaded, the right column is
      a shuffled copy of `$pairs`; otherwise it is empty. `$pairs` itself is
      left as it is. */
  method PrepareRightColumn(mode: string, pairs: seq<Pair>, draws: seq<nat>) returns (right: seq<Pair>)
    requires |draws| == |pairs|
    ensures mode != "view" || pairs == [] ==> right == []
    ensures mode == "view" && pairs != [] ==> right == FisherYates(pairs, draws, |pairs| - 1)
    ensures mode == "view" && pairs != [] ==> |right| == |pairs| && multiset(right) == multiset(pairs)
  {
    right := [];
    if mode == "view" && pairs != [] {
      var shuffled := new Pair[|pairs|](i requires 0 <= i < |pairs| => pairs[i]);
      assert shuffled[..] == pairs;
      Shuffle(shuffled, draws);
      right := shuffled[..];
    }
  }

  /** Both columns show the same pairs, each as often: a right-hand option
      exists for every left-hand pair and for no other. */
  lemma ColumnsHoldSamePairs(pairs: seq<Pair>, right: seq<Pair>)
    requires multiset(right) == multiset(pairs)
    ensures forall p :: p in right <==> p in pairs
    ensures |right| == |pairs|
  {
    forall p ensures p in right <==> p in pairs {
      assert p in right <==> p in multiset(right);
      assert p in pairs <==> p in multiset(pairs);
    }
    assert |multiset(right)| == |multiset(pairs)|;
  }
}
