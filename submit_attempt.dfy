/** The `submit_attempt` handler of index.php: it reads the posted
    `choice_left_<left pair id>` fields into an answers array, scores it by
    comparing each left pair id with the chosen right pair id, and writes one
    `attempts` row and one `attempt_answer` row per answer in a single
    transaction. */
module SubmitAttempt {
  import opened Php
  import opened Store

  /** One posted field, as the browser sent it: the model reads the posted
      fields in order, not the `$_POST` array PHP builds from them (see
      README for how the two differ). */
  datatype Field = Field(key: string, value: string)

  const ChoicePrefix: string := "choice_left_"

  /** `strpos($k, 'choice_left_') === 0`. */
  predicate IsChoice(f: Field) { ChoicePrefix <= f.key }

  /** `intval(substr($k, strlen('choice_left_')))`. */
  function LeftIdOf(f: Field): int
    requires IsChoice(f)
  {
    IntVal(f.key[|ChoicePrefix|..])
  }

  /** The PHP array `$answers`: its keys in insertion order and its entries. */
  datatype Answers = Answers(order: seq<int>, choice: map<int, int>)

  ghost predicate WellFormed(a: Answers)
  {
    && (forall i, j :: 0 <= i < j < |a.order| ==> a.order[i] != a.order[j])
    && (forall k :: k in a.choice <==> k in a.order)
  }

  /** `$answers[$k] = $v`: a new key goes last, an existing key keeps its place
      and takes the new value. */
  function Put(a: Answers, k: int, v: int): (r: Answers)
    requires WellFormed(a)
    ensures WellFormed(r)
    ensures r.choice == a.choice[k := v]
  {
    Answers(if k in a.choice then a.order else a.order + [k], a.choice[k := v])
  }

  /** The answers array after the `foreach ($_POST ...)` loop has read `post`. */
  function ParseAnswers(post: seq<Field>): (a: Answers)
    ensures WellFormed(a)
  {
    if post == [] then Answers([], map[])
    else
      var a := ParseAnswers(post[..|post| - 1]);
      var f := post[|post| - 1];
      if IsChoice(f) then Put(a, LeftIdOf(f), IntVal(f.value)) else a
  }

  lemma ParseSnoc(post: seq<Field>, f: Field)
    ensures ParseAnswers(post + [f]) ==
      if IsChoice(f) then Put(ParseAnswers(post), LeftIdOf(f), IntVal(f.value)) else ParseAnswers(post)
  {
    assert (post + [f])[..|post|] == post;
  }

  /** The loop of index.php:178-184. */
  method CollectAnswers(post: seq<Field>) returns (answers: Answers)
    ensures answers == ParseAnswers(post)
    ensures WellFormed(answers)
  {
    answers := Answers([], map[]);
    for i := 0 to |post|
      invariant answers == ParseAnswers(post[..i])
    {
      ParseSnoc(post[..i], post[i]);
      assert post[..i] + [post[i]] == post[..i + 1];
      var f := post[i];
      if ChoicePrefix <= f.key {
        var leftPairId := IntVal(f.key[|ChoicePrefix|..]);
        var chosenRightPairId := IntVal(f.value);
        answers := Put(answers, leftPairId, chosenRightPairId);
      }
    }
    assert post[..|post|] == post;
  }

  /** The posted field `f` is a choice for left pair id `k`. */
  predicate Names(f: Field, k: int) { IsChoice(f) && LeftIdOf(f) == k }

  /** A left pair id is answered exactly when some posted `choice_left_` key
      reads as that id. */
  lemma {:induction false} AnsweredIffPosted(post: seq<Field>, k: int)
    ensures k in ParseAnswers(post).choice <==> exists i :: 0 <= i < |post| && Names(post[i], k)
  {
    if post != [] {
      var init := post[..|post| - 1];
      var f := post[|post| - 1];
      assert post == init + [f];
      ParseSnoc(init, f);
      AnsweredIffPosted(init, k);
      if k in ParseAnswers(init).choice {
        var i :| 0 <= i < |init| && Names(init[i], k);
        assert post[i] == init[i];
      } else if Names(f, k) {
        assert Names(post[|post| - 1], k);
      } else {
        forall i | 0 <= i < |post| ensures !Names(post[i], k) {
          if i < |init| {
            assert post[i] == init[i];
          }
        }
      }
    }
  }

  /** The value stored for a left pair id is the value of the last posted
      field that names it: a later key overwrites an earlier one. */
  lemma {:induction false} LastFieldWins(post: seq<Field>, i: int)
    requires 0 <= i < |post| && IsChoice(post[i])
    requires forall j :: i < j < |post| && IsChoice(post[j]) ==> LeftIdOf(post[j]) != LeftIdOf(post[i])
    ensures LeftIdOf(post[i]) in ParseAnswers(post).choice
    ensures ParseAnswers(post).choice[LeftIdOf(post[i])] == IntVal(post[i].value)
  {
    var init := post[..|post| - 1];
    if i < |post| - 1 {
      assert init[i] == post[i];
      forall j | i < j < |init| && IsChoice(init[j]) ensures LeftIdOf(init[j]) != LeftIdOf(init[i]) {
        assert init[j] == post[j];
      }
      LastFieldWins(init, i);
    }
  }

  /** Fields whose key lacks the `choice_left_` prefix are ignored. */
  lemma {:induction false} IgnoredFields(post: seq<Field>)
    requires forall f :: f in post ==> !IsChoice(f)
    ensures ParseAnswers(post) == Answers([], map[])
  {
    if post != [] {
      IgnoredFields(post[..|post| - 1]);
    }
  }

  /** The radio fields the view-mode form posts: for each left pair id on the
      page, in page order, its group `choice_left_<id>` with the checked right
      pair id as value, when one is checked. */
  function RadioFields(lefts: seq<int>, checked: map<int, int>): seq<Field>
  {
    if lefts == [] then []
    else
      var l := lefts[|lefts| - 1];
      RadioFields(lefts[..|lefts| - 1], checked) +
        (if l in checked then [Radio(l, checked[l])] else [])
  }

  /** The field of a checked radio: `choice_left_<left>` with value `<right>`. */
  function Radio(left: int, right: int): Field
  {
    Field(ChoicePrefix + Decimal(left), Decimal(right))
  }

  lemma RadioReadsBack(left: int, right: int)
    ensures IsChoice(Radio(left, right))
    ensures LeftIdOf(Radio(left, right)) == left && IntVal(Radio(left, right).value) == right
  {
    var f := Radio(left, right);
    assert f.key[|ChoicePrefix|..] == Decimal(left);
    IntValOfDecimal(left);
    IntValOfDecimal(right);
  }

  /** Reading back what the form posted recovers the checked radios: the
      answers map is the checked choice of every left pair id on the page,
      whatever other fields (`action`, `quiz_id`) precede the radios. */
  lemma {:induction false} FormRoundTrip(header: seq<Field>, lefts: seq<int>, checked: map<int, int>)
    requires forall f :: f in header ==> !IsChoice(f)
    ensures ParseAnswers(header + RadioFields(lefts, checked)).choice == CheckedOn(lefts, checked)
  {
    if lefts == [] {
      assert header + RadioFields(lefts, checked) == header;
      IgnoredFields(header);
      assert CheckedOn(lefts, checked) == map[];
    } else {
      var init := lefts[..|lefts| - 1];
      var l := lefts[|lefts| - 1];
      FormRoundTrip(header, init, checked);
      var before := header + RadioFields(init, checked);
      assert lefts == init + [l];
      CheckedOnSnoc(init, l, checked);
      if l in checked {
        var f := Radio(l, checked[l]);
        assert header + RadioFields(lefts, checked) == before + [f];
        ParseSnoc(before, f);
        RadioReadsBack(l, checked[l]);
      } else {
        assert header + RadioFields(lefts, checked) == before;
      }
    }
  }

  /** The checked right pair id of each left pair id in `lefts` that has one. */
  function CheckedOn(lefts: seq<int>, checked: map<int, int>): map<int, int>
  {
    map l | l in lefts && l in checked :: checked[l]
  }

  lemma CheckedOnSnoc(init: seq<int>, l: int, checked: map<int, int>)
    ensures CheckedOn(init + [l], checked) ==
      if l in checked then CheckedOn(init, checked)[l := checked[l]] else CheckedOn(init, checked)
  {
    assert forall x :: x in init + [l] <==> x in init || x == l;
  }

  // ---------------------------------------------------------------------
  // Scoring
  // ---------------------------------------------------------------------

  /** The left pair ids answered with their own pair id (index.php:203). */
  function CorrectIds(a: Answers): set<int>
  {
    set k | k in a.choice && a.choice[k] == k
  }

  /** The correct answers among the keys `keys`. */
  function CorrectAmong(keys: seq<int>, choice: map<int, int>): set<int>
  {
    set k | k in keys && k in choice && choice[k] == k
  }

  lemma CorrectAmongSnoc(keys: seq<int>, k: int, choice: map<int, int>)
    requires k !in keys && k in choice
    ensures |CorrectAmong(keys + [k], choice)| ==
      |CorrectAmong(keys, choice)| + (if choice[k] == k then 1 else 0)
  {
    if choice[k] == k {
      assert CorrectAmong(keys + [k], choice) == CorrectAmong(keys, choice) + {k};
    } else {
      assert CorrectAmong(keys + [k], choice) == CorrectAmong(keys, choice);
    }
  }

  /** The answers array holding the single answer `n -> n` has exactly one
      correct answer. */
  lemma SingleCorrect(n: int)
    ensures CorrectIds(Answers([n], map[n := n])) == {n}
  {
    var c := CorrectIds(Answers([n], map[n := n]));
    assert n in c;
    assert forall k :: k in c ==> k == n;
  }

  /** A single posted choice gives a one-entry answers array. */
  lemma ParseSingle(f: Field)
    requires IsChoice(f)
    ensures ParseAnswers([f]) == Answers([LeftIdOf(f)], map[LeftIdOf(f) := IntVal(f.value)])
  {
    assert [f][..0] == [];
  }

  /** The pair ids of the quiz's first question, which the handler fetches,
      play no part in the score: the radio choice `n -> n` counts as correct
      even when `n` is no pair of the quiz. */
  lemma ForeignPairScores(t: Tables, attemptId: int, userId: Option<int>, quizId: int, n: int)
    requires n !in ValidPairIds(t, quizId)
    ensures var a := ParseAnswers([Radio(n, n)]);
      var r := Recorded(t, attemptId, userId, quizId, a);
      && a.choice == map[n := n]
      && r.attempts[|r.attempts| - 1].score == 1
  {
    RadioReadsBack(n, n);
    ParseSingle(Radio(n, n));
    SingleCorrect(n);
  }

  lemma SubsetCard(a: set<int>, b: set<int>)
    requires a <= b
    ensures |a| <= |b|
  {
    assert b == a + (b - a);
  }

  /** The scoring loop of index.php:193-204: `$score` and `$total`. */
  method ComputeScore(a: Answers) returns (score: int, total: int)
    requires WellFormed(a)
    ensures score == |CorrectIds(a)| && total == |a.choice|
    ensures 0 <= score <= total
  {
    score := 0;
    total := |a.choice|;
    for i := 0 to |a.order|
      invariant score == |CorrectAmong(a.order[..i], a.choice)|
    {
      var left := a.order[i];
      assert left !in a.order[..i];
      CorrectAmongSnoc(a.order[..i], left, a.choice);
      assert a.order[..i] + [left] == a.order[..i + 1];
      if left == a.choice[left] {
        score := score + 1;
      }
    }
    assert a.order[..|a.order|] == a.order;
    assert CorrectAmong(a.order, a.choice) == CorrectIds(a);
    SubsetCard(CorrectIds(a), a.choice.Keys);
  }

  // ---------------------------------------------------------------------
  // Persistence
  // ---------------------------------------------------------------------

  /** The row index.php:215-219 writes for one answer; the chosen text is
      looked up among all pairs, not only the quiz's. */
  function AnswerRow(attemptId: int, left: int, chosen: int, pairs: seq<Pair>): AttemptAnswer
  {
    AttemptAnswer(attemptId, left, RightTextOf(pairs, chosen), left == chosen)
  }

  /** The `attempt_answer` rows for the answered left ids `keys`, in order. */
  function AnswerRows(attemptId: int, keys: seq<int>, choice: map<int, int>, pairs: seq<Pair>): (rows: seq<AttemptAnswer>)
    requires forall k :: k in keys ==> k in choice
    ensures |rows| == |keys|
  {
    seq(|keys|, i requires 0 <= i < |keys| => AnswerRow(attemptId, keys[i], choice[keys[i]], pairs))
  }

  /** The number of rows flagged `is_correct`. */
  function CorrectRows(rows: seq<AttemptAnswer>): nat
  {
    if rows == [] then 0
    else CorrectRows(rows[..|rows| - 1]) + (if rows[|rows| - 1].isCorrect then 1 else 0)
  }

  /** The tables after a committed submission of answers `a`. */
  function Recorded(t: Tables, attemptId: int, userId: Option<int>, quizId: int, a: Answers): Tables
    requires WellFormed(a)
  {
    t.(attempts := t.attempts + [Attempt(attemptId, userId, quizId, |CorrectIds(a)|)],
       answers := t.answers + AnswerRows(attemptId, a.order, a.choice, t.pairs))
  }

  /** `SELECT pair_id FROM matching_pairs WHERE question_id = (SELECT
      question_id FROM question WHERE quiz_id = ? LIMIT 1)`: fetched by the
      handler and then never consulted. */
  function ValidPairIds(t: Tables, quizId: int): seq<int>
  {
    match FirstQuestionOf(t.questions, quizId)
    case None => []
    case Some(q) =>
      var ps := Filter(t.pairs, PairOfQuestion(q));
      seq(|ps|, i requires 0 <= i < |ps| => ps[i].id)
  }

  datatype Outcome =
    | Saved(score: int, total: int)   // commit, then redirect with "Score: score / total"
    | Failed                          // rollBack, `$error` set

  /** Statements run inside the transaction: the pair-id query, the attempt
      insert, then a lookup and an insert per answer. */
  function StatementCount(a: Answers): nat
  {
    2 + 2 * |a.order|
  }

  /** The per-answer loop of index.php:206-218: for the `j`-th answer, the
      right-text lookup is statement `2 + 2j` and the insert `3 + 2j`. A
      throwing statement ends the loop (`failed`), leaving the rows inserted
      so far for the caller's rollback. */
  method RecordAnswers(db: Database, attemptId: int, a: Answers, fault: Option<nat>)
    returns (failed: bool)
    requires WellFormed(a)
    modifies db
    ensures db.nextId == old(db.nextId)
    ensures failed <==> fault.Some? && 2 <= fault.value < StatementCount(a)
    ensures !failed ==>
      db.t == old(db.t).(answers := old(db.t).answers + AnswerRows(attemptId, a.order, a.choice, old(db.t).pairs))
  {
    var j := 0;
    while j < |a.order|
      invariant 0 <= j <= |a.order|
      invariant db.nextId == old(db.nextId)
      invariant fault.None? || !(2 <= fault.value < 2 + 2 * j)
      invariant db.t == old(db.t).(answers := old(db.t).answers + AnswerRows(attemptId, a.order[..j], a.choice, old(db.t).pairs))
    {
      var left := a.order[j];
      var chosen := a.choice[left];
      if FailsAt(fault, 2 + 2 * j) {
        return true;
      }
      var chosenText := RightTextOf(db.t.pairs, chosen);
      if FailsAt(fault, 3 + 2 * j) {
        return true;
      }
      db.InsertAnswer(AttemptAnswer(attemptId, left, chosenText, left == chosen));
      assert AnswerRows(attemptId, a.order[..j + 1], a.choice, old(db.t).pairs) ==
        AnswerRows(attemptId, a.order[..j], a.choice, old(db.t).pairs) + [AnswerRow(attemptId, left, chosen, old(db.t).pairs)];
      j := j + 1;
    }
    assert a.order[..j] == a.order;
    failed := false;
  }

  /** index.php:173-231. `fault`, when present, is the position of the
      statement that throws. */
  method Submit(db: Database, post: seq<Field>, userId: Option<int>, quizIdParam: string, fault: Option<nat>)
    returns (outcome: Outcome)
    requires db.Valid()
    modifies db
    ensures db.Valid() && db.nextId >= old(db.nextId)
    ensures var a := ParseAnswers(post);
      if fault.Some? && fault.value < StatementCount(a) then
        outcome == Failed && db.t == old(db.t)
      else
        && outcome == Saved(|CorrectIds(a)|, |a.choice|)
        && db.t == Recorded(old(db.t), old(db.nextId), userId, IntVal(quizIdParam), a)
  {
    var answers := CollectAnswers(post);
    var quizId := IntVal(quizIdParam);
    var snapshot := db.t;
    var score, total := ComputeScore(answers);

    if FailsAt(fault, 0) {
      db.Rollback(snapshot);
      return Failed;
    }
    var validPairs := ValidPairIds(db.t, quizId);

    if FailsAt(fault, 1) {
      db.Rollback(snapshot);
      return Failed;
    }
    var attemptId := db.InsertAttempt(userId, quizId, score);
    var failed := RecordAnswers(db, attemptId, answers, fault);
    if failed {
      db.Rollback(snapshot);
      IdsBelowGrows(snapshot, attemptId, db.nextId);
      return Failed;
    }
    RecordedKeepsIds(snapshot, attemptId, userId, quizId, answers);
    outcome := Saved(score, total);
  }

  /** Recording an attempt keeps the id invariant, one id further on. */
  lemma RecordedKeepsIds(t: Tables, attemptId: int, userId: Option<int>, quizId: int, a: Answers)
    requires WellFormed(a) && IdsBelow(t, attemptId)
    ensures IdsBelow(Recorded(t, attemptId, userId, quizId, a), attemptId + 1)
  {
    var t1 := t.(attempts := t.attempts + [Attempt(attemptId, userId, quizId, |CorrectIds(a)|)]);
    AppendAttemptKeepsIds(t, attemptId, t1.attempts[|t1.attempts| - 1]);
    var rows := AnswerRows(attemptId, a.order, a.choice, t.pairs);
    forall r | r in rows ensures r.attemptId < attemptId + 1 {
      var i :| 0 <= i < |rows| && rows[i] == r;
    }
    AppendAnswersKeepIds(t1, attemptId + 1, rows);
  }

  /** The rows of a recorded attempt: exactly one `attempt_answer` row per
      answer, and as many of them flagged correct as the attempt's score. */
  lemma RecordedAttemptIsConsistent(t: Tables, attemptId: int, userId: Option<int>, quizId: int, a: Answers)
    requires WellFormed(a)
    requires IdsBelow(t, attemptId)
    ensures var r := Recorded(t, attemptId, userId, quizId, a);
      var rows := Filter(r.answers, AnswerOfAttempt(attemptId));
      && |rows| == |a.choice|
      && CorrectRows(rows) == |CorrectIds(a)| == r.attempts[|r.attempts| - 1].score
      && 0 <= r.attempts[|r.attempts| - 1].score <= |rows|
  {
    var rows := AnswerRows(attemptId, a.order, a.choice, t.pairs);
    RowsOfNewAttempt(t.answers, attemptId, rows);
    CorrectRowsScore(attemptId, a, t.pairs);
    DistinctCount(a);
    SubsetCard(CorrectIds(a), a.choice.Keys);
  }

  /** The rows appended for a fresh attempt id are all the rows of that attempt. */
  lemma RowsOfNewAttempt(before: seq<AttemptAnswer>, attemptId: int, rows: seq<AttemptAnswer>)
    requires forall x :: x in before ==> x.attemptId < attemptId
    requires forall k :: 0 <= k < |rows| ==> rows[k].attemptId == attemptId
    ensures Filter(before + rows, AnswerOfAttempt(attemptId)) == rows
  {
    var keep := AnswerOfAttempt(attemptId);
    FilterAppend(before, rows, keep);
    FilterNone(before, keep);
    forall x | x in rows ensures keep(x) {
      var k :| 0 <= k < |rows| && rows[k] == x;
    }
    FilterAll(rows, keep);
  }

  /** The rows flagged correct are as many as the correct answers. */
  lemma CorrectRowsScore(attemptId: int, a: Answers, pairs: seq<Pair>)
    requires WellFormed(a)
    ensures CorrectRows(AnswerRows(attemptId, a.order, a.choice, pairs)) == |CorrectIds(a)|
  {
    CorrectRowsCount(attemptId, a, pairs, |a.order|);
    assert a.order[..|a.order|] == a.order;
    assert CorrectAmong(a.order, a.choice) == CorrectIds(a);
  }

  lemma {:induction false} CorrectRowsCount(attemptId: int, a: Answers, pairs: seq<Pair>, n: nat)
    requires WellFormed(a) && n <= |a.order|
    ensures CorrectRows(AnswerRows(attemptId, a.order[..n], a.choice, pairs)) == |CorrectAmong(a.order[..n], a.choice)|
  {
    if n > 0 {
      CorrectRowsCount(attemptId, a, pairs, n - 1);
      var rows := AnswerRows(attemptId, a.order[..n], a.choice, pairs);
      assert rows[..n - 1] == AnswerRows(attemptId, a.order[..n - 1], a.choice, pairs);
      assert a.order[..n - 1] + [a.order[n - 1]] == a.order[..n];
      assert a.order[n - 1] !in a.order[..n - 1];
      CorrectAmongSnoc(a.order[..n - 1], a.order[n - 1], a.choice);
    }
  }

  /** `count($answers)` is both the number of keys and the number of entries. */
  lemma DistinctCount(a: Answers)
    requires WellFormed(a)
    ensures |a.order| == |a.choice|
  {
    DistinctSeqCard(a.order);
    assert a.choice.Keys == set k | k in a.order;
  }

  lemma {:induction false} DistinctSeqCard(s: seq<int>)
    requires forall i, j :: 0 <= i < j < |s| ==> s[i] != s[j]
    ensures |set k | k in s| == |s|
  {
    if s != [] {
      var init := s[..|s| - 1];
      DistinctSeqCard(init);
      assert (set k | k in s) == (set k | k in init) + {s[|s| - 1]};
      assert s[|s| - 1] !in init;
    }
  }
}
