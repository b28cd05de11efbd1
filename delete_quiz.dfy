/** pages/delete_quiz.php: `?id=<n>` deletes quiz `n` with everything hanging
    off it — the answers of its attempts, its attempts, the pairs of its
    questions, its questions and the quiz row — in five DELETE statements
    inside one transaction. The page checks neither a login nor ownership. */
module DeleteQuiz {
  import opened Php
  import opened Store

  /** The tables after the five statements of pages/delete_quiz.php:13-30,
      each run on the state the previous one left. */
  function Cascade(t: Tables, quizId: int): Tables
  {
    var t1 := DeleteAnswersOfQuiz(t, quizId);
    var t2 := DeleteAttemptsOfQuiz(t1, quizId);
    var t3 := DeletePairsOfQuiz(t2, quizId);
    var t4 := DeleteQuestionsOfQuiz(t3, quizId);
    DeleteQuizRow(t4, quizId)
  }

  /** Exactly the rows of the quiz go: the quiz row, its questions, the
      pairs under those questions, its attempts and the answers of those
      attempts; every other row of every table stays. Because the answers
      are deleted while the attempts still exist, and the pairs while the
      questions still exist, the subqueries see the quiz's own attempts and
      questions. */
  lemma CascadeRemovesExactlyTheQuiz(t: Tables, quizId: int)
    ensures var c := Cascade(t, quizId);
      && (forall q :: q in c.quizzes <==> q in t.quizzes && q.id != quizId)
      && (forall q :: q in c.questions <==> q in t.questions && q.quizId != quizId)
      && (forall p :: p in c.pairs <==> p in t.pairs && p.questionId !in QuestionIdsOfQuiz(t.questions, quizId))
      && (forall a :: a in c.attempts <==> a in t.attempts && a.quizId != quizId)
      && (forall r :: r in c.answers <==> r in t.answers && r.attemptId !in AttemptIdsOfQuiz(t.attempts, quizId))
  {
  }

  /** After the cascade no row refers to the quiz any more: no question of
      it, no attempt of it, and no pair or answer whose parent row is gone. */
  lemma NoOrphansRemain(t: Tables, quizId: int)
    ensures var c := Cascade(t, quizId);
      && QuestionIdsOfQuiz(c.questions, quizId) == {}
      && AttemptIdsOfQuiz(c.attempts, quizId) == {}
      && (forall q :: q in c.quizzes ==> q.id != quizId)
      && (forall p :: p in c.pairs ==> p.questionId !in QuestionIdsOfQuiz(t.questions, quizId))
      && (forall r :: r in c.answers ==> r.attemptId !in AttemptIdsOfQuiz(t.attempts, quizId))
  {
    CascadeRemovesExactlyTheQuiz(t, quizId);
    var c := Cascade(t, quizId);
    assert forall q :: q in c.questions ==> q.quizId != quizId;
    assert forall a :: a in c.attempts ==> a.quizId != quizId;
  }

  /** Deleting a quiz twice is deleting it once: a repeated request finds
      nothing left to delete. */
  lemma CascadeIdempotent(t: Tables, quizId: int)
    ensures Cascade(Cascade(t, quizId), quizId) == Cascade(t, quizId)
  {
    var c := Cascade(t, quizId);
    CascadeRemovesExactlyTheQuiz(t, quizId);
    NoOrphansRemain(t, quizId);
    FilterAll(c.answers, AnswerNotUnder(AttemptIdsOfQuiz(c.attempts, quizId)));
    FilterAll(c.attempts, AttemptNotOfQuiz(quizId));
    FilterAll(c.pairs, PairNotUnder(QuestionIdsOfQuiz(c.questions, quizId)));
    FilterAll(c.questions, QuestionNotOfQuiz(quizId));
    FilterAll(c.quizzes, QuizNotWithId(quizId));
  }

  /** The order matters: deleting the attempts before their answers would
      leave the answers behind, since the subquery would no longer find
      their attempts. */
  lemma AttemptsFirstLeavesAnswers()
    ensures var t := Tables([], [], [], [Attempt(1, None, 7, 0)], [AttemptAnswer(1, 2, None, false)]);
      AttemptAnswer(1, 2, None, false) in DeleteAnswersOfQuiz(DeleteAttemptsOfQuiz(t, 7), 7).answers
      && AttemptAnswer(1, 2, None, false) !in Cascade(t, 7).answers
  {
    var t := Tables([], [], [], [Attempt(1, None, 7, 0)], [AttemptAnswer(1, 2, None, false)]);
    assert AttemptIdsOfQuiz(DeleteAttemptsOfQuiz(t, 7).attempts, 7) == {} by {
      assert DeleteAttemptsOfQuiz(t, 7).attempts == [];
    }
    assert 1 in AttemptIdsOfQuiz(t.attempts, 7) by {
      assert t.attempts[0] in t.attempts;
    }
    CascadeRemovesExactlyTheQuiz(t, 7);
  }

  /** Likewise deleting the questions before their pairs would leave the
      pairs behind. */
  lemma QuestionsFirstLeavesPairs()
    ensures var t := Tables([], [Question(3, 7, "")], [Pair(4, 3, "a", "b", 1)], [], []);
      Pair(4, 3, "a", "b", 1) in DeletePairsOfQuiz(DeleteQuestionsOfQuiz(t, 7), 7).pairs
      && Pair(4, 3, "a", "b", 1) !in Cascade(t, 7).pairs
  {
    var t := Tables([], [Question(3, 7, "")], [Pair(4, 3, "a", "b", 1)], [], []);
    assert QuestionIdsOfQuiz(DeleteQuestionsOfQuiz(t, 7).questions, 7) == {} by {
      assert DeleteQuestionsOfQuiz(t, 7).questions == [];
    }
    assert 3 in QuestionIdsOfQuiz(t.questions, 7) by {
      assert t.questions[0] in t.questions;
    }
    CascadeRemovesExactlyTheQuiz(t, 7);
  }

  /** The cascade only removes rows, so the id invariant survives it. */
  lemma CascadeKeepsIds(t: Tables, next: int, quizId: int)
    requires IdsBelow(t, next)
    ensures IdsBelow(Cascade(t, quizId), next)
  {
    var t1 := DeleteAnswersOfQuiz(t, quizId);
    DeletesKeepIds(t, next, quizId, 0);
    var t2 := DeleteAttemptsOfQuiz(t1, quizId);
    DeletesKeepIds(t1, next, quizId, 0);
    var t3 := DeletePairsOfQuiz(t2, quizId);
    DeletesKeepIds(t2, next, quizId, 0);
    var t4 := DeleteQuestionsOfQuiz(t3, quizId);
    DeletesKeepIds(t3, next, quizId, 0);
    DeletesKeepIds(t4, next, quizId, 0);
  }

  /** pages/delete_quiz.php:8-38: the five statements in one transaction.
      `fault` names the statement (0 to 4) that throws, if any; then the
      transaction is rolled back and the tables are as before. */
  method CascadeStatements(db: Database, quizId: int, fault: Option<nat>) returns (failed: bool)
    modifies db
    ensures db.nextId == old(db.nextId)
    ensures failed <==> fault.Some? && fault.value < 5
    ensures failed ==> db.t == old(db.t)
    ensures !failed ==> db.t == Cascade(old(db.t), quizId)
  {
    var snapshot := db.t;
    failed := true;
    if FailsAt(fault, 0) { db.Rollback(snapshot); return; }
    db.DeleteQuizAnswers(quizId);
    if FailsAt(fault, 1) { db.Rollback(snapshot); return; }
    db.DeleteQuizAttempts(quizId);
    if FailsAt(fault, 2) { db.Rollback(snapshot); return; }
    db.DeleteQuizPairs(quizId);
    if FailsAt(fault, 3) { db.Rollback(snapshot); return; }
    db.DeleteQuizQuestions(quizId);
    if FailsAt(fault, 4) { db.Rollback(snapshot); return; }
    db.DeleteQuiz(quizId);
    failed := false;
  }

  /** Where the page sends the browser. */
  datatype DeleteOutcome =
    | Deleted       // redirect to ../index.php?status=deleted
    | DatabaseError // die("Database Error: ...")
    | NoId          // redirect to ../index.php

  /** The whole page. `idParam` is `$_GET['id']` (`None` when it is not
      set); the id deleted is its `(int)` cast. */
  method HandleDelete(db: Database, idParam: Option<string>, fault: Option<nat>) returns (outcome: DeleteOutcome)
    requires db.Valid()
    modifies db
    ensures db.Valid() && db.nextId == old(db.nextId)
    ensures idParam.None? ==> outcome == NoId && db.t == old(db.t)
    ensures idParam.Some? && outcome == Deleted ==> db.t == Cascade(old(db.t), IntVal(idParam.value))
    ensures idParam.Some? ==> (outcome == Deleted <==> !(fault.Some? && fault.value < 5))
    ensures outcome == DatabaseError ==> db.t == old(db.t)
    ensures idParam.Some? && fault.Some? && fault.value < 5 ==> outcome == DatabaseError && db.t == old(db.t)
  {
    if idParam.None? {
      return NoId;
    }
    var quizId := IntVal(idParam.value);
    ghost var before := db.t;
    var failed := CascadeStatements(db, quizId, fault);
    if failed {
      outcome := DatabaseError;
    } else {
      CascadeKeepsIds(before, db.nextId, quizId);
      outcome := Deleted;
    }
  }
}
