/** The five MySQL tables the quiz application reads and writes
    (`quiz`, `question`, `matching_pairs`, `attempts`, `attempt_answer`),
    held in memory as sequences of rows in insertion order, and the
    statements the pages run against them. Every statement the pages issue
    is a method of `Database`; its `ensures` gives the new contents of the
    tables as a function of the old ones. */
module Store {
  import opened Php

  datatype Quiz = Quiz(id: int, owner: int, title: string, description: string, isPublic: bool)
  datatype Question = Question(id: int, quizId: int, prompt: string)
  datatype Pair = Pair(id: int, questionId: int, left: string, right: string, position: int)
  /** `userId` is `None` for a guest's attempt (the column is stored as NULL). */
  datatype Attempt = Attempt(id: int, userId: Option<int>, quizId: int, score: int)
  /** `chosenText` is `None` when the chosen pair id names no pair (`fetchColumn`
      gave `false`). `execute` binds that `false` as the empty string, so the
      stored column itself does not tell `None` from `Some("")`. */
  datatype AttemptAnswer = AttemptAnswer(attemptId: int, pairId: int, chosenText: Option<string>, isCorrect: bool)

  datatype Tables = Tables(
    quizzes: seq<Quiz>,
    questions: seq<Question>,
    pairs: seq<Pair>,
    attempts: seq<Attempt>,
    answers: seq<AttemptAnswer>)

  // ---------------------------------------------------------------------
  // WHERE conditions, named so that one condition is one term everywhere
  // ---------------------------------------------------------------------

  function PairOfQuestion(questionId: int): Pair -> bool { (p: Pair) => p.questionId == questionId }
  function PairNotOfQuestion(questionId: int): Pair -> bool { (p: Pair) => p.questionId != questionId }
  function PairNotUnder(questionIds: set<int>): Pair -> bool { (p: Pair) => p.questionId !in questionIds }
  function QuestionNotOfQuiz(quizId: int): Question -> bool { (q: Question) => q.quizId != quizId }
  function QuizNotWithId(quizId: int): Quiz -> bool { (q: Quiz) => q.id != quizId }
  function AttemptNotOfQuiz(quizId: int): Attempt -> bool { (a: Attempt) => a.quizId != quizId }
  function AnswerOfAttempt(attemptId: int): AttemptAnswer -> bool { (r: AttemptAnswer) => r.attemptId == attemptId }
  function AnswerNotUnder(attemptIds: set<int>): AttemptAnswer -> bool { (r: AttemptAnswer) => r.attemptId !in attemptIds }

  // ---------------------------------------------------------------------
  // Queries
  // ---------------------------------------------------------------------

  /** `SELECT user_id FROM quiz WHERE quiz_id = ?` read with `fetchColumn`:
      the owner of the first row with that id, `None` when there is none. */
  function OwnerOf(quizzes: seq<Quiz>, quizId: int): (r: Option<int>)
    ensures r.None? <==> forall q :: q in quizzes ==> q.id != quizId
    ensures r.Some? ==> exists q :: q in quizzes && q.id == quizId && q.owner == r.value
  {
    if quizzes == [] then None
    else if quizzes[0].id == quizId then Some(quizzes[0].owner)
    else OwnerOf(quizzes[1..], quizId)
  }

  /** `SELECT question_id FROM question WHERE quiz_id = ? LIMIT 1`. */
  function FirstQuestionOf(questions: seq<Question>, quizId: int): (r: Option<int>)
    ensures r.None? <==> forall q :: q in questions ==> q.quizId != quizId
    ensures r.Some? ==> exists q :: q in questions && q.quizId == quizId && q.id == r.value
  {
    if questions == [] then None
    else if questions[0].quizId == quizId then Some(questions[0].id)
    else FirstQuestionOf(questions[1..], quizId)
  }

  /** `SELECT right_text FROM matching_pairs WHERE pair_id = ?` read with
      `fetchColumn`, over every pair of every quiz. */
  function RightTextOf(pairs: seq<Pair>, pairId: int): (r: Option<string>)
    ensures r.None? <==> forall p :: p in pairs ==> p.id != pairId
    ensures r.Some? ==> exists p :: p in pairs && p.id == pairId && p.right == r.value
  {
    if pairs == [] then None
    else if pairs[0].id == pairId then Some(pairs[0].right)
    else RightTextOf(pairs[1..], pairId)
  }

  /** `SELECT attempt_id FROM attempts WHERE quiz_id = ?`. */
  function AttemptIdsOfQuiz(attempts: seq<Attempt>, quizId: int): set<int>
  {
    set a | a in attempts && a.quizId == quizId :: a.id
  }

  /** `SELECT question_id FROM question WHERE quiz_id = ?`. */
  function QuestionIdsOfQuiz(questions: seq<Question>, quizId: int): set<int>
  {
    set q | q in questions && q.quizId == quizId :: q.id
  }

  // ---------------------------------------------------------------------
  // UPDATE and DELETE statements, as functions of the tables
  // ---------------------------------------------------------------------

  /** `UPDATE quiz SET title = ?, description = ?, is_public = ? WHERE quiz_id = ?`. */
  function UpdateQuizRows(quizzes: seq<Quiz>, quizId: int, title: string, description: string, isPublic: bool): (r: seq<Quiz>)
    ensures |r| == |quizzes|
  {
    seq(|quizzes|, i requires 0 <= i < |quizzes| =>
      if quizzes[i].id == quizId then quizzes[i].(title := title, description := description, isPublic := isPublic)
      else quizzes[i])
  }

  /** `UPDATE question SET user_prompt = ? WHERE question_id = ?`. */
  function UpdatePromptRows(questions: seq<Question>, questionId: int, prompt: string): (r: seq<Question>)
    ensures |r| == |questions|
  {
    seq(|questions|, i requires 0 <= i < |questions| =>
      if questions[i].id == questionId then questions[i].(prompt := prompt) else questions[i])
  }

  /** `DELETE FROM matching_pairs WHERE question_id = ?`. */
  function DeletePairsOfQuestion(t: Tables, questionId: int): Tables
  {
    t.(pairs := Filter(t.pairs, PairNotOfQuestion(questionId)))
  }

  /** `DELETE FROM attempt_answer WHERE attempt_id IN (SELECT attempt_id FROM attempts WHERE quiz_id = ?)`. */
  function DeleteAnswersOfQuiz(t: Tables, quizId: int): Tables
  {
    t.(answers := Filter(t.answers, AnswerNotUnder(AttemptIdsOfQuiz(t.attempts, quizId))))
  }

  /** `DELETE FROM attempts WHERE quiz_id = ?`. */
  function DeleteAttemptsOfQuiz(t: Tables, quizId: int): Tables
  {
    t.(attempts := Filter(t.attempts, AttemptNotOfQuiz(quizId)))
  }

  /** `DELETE FROM matching_pairs WHERE question_id IN (SELECT question_id FROM question WHERE quiz_id = ?)`. */
  function DeletePairsOfQuiz(t: Tables, quizId: int): Tables
  {
    t.(pairs := Filter(t.pairs, PairNotUnder(QuestionIdsOfQuiz(t.questions, quizId))))
  }

  /** `DELETE FROM question WHERE quiz_id = ?`. */
  function DeleteQuestionsOfQuiz(t: Tables, quizId: int): Tables
  {
    t.(questions := Filter(t.questions, QuestionNotOfQuiz(quizId)))
  }

  /** `DELETE FROM quiz WHERE quiz_id = ?`. */
  function DeleteQuizRow(t: Tables, quizId: int): Tables
  {
    t.(quizzes := Filter(t.quizzes, QuizNotWithId(quizId)))
  }

  // ---------------------------------------------------------------------
  // Auto-increment ids
  // ---------------------------------------------------------------------

  /** Ids are handed out in increasing order, so the pairs table, kept in
      insertion order, is also in `pair_id` order. */
  ghost predicate PairIdsAscending(pairs: seq<Pair>)
  {
    forall i, j :: 0 <= i < j < |pairs| ==> pairs[i].id < pairs[j].id
  }

  /** Every id issued so far, and every reference to an issued id that the
      pages copy from `lastInsertId()`, lies below the next id to issue;
      and the pairs are in id order. */
  ghost predicate IdsBelow(t: Tables, next: int)
  {
    && (forall q :: q in t.quizzes ==> q.id < next)
    && (forall q :: q in t.questions ==> q.id < next && q.quizId < next)
    && (forall p :: p in t.pairs ==> p.id < next && p.questionId < next)
    && (forall a :: a in t.attempts ==> a.id < next)
    && (forall r :: r in t.answers ==> r.attemptId < next)
    && PairIdsAscending(t.pairs)
  }

  lemma IdsBelowGrows(t: Tables, next: int, next': int)
    requires IdsBelow(t, next) && next <= next'
    ensures IdsBelow(t, next')
  {
  }

  lemma {:induction false} FilterKeepsAscending(pairs: seq<Pair>, keep: Pair -> bool)
    requires PairIdsAscending(pairs)
    ensures PairIdsAscending(Filter(pairs, keep))
  {
    if pairs != [] {
      FilterKeepsAscending(pairs[1..], keep);
      var rest := Filter(pairs[1..], keep);
      forall p | p in rest ensures pairs[0].id < p.id {
        assert p in pairs[1..];
      }
    }
  }

  // ---------------------------------------------------------------------
  // The id invariant across statements
  // ---------------------------------------------------------------------

  lemma AppendQuizKeepsIds(t: Tables, next: int, row: Quiz)
    requires IdsBelow(t, next) && row.id == next
    ensures IdsBelow(t.(quizzes := t.quizzes + [row]), next + 1)
  {
  }

  lemma AppendQuestionKeepsIds(t: Tables, next: int, row: Question)
    requires IdsBelow(t, next) && row.id == next && row.quizId < next
    ensures IdsBelow(t.(questions := t.questions + [row]), next + 1)
  {
  }

  lemma AppendAttemptKeepsIds(t: Tables, next: int, row: Attempt)
    requires IdsBelow(t, next) && row.id == next
    ensures IdsBelow(t.(attempts := t.attempts + [row]), next + 1)
  {
  }

  lemma AppendAnswersKeepIds(t: Tables, next: int, rows: seq<AttemptAnswer>)
    requires IdsBelow(t, next)
    requires forall r :: r in rows ==> r.attemptId < next
    ensures IdsBelow(t.(answers := t.answers + rows), next)
  {
  }

  /** Pairs inserted one after another get consecutive ids from `next`, all
      above the ids already issued, so the table stays in id order. */
  lemma AppendPairsKeepIds(t: Tables, next: int, rows: seq<Pair>)
    requires IdsBelow(t, next)
    requires forall k :: 0 <= k < |rows| ==> rows[k].id == next + k && rows[k].questionId < next
    ensures IdsBelow(t.(pairs := t.pairs + rows), next + |rows|)
  {
    var ps := t.pairs + rows;
    forall i, j | 0 <= i < j < |ps| ensures ps[i].id < ps[j].id {
      if j < |t.pairs| {
      } else if i < |t.pairs| {
        assert ps[i] in t.pairs;
      }
    }
    forall p | p in ps ensures p.id < next + |rows| && p.questionId < next + |rows| {
      if p !in t.pairs {
        var k :| 0 <= k < |rows| && rows[k] == p;
      }
    }
  }

  lemma UpdateQuizKeepsIds(t: Tables, next: int, quizId: int, title: string, description: string, isPublic: bool)
    requires IdsBelow(t, next)
    ensures IdsBelow(t.(quizzes := UpdateQuizRows(t.quizzes, quizId, title, description, isPublic)), next)
  {
    var rows := UpdateQuizRows(t.quizzes, quizId, title, description, isPublic);
    forall q | q in rows ensures q.id < next {
      var i :| 0 <= i < |rows| && rows[i] == q;
      assert t.quizzes[i] in t.quizzes;
    }
  }

  lemma UpdatePromptKeepsIds(t: Tables, next: int, questionId: int, prompt: string)
    requires IdsBelow(t, next)
    ensures IdsBelow(t.(questions := UpdatePromptRows(t.questions, questionId, prompt)), next)
  {
    var rows := UpdatePromptRows(t.questions, questionId, prompt);
    forall q | q in rows ensures q.id < next && q.quizId < next {
      var i :| 0 <= i < |rows| && rows[i] == q;
      assert t.questions[i] in t.questions;
    }
  }

  /** Deleting rows never breaks the id invariant. */
  lemma DeletesKeepIds(t: Tables, next: int, quizId: int, questionId: int)
    requires IdsBelow(t, next)
    ensures IdsBelow(DeletePairsOfQuestion(t, questionId), next)
    ensures IdsBelow(DeleteAnswersOfQuiz(t, quizId), next)
    ensures IdsBelow(DeleteAttemptsOfQuiz(t, quizId), next)
    ensures IdsBelow(DeletePairsOfQuiz(t, quizId), next)
    ensures IdsBelow(DeleteQuestionsOfQuiz(t, quizId), next)
    ensures IdsBelow(DeleteQuizRow(t, quizId), next)
  {
    FilterKeepsAscending(t.pairs, PairNotOfQuestion(questionId));
    FilterKeepsAscending(t.pairs, PairNotUnder(QuestionIdsOfQuiz(t.questions, quizId)));
  }

  /** A request's statements are numbered 0, 1, 2, ... in the order they run;
      `fault` names the one that throws (a lost connection, a violated
      constraint), if any. `FailsAt(fault, k)`: statement `k` throws. */
  predicate FailsAt(fault: Option<nat>, k: int) { fault.Some? && fault.value == k }

  /** The database connection. `t` is the committed state plus the writes of
      the open transaction; a transaction is begun by remembering `t` and
      rolled back by restoring it. `nextId` is the auto-increment counter,
      which a rollback does not give back. Each method is one SQL statement
      and says exactly what it does to the tables; the pages that run the
      statements keep `Valid()` across a whole request. */
  class Database {
    var t: Tables
    var nextId: int

    ghost predicate Valid()
      reads this
    {
      1 <= nextId && IdsBelow(t, nextId)
    }

    constructor (initial: Tables, next: int)
      requires 1 <= next && IdsBelow(initial, next)
      ensures Valid() && t == initial && nextId == next
    {
      t := initial;
      nextId := next;
    }

    /** `INSERT INTO quiz (user_id, title, description, is_public) VALUES (?, ?, ?, ?)`. */
    method InsertQuiz(owner: int, title: string, description: string, isPublic: bool) returns (id: int)
      modifies this
      ensures id == old(nextId) && nextId == id + 1
      ensures t == old(t).(quizzes := old(t).quizzes + [Quiz(id, owner, title, description, isPublic)])
    {
      id := nextId;
      t := t.(quizzes := t.quizzes + [Quiz(id, owner, title, description, isPublic)]);
      nextId := nextId + 1;
    }

    /** `INSERT INTO question (quiz_id, user_prompt) VALUES (?, ?)`. */
    method InsertQuestion(quizId: int, prompt: string) returns (id: int)
      modifies this
      ensures id == old(nextId) && nextId == id + 1
      ensures t == old(t).(questions := old(t).questions + [Question(id, quizId, prompt)])
    {
      id := nextId;
      t := t.(questions := t.questions + [Question(id, quizId, prompt)]);
      nextId := nextId + 1;
    }

    /** `INSERT INTO matching_pairs (question_id, left_text, right_text, position) VALUES (?, ?, ?, ?)`. */
    method InsertPair(questionId: int, left: string, right: string, position: int) returns (id: int)
      modifies this
      ensures id == old(nextId) && nextId == id + 1
      ensures t == old(t).(pairs := old(t).pairs + [Pair(id, questionId, left, right, position)])
    {
      id := nextId;
      t := t.(pairs := t.pairs + [Pair(id, questionId, left, right, position)]);
      nextId := nextId + 1;
    }

    /** `INSERT INTO attempts (user_id, quiz_id, score) VALUES (?, ?, ?)`. */
    method InsertAttempt(userId: Option<int>, quizId: int, score: int) returns (id: int)
      modifies this
      ensures id == old(nextId) && nextId == id + 1
      ensures t == old(t).(attempts := old(t).attempts + [Attempt(id, userId, quizId, score)])
    {
      id := nextId;
      t := t.(attempts := t.attempts + [Attempt(id, userId, quizId, score)]);
      nextId := nextId + 1;
    }

    /** `INSERT INTO attempt_answer (attempt_id, pair_id, chosen_text, is_correct) VALUES (?, ?, ?, ?)`. */
    method InsertAnswer(row: AttemptAnswer)
      modifies this
      ensures nextId == old(nextId)
      ensures t == old(t).(answers := old(t).answers + [row])
    {
      t := t.(answers := t.answers + [row]);
    }

    method UpdateQuiz(quizId: int, title: string, description: string, isPublic: bool)
      modifies this
      ensures nextId == old(nextId)
      ensures t == old(t).(quizzes := UpdateQuizRows(old(t).quizzes, quizId, title, description, isPublic))
    {
      t := t.(quizzes := UpdateQuizRows(t.quizzes, quizId, title, description, isPublic));
    }

    method UpdatePrompt(questionId: int, prompt: string)
      modifies this
      ensures nextId == old(nextId)
      ensures t == old(t).(questions := UpdatePromptRows(old(t).questions, questionId, prompt))
    {
      t := t.(questions := UpdatePromptRows(t.questions, questionId, prompt));
    }

    method DeleteQuestionPairs(questionId: int)
      modifies this
      ensures nextId == old(nextId)
      ensures t == DeletePairsOfQuestion(old(t), questionId)
    {
      t := DeletePairsOfQuestion(t, questionId);
    }

    method DeleteQuizAnswers(quizId: int)
      modifies this
      ensures nextId == old(nextId)
      ensures t == DeleteAnswersOfQuiz(old(t), quizId)
    {
      t := DeleteAnswersOfQuiz(t, quizId);
    }

    method DeleteQuizAttempts(quizId: int)
      modifies this
      ensures nextId == old(nextId)
      ensures t == DeleteAttemptsOfQuiz(old(t), quizId)
    {
      t := DeleteAttemptsOfQuiz(t, quizId);
    }

    method DeleteQuizPairs(quizId: int)
      modifies this
      ensures nextId == old(nextId)
      ensures t == DeletePairsOfQuiz(old(t), quizId)
    {
      t := DeletePairsOfQuiz(t, quizId);
    }

    method DeleteQuizQuestions(quizId: int)
      modifies this
      ensures nextId == old(nextId)
      ensures t == DeleteQuestionsOfQuiz(old(t), quizId)
    {
      t := DeleteQuestionsOfQuiz(t, quizId);
    }

    method DeleteQuiz(quizId: int)
      modifies this
      ensures nextId == old(nextId)
      ensures t == DeleteQuizRow(old(t), quizId)
    {
      t := DeleteQuizRow(t, quizId);
    }

    /** `$pdo->rollBack()`: the tables return to the state remembered when
        the transaction began; the id counter keeps its value. */
    method Rollback(snapshot: Tables)
      modifies this
      ensures t == snapshot && nextId == old(nextId)
    {
      t := snapshot;
    }
  }
}
