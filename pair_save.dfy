/** The `save_new` and `save_edit` handlers of index.php: a quiz, its single
    question and its pairs are written in one transaction. The submitted
    `left[]`/`right[]` rows are trimmed, rows blank on both sides are
    skipped, and the kept rows are numbered 1, 2, 3, ... Editing is allowed
    only to the quiz's owner and replaces the question's pairs wholesale. */
module PairSave {
  import opened Php
  import opened Store

  /** A submitted row as it is inserted: trimmed texts and its position. */
  datatype PairRow = PairRow(left: string, right: string, position: int)

  /** `$rights[$i]`, which PHP reads as null (and `trim` as "") when the
      right column is shorter than the left one. */
  function RightAt(rights: seq<string>, i: int): string
  {
    if 0 <= i < |rights| then rights[i] else ""
  }

  /** `trim` applied to every submitted cell. */
  function TrimAll(cells: seq<string>): (r: seq<string>)
    ensures |r| == |cells|
  {
    if cells == [] then [] else TrimAll(cells[..|cells| - 1]) + [Trim(cells[|cells| - 1])]
  }

  lemma {:induction false} TrimAllAt(cells: seq<string>, i: nat)
    requires i < |cells|
    ensures TrimAll(cells)[i] == Trim(cells[i])
  {
    if i < |cells| - 1 {
      TrimAllAt(cells[..|cells| - 1], i);
    }
  }

  /** Trimmed row `i` is skipped: both of its sides are empty (index.php:100, 158). */
  predicate Blank(ls: seq<string>, rs: seq<string>, i: int)
    requires 0 <= i < |ls|
  {
    ls[i] == "" && RightAt(rs, i) == ""
  }

  /** The rows inserted for the first `n` trimmed rows `ls`/`rs`. */
  function KeptRows(ls: seq<string>, rs: seq<string>, n: nat): (rows: seq<PairRow>)
    requires n <= |ls|
    ensures |rows| <= n
  {
    if n == 0 then []
    else
      var prev := KeptRows(ls, rs, n - 1);
      if Blank(ls, rs, n - 1) then prev
      else prev + [PairRow(ls[n - 1], RightAt(rs, n - 1), |prev| + 1)]
  }

  /** All rows inserted for a submission of `left[]` and `right[]`. */
  function Normalize(lefts: seq<string>, rights: seq<string>): seq<PairRow>
  {
    KeptRows(TrimAll(lefts), TrimAll(rights), |lefts|)
  }

  /** The indices of the first `n` trimmed rows that are not blank. */
  function KeptIndices(ls: seq<string>, rs: seq<string>, n: nat): seq<int>
    requires n <= |ls|
  {
    if n == 0 then []
    else if Blank(ls, rs, n - 1) then KeptIndices(ls, rs, n - 1)
    else KeptIndices(ls, rs, n - 1) + [n - 1]
  }

  lemma {:induction false} KeptRowsAreKeptIndices(ls: seq<string>, rs: seq<string>, n: nat)
    requires n <= |ls|
    ensures var rows := KeptRows(ls, rs, n);
      var idx := KeptIndices(ls, rs, n);
      && |rows| == |idx|
      && (forall k :: 0 <= k < |idx| ==>
            && 0 <= idx[k] < n
            && rows[k] == PairRow(ls[idx[k]], RightAt(rs, idx[k]), k + 1))
      && (forall k, m :: 0 <= k < m < |idx| ==> idx[k] < idx[m])
      && (forall i :: 0 <= i < n ==> (i in idx <==> !Blank(ls, rs, i)))
  {
    if n > 0 {
      KeptRowsAreKeptIndices(ls, rs, n - 1);
    }
  }

  /** Cell `i` of the trimmed right column is the trimmed right cell `i`,
      missing cells included. */
  lemma TrimmedRightAt(rights: seq<string>, i: int)
    ensures RightAt(TrimAll(rights), i) == Trim(RightAt(rights, i))
  {
    if 0 <= i < |rights| {
      TrimAllAt(rights, i);
    }
  }

  /** The inserted rows are the submitted rows that are not blank, trimmed,
      in input order, numbered 1, 2, 3, ...: a row is dropped exactly when
      both of its sides trim to empty, so a row with one side filled is kept. */
  lemma NormalizeKeepsNonBlankRows(lefts: seq<string>, rights: seq<string>)
    ensures var rows := Normalize(lefts, rights);
      var idx := KeptIndices(TrimAll(lefts), TrimAll(rights), |lefts|);
      && |rows| == |idx|
      && (forall k :: 0 <= k < |idx| ==>
            && 0 <= idx[k] < |lefts|
            && rows[k] == PairRow(Trim(lefts[idx[k]]), Trim(RightAt(rights, idx[k])), k + 1))
      && (forall k, m :: 0 <= k < m < |idx| ==> idx[k] < idx[m])
      && (forall i :: 0 <= i < |lefts| ==>
            (i in idx <==> !(Trim(lefts[i]) == "" && Trim(RightAt(rights, i)) == "")))
  {
    KeptRowsAreKeptIndices(TrimAll(lefts), TrimAll(rights), |lefts|);
    forall i | 0 <= i < |lefts|
      ensures TrimAll(lefts)[i] == Trim(lefts[i])
      ensures RightAt(TrimAll(rights), i) == Trim(RightAt(rights, i))
    {
      TrimAllAt(lefts, i);
      TrimmedRightAt(rights, i);
    }
  }

  lemma KeptRowsStep(ls: seq<string>, rs: seq<string>, i: nat)
    requires i < |ls|
    ensures Blank(ls, rs, i) ==> KeptRows(ls, rs, i + 1) == KeptRows(ls, rs, i)
    ensures !Blank(ls, rs, i) ==>
      KeptRows(ls, rs, i + 1) == KeptRows(ls, rs, i) + [PairRow(ls[i], RightAt(rs, i), |KeptRows(ls, rs, i)| + 1)]
  {
  }

  lemma {:induction false} KeptRowsGrow(ls: seq<string>, rs: seq<string>, n: nat, m: nat)
    requires n <= m <= |ls|
    ensures |KeptRows(ls, rs, n)| <= |KeptRows(ls, rs, m)|
  {
    if n < m {
      KeptRowsGrow(ls, rs, n, m - 1);
    }
  }

  /** The `matching_pairs` rows for `rows` under question `questionId`, with
      consecutive ids from `firstId`. */
  function StoredPairs(questionId: int, firstId: int, rows: seq<PairRow>): (ps: seq<Pair>)
    ensures |ps| == |rows|
  {
    seq(|rows|, k requires 0 <= k < |rows| =>
      Pair(firstId + k, questionId, rows[k].left, rows[k].right, rows[k].position))
  }

  lemma StoredPairsSnoc(questionId: int, firstId: int, rows: seq<PairRow>, row: PairRow)
    ensures StoredPairs(questionId, firstId, rows + [row]) ==
      StoredPairs(questionId, firstId, rows) + [Pair(firstId + |rows|, questionId, row.left, row.right, row.position)]
  {
  }

  /** Every stored pair belongs to the question it was stored under. */
  lemma StoredPairsOf(questionId: int, firstId: int, rows: seq<PairRow>)
    ensures forall p :: p in StoredPairs(questionId, firstId, rows) ==> p.questionId == questionId
  {
    var ps := StoredPairs(questionId, firstId, rows);
    forall p | p in ps ensures p.questionId == questionId {
      var k :| 0 <= k < |ps| && ps[k] == p;
    }
  }

  /** What a page shows of stored pairs: their texts and positions. */
  function Texts(ps: seq<Pair>): (r: seq<PairRow>)
    ensures |r| == |ps|
  {
    seq(|ps|, k requires 0 <= k < |ps| => PairRow(ps[k].left, ps[k].right, ps[k].position))
  }

  /** Storing rows and reading their texts back gives the rows. */
  lemma TextsOfStored(questionId: int, firstId: int, rows: seq<PairRow>)
    ensures Texts(StoredPairs(questionId, firstId, rows)) == rows
  {
  }

  /** What one pass of the insert loop adds: nothing for a blank row, else
      the row's pair with the next id and position. */
  lemma InsertStep(before: seq<Pair>, questionId: int, firstId: int, ls: seq<string>, rs: seq<string>, i: nat)
    requires i < |ls|
    ensures var kept := KeptRows(ls, rs, i);
      var done := before + StoredPairs(questionId, firstId, kept);
      && (Blank(ls, rs, i) ==> KeptRows(ls, rs, i + 1) == kept)
      && (!Blank(ls, rs, i) ==>
            && |KeptRows(ls, rs, i + 1)| == |kept| + 1
            && done + [Pair(firstId + |kept|, questionId, ls[i], RightAt(rs, i), |kept| + 1)]
               == before + StoredPairs(questionId, firstId, KeptRows(ls, rs, i + 1)))
  {
    var kept := KeptRows(ls, rs, i);
    KeptRowsStep(ls, rs, i);
    if !Blank(ls, rs, i) {
      var row := PairRow(ls[i], RightAt(rs, i), |kept| + 1);
      StoredPairsSnoc(questionId, firstId, kept, row);
      var p := Pair(firstId + |kept|, questionId, row.left, row.right, row.position);
      assert before + StoredPairs(questionId, firstId, kept) + [p] == before + (StoredPairs(questionId, firstId, kept) + [p]);
    }
  }

  /** The tables and counter once the insert loop has passed the first `i`
      rows without a fault: the pairs of the non-blank ones are appended to
      `t0` with ids from `firstId`. */
  ghost predicate InsertedUpTo(t: Tables, nextId: int, t0: Tables, questionId: int, firstId: int,
                               ls: seq<string>, rs: seq<string>, i: nat)
    requires i <= |ls|
  {
    var kept := KeptRows(ls, rs, i);
    && t == t0.(pairs := t0.pairs + StoredPairs(questionId, firstId, kept))
    && nextId == firstId + |kept|
  }

  /** One pass of the insert loop: row `i` is trimmed and, unless blank,
      inserted at position `pos` by statement `base + pos - 1`, where `pos`
      is one more than the number of rows kept so far. */
  method InsertRow(db: Database, questionId: int, lefts: seq<string>, rights: seq<string>, i: nat, pos: int,
                   fault: Option<nat>, base: nat, ghost t0: Tables, ghost firstId: int)
    returns (inserted: bool, failed: bool)
    requires i < |lefts|
    requires pos == |KeptRows(TrimAll(lefts), TrimAll(rights), i)| + 1
    requires InsertedUpTo(db.t, db.nextId, t0, questionId, firstId, TrimAll(lefts), TrimAll(rights), i)
    modifies db
    ensures var ls, rs := TrimAll(lefts), TrimAll(rights);
      && (inserted || failed <==> !Blank(ls, rs, i))
      && (failed <==> !Blank(ls, rs, i) && FailsAt(fault, base + pos - 1))
      && !(inserted && failed)
      && (failed ==> db.t == old(db.t) && db.nextId == old(db.nextId))
      && (!failed ==> InsertedUpTo(db.t, db.nextId, t0, questionId, firstId, ls, rs, i + 1))
      && (!failed ==> |KeptRows(ls, rs, i + 1)| == |KeptRows(ls, rs, i)| + (if inserted then 1 else 0))
  {
    ghost var ls, rs := TrimAll(lefts), TrimAll(rights);
    InsertStep(t0.pairs, questionId, firstId, ls, rs, i);
    var l := Trim(lefts[i]);
    var r := Trim(RightAt(rights, i));
    TrimAllAt(lefts, i);
    TrimmedRightAt(rights, i);
    if l == "" && r == "" {
      return false, false;
    }
    if FailsAt(fault, base + pos - 1) {
      return false, true;
    }
    var _ := db.InsertPair(questionId, l, r, pos);
    return true, false;
  }

  /** The insert loop shared by both handlers (index.php:95-103, 153-161).
      The insert of the `j`-th kept row is statement `base + j`. */
  method InsertPairs(db: Database, questionId: int, lefts: seq<string>, rights: seq<string>, fault: Option<nat>, base: nat)
    returns (failed: bool)
    modifies db
    ensures db.nextId >= old(db.nextId)
    ensures failed <==> fault.Some? && base <= fault.value < base + |Normalize(lefts, rights)|
    ensures !failed ==> db.nextId == old(db.nextId) + |Normalize(lefts, rights)|
    ensures !failed ==>
      db.t == old(db.t).(pairs := old(db.t).pairs + StoredPairs(questionId, old(db.nextId), Normalize(lefts, rights)))
  {
    ghost var ls, rs := TrimAll(lefts), TrimAll(rights);
    ghost var t0, firstId := db.t, db.nextId;
    var pos := 1;
    for i := 0 to |lefts|
      invariant pos == |KeptRows(ls, rs, i)| + 1
      invariant fault.Some? ==> !(base <= fault.value < base + pos - 1)
      invariant InsertedUpTo(db.t, db.nextId, t0, questionId, firstId, ls, rs, i)
    {
      var inserted;
      inserted, failed := InsertRow(db, questionId, lefts, rights, i, pos, fault, base, t0, firstId);
      if failed {
        KeptRowsGrow(ls, rs, i + 1, |lefts|);
        return;
      }
      if inserted {
        pos := pos + 1;
      }
    }
    failed := false;
  }

  /** Pairs appended under a question that had none are exactly the pairs of
      that question afterwards. */
  lemma PairsOfFreshQuestion(old_: seq<Pair>, questionId: int, firstId: int, rows: seq<PairRow>)
    requires forall p :: p in old_ ==> p.questionId != questionId
    ensures Texts(Filter(old_ + StoredPairs(questionId, firstId, rows), PairOfQuestion(questionId))) == rows
  {
    var stored := StoredPairs(questionId, firstId, rows);
    FilterAppend(old_, stored, PairOfQuestion(questionId));
    FilterNone(old_, PairOfQuestion(questionId));
    StoredPairsOf(questionId, firstId, rows);
    FilterAll(stored, PairOfQuestion(questionId));
    assert Filter(old_ + stored, PairOfQuestion(questionId)) == stored;
    TextsOfStored(questionId, firstId, rows);
  }

  lemma {:induction false} OtherQuestionUntouched(ps: seq<Pair>, q: int, q': int)
    requires q != q'
    ensures Filter(Filter(ps, PairNotOfQuestion(q)), PairOfQuestion(q')) == Filter(ps, PairOfQuestion(q'))
  {
    if ps != [] {
      OtherQuestionUntouched(ps[1..], q, q');
      var head := if PairNotOfQuestion(q)(ps[0]) then [ps[0]] else [];
      var rest := Filter(ps[1..], PairNotOfQuestion(q));
      assert Filter(ps, PairNotOfQuestion(q)) == head + rest;
      FilterAppend(head, rest, PairOfQuestion(q'));
      assert Filter(head, PairOfQuestion(q')) == if PairOfQuestion(q')(ps[0]) then [ps[0]] else [];
    }
  }

  // ---------------------------------------------------------------------
  // The two handlers
  // ---------------------------------------------------------------------

  /** The posted quiz form. `isPublic` is the `is_public` field if posted. */
  datatype QuizForm = QuizForm(
    title: string, description: string, prompt: string, isPublic: Option<string>,
    lefts: seq<string>, rights: seq<string>)

  /** `isset($_POST['is_public']) && $_POST['is_public'] == '1'`, for the
      value the form's checkbox sends; see README for PHP's loose `==`. */
  predicate PublicFlag(form: QuizForm) { form.isPublic == Some("1") }

  /** `$user_id` is truthy: logged in with a non-zero id. */
  predicate LoggedIn(userId: Option<int>) { userId.Some? && userId.value != 0 }

  datatype SaveOutcome =
    | ToLogin              // guest: redirected to the login page
    | ToView(quizId: int)  // committed: redirected to view mode
    | SaveFailed           // rolled back: `$error` set
    | NotAuthorized        // edit refused: `$error` set

  /** The tables after a committed `save_new` by `userId`, ids from `next`. */
  function Created(t: Tables, next: int, userId: int, form: QuizForm): Tables
  {
    t.(quizzes := t.quizzes + [Quiz(next, userId, Trim(form.title), Trim(form.description), PublicFlag(form))],
       questions := t.questions + [Question(next + 1, next, Trim(form.prompt))],
       pairs := t.pairs + StoredPairs(next + 1, next + 2, Normalize(form.lefts, form.rights)))
  }

  /** The `save_new` transaction (index.php:82-111) for the logged-in user
      `userId`: statement 0 inserts the quiz, 1 its question, and the pair
      inserts follow. A fault at any of them rolls the whole transaction
      back. */
  method CreateStatements(db: Database, userId: int, form: QuizForm, fault: Option<nat>)
    returns (quizId: int, failed: bool)
    modifies db
    ensures quizId == old(db.nextId) && db.nextId >= old(db.nextId)
    ensures failed <==> fault.Some? && fault.value < 2 + |Normalize(form.lefts, form.rights)|
    ensures failed ==> db.t == old(db.t)
    ensures !failed ==> db.t == Created(old(db.t), old(db.nextId), userId, form)
    ensures !failed ==> db.nextId == old(db.nextId) + 2 + |Normalize(form.lefts, form.rights)|
  {
    var title := Trim(form.title);
    var description := Trim(form.description);
    var prompt := Trim(form.prompt);
    var isPublic := form.isPublic == Some("1");

    var snapshot := db.t;
    quizId := db.nextId;
    if FailsAt(fault, 0) {
      db.Rollback(snapshot);
      return quizId, true;
    }
    quizId := db.InsertQuiz(userId, title, description, isPublic);
    if FailsAt(fault, 1) {
      db.Rollback(snapshot);
      return quizId, true;
    }
    var questionId := db.InsertQuestion(quizId, prompt);
    failed := InsertPairs(db, questionId, form.lefts, form.rights, fault, 2);
    if failed {
      db.Rollback(snapshot);
    }
  }

  /** index.php:65-113: a guest is sent to the login page; otherwise the
      quiz is created and a committed save redirects to its view page. */
  method SaveNew(db: Database, userId: Option<int>, form: QuizForm, fault: Option<nat>)
    returns (outcome: SaveOutcome)
    requires db.Valid()
    modifies db
    ensures db.Valid() && db.nextId >= old(db.nextId)
    ensures !LoggedIn(userId) ==> outcome == ToLogin && db.t == old(db.t)
    ensures LoggedIn(userId) && fault.Some? && fault.value < 2 + |Normalize(form.lefts, form.rights)| ==>
      outcome == SaveFailed && db.t == old(db.t)
    ensures LoggedIn(userId) && !(fault.Some? && fault.value < 2 + |Normalize(form.lefts, form.rights)|) ==>
      outcome == ToView(old(db.nextId)) && db.t == Created(old(db.t), old(db.nextId), userId.value, form)
  {
    if !(userId.Some? && userId.value != 0) {
      return ToLogin;
    }
    ghost var snapshot, next := db.t, db.nextId;
    var quizId, failed := CreateStatements(db, userId.value, form, fault);
    if failed {
      IdsBelowGrows(snapshot, next, db.nextId);
      return SaveFailed;
    }
    CreatedKeepsIds(snapshot, quizId, userId.value, form);
    outcome := ToView(quizId);
  }

  /** A committed `save_new` keeps every id below the next one to be issued. */
  lemma CreatedKeepsIds(t: Tables, next: int, userId: int, form: QuizForm)
    requires IdsBelow(t, next)
    ensures IdsBelow(Created(t, next, userId, form), next + 2 + |Normalize(form.lefts, form.rights)|)
  {
    var quiz := Quiz(next, userId, Trim(form.title), Trim(form.description), PublicFlag(form));
    AppendQuizKeepsIds(t, next, quiz);
    var t1 := t.(quizzes := t.quizzes + [quiz]);
    var question := Question(next + 1, next, Trim(form.prompt));
    AppendQuestionKeepsIds(t1, next + 1, question);
    var t2 := t1.(questions := t1.questions + [question]);
    var stored := StoredPairs(next + 1, next + 2, Normalize(form.lefts, form.rights));
    assert forall k :: 0 <= k < |stored| ==> stored[k].id == next + 2 + k;
    assert forall k :: 0 <= k < |stored| ==> stored[k].questionId < next + 2;
    AppendPairsKeepIds(t2, next + 2, stored);
    assert Created(t, next, userId, form) == t2.(pairs := t2.pairs + stored);
  }

  /** After `save_new`, the new question's pairs are the normalized input. */
  lemma CreatedPairsAreInput(t: Tables, next: int, userId: int, form: QuizForm)
    requires IdsBelow(t, next)
    ensures var c := Created(t, next, userId, form);
      && OwnerOf(c.quizzes, next) == Some(userId)
      && FirstQuestionOf(c.questions, next) == Some(next + 1)
      && Texts(Filter(c.pairs, PairOfQuestion(next + 1))) == Normalize(form.lefts, form.rights)
  {
    PairsOfFreshQuestion(t.pairs, next + 1, next + 2, Normalize(form.lefts, form.rights));
    OwnerOfAppended(t.quizzes, Quiz(next, userId, Trim(form.title), Trim(form.description), PublicFlag(form)));
    FirstQuestionOfAppended(t.questions, Question(next + 1, next, Trim(form.prompt)));
  }

  lemma {:induction false} OwnerOfAppended(quizzes: seq<Quiz>, q: Quiz)
    requires forall x :: x in quizzes ==> x.id != q.id
    ensures OwnerOf(quizzes + [q], q.id) == Some(q.owner)
  {
    if quizzes != [] {
      assert (quizzes + [q])[1..] == quizzes[1..] + [q];
      OwnerOfAppended(quizzes[1..], q);
    }
  }

  lemma {:induction false} FirstQuestionOfAppended(questions: seq<Question>, q: Question)
    requires forall x :: x in questions ==> x.quizId != q.quizId
    ensures FirstQuestionOf(questions + [q], q.quizId) == Some(q.id)
  {
    if questions != [] {
      assert (questions + [q])[1..] == questions[1..] + [q];
      FirstQuestionOfAppended(questions[1..], q);
    }
  }

  /** index.php:119-124: the quiz exists, its owner is truthy, and it is the
      session user. */
  predicate MayEdit(quizzes: seq<Quiz>, quizId: int, userId: Option<int>)
  {
    var owner := OwnerOf(quizzes, quizId);
    owner.Some? && owner.value != 0 && userId == Some(owner.value)
  }

  /** `$qId` of index.php:139-141 when it is truthy: the id of the quiz's
      first question, unless there is none or it is 0. */
  function ReusedQuestion(t: Tables, quizId: int): (r: Option<int>)
    ensures r.Some? ==> r.value != 0 && FirstQuestionOf(t.questions, quizId) == r
    ensures r.None? ==> FirstQuestionOf(t.questions, quizId) in {None, Some(0)}
  {
    match FirstQuestionOf(t.questions, quizId)
    case Some(q) => if q != 0 then Some(q) else None
    case None => None
  }

  /** The question whose pairs an edit rewrites: the quiz's reused first
      question, or the one the edit inserts with id `next`. */
  function EditedQuestion(t: Tables, next: int, quizId: int): int
  {
    match ReusedQuestion(t, quizId)
    case Some(q) => q
    case None => next
  }

  /** Number of statements an edit runs before the pair inserts. */
  function EditPrefix(t: Tables, quizId: int): nat
  {
    if ReusedQuestion(t, quizId).Some? then 4 else 3
  }

  /** The tables after a committed `save_edit` of quiz `quizId`. */
  function Edited(t: Tables, next: int, quizId: int, form: QuizForm): Tables
  {
    var t1 := t.(quizzes := UpdateQuizRows(t.quizzes, quizId, Trim(form.title), Trim(form.description), PublicFlag(form)));
    var rows := Normalize(form.lefts, form.rights);
    match ReusedQuestion(t, quizId)
    case Some(q) =>
      var t2 := DeletePairsOfQuestion(t1.(questions := UpdatePromptRows(t1.questions, q, Trim(form.prompt))), q);
      t2.(pairs := t2.pairs + StoredPairs(q, next, rows))
    case None =>
      t1.(questions := t1.questions + [Question(next, quizId, Trim(form.prompt))],
          pairs := t1.pairs + StoredPairs(next, next + 1, rows))
  }

  /** `if ($qId)` is a truthiness test: a first question whose id is 0 is
      not reused. The edit inserts a new question for the pairs and leaves
      question 0, its prompt and its pairs as they were. */
  lemma ZeroQuestionIdNotReused(form: QuizForm)
    ensures var t := Tables([Quiz(1, 5, "", "", false)], [Question(0, 1, "")], [Pair(1, 0, "a", "b", 1)], [], []);
      var e := Edited(t, 2, 1, form);
      && IdsBelow(t, 2)
      && FirstQuestionOf(t.questions, 1) == Some(0)
      && EditedQuestion(t, 2, 1) == 2 && EditPrefix(t, 1) == 3
      && e.questions == [Question(0, 1, ""), Question(2, 1, Trim(form.prompt))]
      && Filter(e.pairs, PairOfQuestion(0)) == [Pair(1, 0, "a", "b", 1)]
  {
    var t := Tables([Quiz(1, 5, "", "", false)], [Question(0, 1, "")], [Pair(1, 0, "a", "b", 1)], [], []);
    var rows := Normalize(form.lefts, form.rights);
    var stored := StoredPairs(2, 3, rows);
    assert FirstQuestionOf(t.questions, 1) == Some(0);
    assert Edited(t, 2, 1, form).pairs == t.pairs + stored;
    FilterAppend(t.pairs, stored, PairOfQuestion(0));
    StoredPairsOf(2, 3, rows);
    FilterNone(stored, PairOfQuestion(0));
    assert Filter(t.pairs, PairOfQuestion(0)) == t.pairs by {
      assert t.pairs[1..] == [];
    }
  }

  /** The `save_edit` transaction (index.php:133-170) on an authorized quiz.
      Statement 0 updates the quiz, 1 looks up its first question; then
      either 2 updates that question's prompt and 3 deletes its pairs, or 2
      inserts a question; the pair inserts follow. A fault at any of them
      rolls the whole transaction back. */
  method EditStatements(db: Database, quizId: int, form: QuizForm, fault: Option<nat>) returns (failed: bool)
    modifies db
    ensures db.nextId >= old(db.nextId)
    ensures failed <==> fault.Some? && fault.value < EditPrefix(old(db.t), quizId) + |Normalize(form.lefts, form.rights)|
    ensures failed ==> db.t == old(db.t)
    ensures !failed ==> db.t == Edited(old(db.t), old(db.nextId), quizId, form)
    ensures !failed ==> db.nextId == old(db.nextId) + 4 - EditPrefix(old(db.t), quizId) + |Normalize(form.lefts, form.rights)|
  {
    var title := Trim(form.title);
    var description := Trim(form.description);
    var prompt := Trim(form.prompt);
    var isPublic := form.isPublic == Some("1");

    var snapshot := db.t;
    if FailsAt(fault, 0) {
      db.Rollback(snapshot);
      return true;
    }
    db.UpdateQuiz(quizId, title, description, isPublic);
    if FailsAt(fault, 1) {
      db.Rollback(snapshot);
      return true;
    }
    assert db.t.questions == old(db.t.questions);
    var found := ReusedQuestion(db.t, quizId);
    assert found == ReusedQuestion(old(db.t), quizId);
    var questionId;
    var base: nat;
    if found.Some? {
      questionId := found.value;
      if FailsAt(fault, 2) {
        db.Rollback(snapshot);
        return true;
      }
      db.UpdatePrompt(questionId, prompt);
      if FailsAt(fault, 3) {
        db.Rollback(snapshot);
        return true;
      }
      db.DeleteQuestionPairs(questionId);
      base := 4;
      assert base == EditPrefix(old(db.t), quizId);
    } else {
      if FailsAt(fault, 2) {
        db.Rollback(snapshot);
        return true;
      }
      questionId := db.InsertQuestion(quizId, prompt);
      base := 3;
      assert base == EditPrefix(old(db.t), quizId);
    }
    failed := InsertPairs(db, questionId, form.lefts, form.rights, fault, base);
    if failed {
      db.Rollback(snapshot);
    }
  }

  /** index.php:116-171: only the quiz's owner may edit it; a committed
      edit redirects to the quiz's view page. */
  method SaveEdit(db: Database, userId: Option<int>, quizIdParam: string, form: QuizForm, fault: Option<nat>)
    returns (outcome: SaveOutcome)
    requires db.Valid()
    modifies db
    ensures db.Valid() && db.nextId >= old(db.nextId)
    ensures var quizId := IntVal(quizIdParam);
      var statements := EditPrefix(old(db.t), quizId) + |Normalize(form.lefts, form.rights)|;
      if !MayEdit(old(db.t).quizzes, quizId, userId) then
        outcome == NotAuthorized && db.t == old(db.t)
      else if fault.Some? && fault.value < statements then
        outcome == SaveFailed && db.t == old(db.t)
      else
        outcome == ToView(quizId) && db.t == Edited(old(db.t), old(db.nextId), quizId, form)
  {
    var quizId := IntVal(quizIdParam);
    var owner := OwnerOf(db.t.quizzes, quizId);
    if owner.None? || owner.value == 0 || userId != Some(owner.value) {
      return NotAuthorized;
    }
    ghost var snapshot, next := db.t, db.nextId;
    var failed := EditStatements(db, quizId, form, fault);
    if failed {
      IdsBelowGrows(snapshot, next, db.nextId);
      return SaveFailed;
    }
    EditedKeepsIds(snapshot, next, quizId, form);
    outcome := ToView(quizId);
  }

  /** A committed `save_edit` of an existing quiz keeps every id below the
      next one to be issued. */
  lemma EditedKeepsIds(t: Tables, next: int, quizId: int, form: QuizForm)
    requires IdsBelow(t, next) && OwnerOf(t.quizzes, quizId).Some?
    ensures IdsBelow(Edited(t, next, quizId, form), next + 4 - EditPrefix(t, quizId) + |Normalize(form.lefts, form.rights)|)
  {
    var t1 := t.(quizzes := UpdateQuizRows(t.quizzes, quizId, Trim(form.title), Trim(form.description), PublicFlag(form)));
    UpdateQuizKeepsIds(t, next, quizId, Trim(form.title), Trim(form.description), PublicFlag(form));
    match ReusedQuestion(t, quizId)
    case Some(q) =>
      ReusedQuestionKeepsIds(t1, next, q, Trim(form.prompt), Normalize(form.lefts, form.rights));
    case None =>
      assert quizId < next;
      AddedQuestionKeepsIds(t1, next, quizId, Trim(form.prompt), Normalize(form.lefts, form.rights));
  }

  lemma ReusedQuestionKeepsIds(t: Tables, next: int, q: int, prompt: string, rows: seq<PairRow>)
    requires IdsBelow(t, next) && q < next
    ensures var t' := DeletePairsOfQuestion(t.(questions := UpdatePromptRows(t.questions, q, prompt)), q);
      IdsBelow(t'.(pairs := t'.pairs + StoredPairs(q, next, rows)), next + |rows|)
  {
    UpdatePromptKeepsIds(t, next, q, prompt);
    var t1 := t.(questions := UpdatePromptRows(t.questions, q, prompt));
    DeletesKeepIds(t1, next, 0, q);
    AppendPairsKeepIds(DeletePairsOfQuestion(t1, q), next, StoredPairs(q, next, rows));
  }

  lemma AddedQuestionKeepsIds(t: Tables, next: int, quizId: int, prompt: string, rows: seq<PairRow>)
    requires IdsBelow(t, next) && quizId < next
    ensures var t' := t.(questions := t.questions + [Question(next, quizId, prompt)]);
      IdsBelow(t'.(pairs := t'.pairs + StoredPairs(next, next + 1, rows)), next + 1 + |rows|)
  {
    var question := Question(next, quizId, prompt);
    AppendQuestionKeepsIds(t, next, question);
    AppendPairsKeepIds(t.(questions := t.questions + [question]), next + 1, StoredPairs(next, next + 1, rows));
  }

  /** After an edit, the edited question's pairs are exactly the normalized
      input, and every other question keeps its pairs. */
  lemma EditReplacesPairs(t: Tables, next: int, quizId: int, form: QuizForm, other: int)
    requires IdsBelow(t, next)
    requires other != EditedQuestion(t, next, quizId)
    ensures var e := Edited(t, next, quizId, form);
      var q := EditedQuestion(t, next, quizId);
      && Texts(Filter(e.pairs, PairOfQuestion(q))) == Normalize(form.lefts, form.rights)
      && Filter(e.pairs, PairOfQuestion(other)) == Filter(t.pairs, PairOfQuestion(other))
  {
    var rows := Normalize(form.lefts, form.rights);
    var q := EditedQuestion(t, next, quizId);
    var e := Edited(t, next, quizId, form);
    match ReusedQuestion(t, quizId)
    case Some(_) =>
      var kept := Filter(t.pairs, PairNotOfQuestion(q));
      var stored := StoredPairs(q, next, rows);
      assert e.pairs == kept + stored;
      PairsOfFreshQuestion(kept, q, next, rows);
      FilterAppend(kept, stored, PairOfQuestion(other));
      StoredPairsOf(q, next, rows);
      FilterNone(stored, PairOfQuestion(other));
      OtherQuestionUntouched(t.pairs, q, other);
    case None =>
      var stored := StoredPairs(q, next + 1, rows);
      assert e.pairs == t.pairs + stored;
      PairsOfFreshQuestion(t.pairs, q, next + 1, rows);
      FilterAppend(t.pairs, stored, PairOfQuestion(other));
      StoredPairsOf(q, next + 1, rows);
      FilterNone(stored, PairOfQuestion(other));
  }
}
