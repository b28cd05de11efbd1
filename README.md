# Matching-pairs quiz: a Dafny model

This project models the core of a small PHP/MySQL web application for
matching-pairs quizzes. A logged-in user writes a quiz: a title, a
description, a public flag, one question prompt and a list of left/right
pairs. Anyone may take a quiz by matching each left item with a right item.
Each attempt is scored and stored together with its answers. The owner can
edit the quiz, and the delete page removes it with everything hanging off it.

The model covers these parts:

- The four request handlers of `index.php`:
  - loading a quiz for viewing, with the shuffled right-hand column;
  - `save_new`;
  - `save_edit`;
  - `submit_attempt`.
  Each transaction is a sequence of statement methods on a `Database` object.
  An optional `fault` parameter names the statement that throws. The handler
  then rolls back, so a failed request leaves the tables as they were.
- The cascade of `pages/delete_quiz.php`: five `DELETE` statements in one
  transaction.
- The registration page `pages/register.php`:
  - its server-side validation, in the order the messages are added;
  - the duplicate check and the insert;
  - the password-strength meter and the submit gate of its inline script.
- The matching script `assets/index.js`: clicks arm a left item and commit it
  to a right item; "finish" decides whether the matches are posted.
- The editing script `assets/script.js`:
  - adding, removing and renumbering pair rows, with their running counter;
  - the all-answered check of the radio-button quiz view.

The database is a value `Tables` of five row sequences: quizzes, questions,
pairs, attempts and answers. All inserts draw their ids from one increasing
counter. The invariant `Store.IdsBelow` says that every id is below the
counter, that every parent id a row names is below the counter too, and that
pair ids ascend in table order. It does not say that the parent exists: an
attempt is stored for any posted `quiz_id`. Every handler keeps it. Because of
it, table order is `ORDER BY pair_id` order, and a freshly inserted id is never
already in use.

In these points the code behaves as follows, and the model follows it:

- An answer is scored correct when the chosen right pair id equals the left
  pair id. Texts are not compared.
- The total is the number of answers posted, not the number of pairs of the
  quiz.
- The pair ids of the quiz are fetched, but they never enter the score
  (`SubmitAttempt.ForeignPairScores`).
- The delete page checks neither a login nor ownership.

## Model

| member | source | states |
|---|---|---|
| Php.Trim | index.php:67-69 | `trim` leaves no blank at either end; the result is empty exactly when the input is all blanks; it never lengthens its input; it returns input that starts and ends with a non-blank unchanged |
| Php.TrimBounds | index.php:67-69 | `trim`'s result is the slice `s[i..j]` of its input, with only blanks before `i` and from `j` on |
| Php.TrimIsInfix | index.php:67-69 | `trim` removes a blank prefix and a blank suffix and nothing else: its result is a contiguous slice of the input between them |
| Php.IntValOfDecimal | index.php:180-181 | `intval` reads back every integer written in decimal, so ids put into form field names and values survive the round trip |
| Store.OwnerOf | index.php:119-121 | the owner is `None` exactly when no quiz has the id; otherwise it is the owner of a quiz with that id |
| Store.FirstQuestionOf | index.php:138-140 | `LIMIT 1` finds a question exactly when the quiz has one, and the id found belongs to a question of that quiz |
| Store.RightTextOf | index.php:215-217 | the lookup yields `None` (PHP `false`) exactly when no pair has the id; otherwise it is that pair's right text |
| Store.FilterKeepsAscending | index.php:57 | a `WHERE` filter on tables with ascending pair ids keeps them ascending |
| Store.DeletesKeepIds | pages/delete_quiz.php:13-30 | every `DELETE` of the application keeps the id invariant |
| Store.Database.InsertQuiz | index.php:85-87 | the quiz row is appended with the next id, and the counter advances by one |
| Store.Database.InsertQuestion | index.php:90-92 | the question row is appended with the next id |
| Store.Database.InsertPair | index.php:96-101 | the pair row is appended with the next id |
| Store.Database.InsertAttempt | index.php:207-209 | the attempt row is appended with the next id |
| Store.Database.InsertAnswer | index.php:212-219 | the answer row is appended; no id is drawn |
| Store.Database.UpdateQuiz | index.php:134-135 | exactly the rows with that quiz id get the new title, description and flag |
| Store.Database.UpdatePrompt | index.php:142-143 | exactly the question with that id gets the new prompt |
| Store.Database.DeleteQuestionPairs | index.php:145-146 | exactly the pairs of that question go |
| Store.Database.DeleteQuizAnswers | pages/delete_quiz.php:13-14 | the answers of the quiz's attempts go |
| Store.Database.DeleteQuizAttempts | pages/delete_quiz.php:17-18 | the attempts of the quiz go |
| Store.Database.DeleteQuizPairs | pages/delete_quiz.php:21-22 | the pairs of the quiz's questions go |
| Store.Database.DeleteQuizQuestions | pages/delete_quiz.php:25-26 | the questions of the quiz go |
| Store.Database.DeleteQuiz | pages/delete_quiz.php:29-30 | the quiz row goes |
| Store.Database.Rollback | pages/delete_quiz.php:36-37 | `rollBack` restores the tables as they were when the transaction began |
| SubmitAttempt.CollectAnswers | index.php:177-184 | the `foreach ($_POST ...)` loop builds exactly the answers array that the fields, read in order, define |
| SubmitAttempt.AnsweredIffPosted | index.php:178-183 | a left pair id is answered if and only if some posted `choice_left_` key reads as that id |
| SubmitAttempt.LastFieldWins | index.php:183 | when a left pair id is posted twice, the later value is the one kept |
| SubmitAttempt.IgnoredFields | index.php:179 | fields without the `choice_left_` prefix (such as `action` and `quiz_id`) leave the answers empty |
| SubmitAttempt.RadioReadsBack | index.php:442 | a radio's name and value, as the view page writes them, parse back to its left and right pair ids |
| SubmitAttempt.FormRoundTrip | index.php:177-184 | posting the view page's form gives back exactly the choices checked on it |
| SubmitAttempt.ComputeScore | index.php:193-204 | the score counts the answers whose chosen id is the left id, the total counts all answers, and 0 <= score <= total |
| SubmitAttempt.ForeignPairScores | index.php:198-204 | a choice `n -> n` scores a point even when `n` is not a pair of the quiz: the fetched pair ids are never used |
| SubmitAttempt.RecordAnswers | index.php:212-220 | in key order, one answer row per answer is appended: chosen text and correctness flag; a throwing lookup or insert is reported |
| SubmitAttempt.Submit | index.php:173-231 | on commit, the attempt row with the score and its answer rows are added, and the outcome carries score and total; on an exception, nothing changes |
| SubmitAttempt.RecordedKeepsIds | index.php:207-220 | recording an attempt keeps the id invariant |
| SubmitAttempt.RecordedAttemptIsConsistent | index.php:203-220 | the stored attempt has one answer row per answer; its correct rows number exactly its stored score, which lies between 0 and that count |
| SubmitAttempt.CorrectRowsScore | index.php:217-219 | the `is_correct` flags of the stored rows add up to the score |
| PairSave.NormalizeKeepsNonBlankRows | index.php:95-103 | the rows kept are the trimmed input rows whose two sides are not both empty, in input order, numbered from 1; a missing right cell counts as empty |
| PairSave.KeptRowsAreKeptIndices | index.php:97-102 | the kept rows and their input indices correspond one to one, with positions counting up from 1 |
| PairSave.TextsOfStored | index.php:96-102 | the stored pairs carry exactly the texts and positions of the kept rows |
| PairSave.InsertPairs | index.php:95-103 | the pair loop appends one pair per kept row, with consecutive fresh ids, or reports the insert that throws |
| PairSave.CreateStatements | index.php:82-111 | the `save_new` transaction adds the quiz, its question and its pairs, or changes nothing when a statement throws |
| PairSave.SaveNew | index.php:65-113 | a guest is sent to log in and nothing changes; otherwise the quiz is created and shown, or the transaction is rolled back |
| PairSave.CreatedKeepsIds | index.php:82-103 | creating a quiz keeps the id invariant |
| PairSave.CreatedPairsAreInput | index.php:85-103 | after `save_new`, the quiz is owned by the user, its first question is the new one, and that question's pairs read back as the normalised input rows |
| PairSave.OwnerOfAppended | index.php:85-87 | a quiz appended with a fresh id is found with its owner |
| PairSave.FirstQuestionOfAppended | index.php:90-92 | a question appended to a quiz without questions becomes its first question |
| PairSave.PairsOfFreshQuestion | index.php:96-102 | the pairs of a freshly inserted question are exactly the ones the loop inserts |
| PairSave.OtherQuestionUntouched | index.php:145-146 | deleting one question's pairs leaves every other question's pairs as they were |
| PairSave.ReusedQuestion | index.php:138-141 | the question reused is the quiz's first question exactly when that exists and its id is truthy (non-zero); otherwise none is reused |
| PairSave.EditStatements | index.php:133-170 | `save_edit` updates the quiz, reuses the first question when its id is truthy or else adds one, replaces that question's pairs, or changes nothing when a statement throws |
| PairSave.ZeroQuestionIdNotReused | index.php:139-150 | a first question with id 0 fails `if ($qId)`: the edit adds a new question and leaves question 0 and its pairs as they were |
| PairSave.SaveEdit | index.php:116-171 | only the quiz's truthy owner may edit it; others get an error and nothing changes; otherwise the edit commits or rolls back |
| PairSave.EditedKeepsIds | index.php:133-161 | editing keeps the id invariant |
| PairSave.ReusedQuestionKeepsIds | index.php:141-146 | updating an existing question and replacing its pairs keeps the id invariant |
| PairSave.AddedQuestionKeepsIds | index.php:147-150 | adding the missing first question keeps the id invariant |
| PairSave.EditReplacesPairs | index.php:138-161 | after an edit, the edited question's pairs read back as the normalised input rows, and every other question keeps its pairs |
| TakeView.LoadPairs | index.php:43-62 | nothing is loaded without a truthy quiz id or for a missing quiz; whatever is loaded is a stored pair |
| TakeView.LoadedPairsAscending | index.php:51-60 | the loaded pairs are exactly the pairs of the quiz's first question, in strictly ascending `pair_id` order |
| TakeView.FisherYatesPermutes | index.php:254 | whatever numbers are drawn, `shuffle` only reorders: the result is a permutation |
| TakeView.Shuffle | index.php:254 | the array's new contents are the Fisher–Yates reordering of its old contents for the given draws, and so a permutation of them |
| TakeView.PrepareRightColumn | index.php:251-256 | outside view mode, or with no pairs, the right column is empty; otherwise it is the shuffled copy of the pairs |
| TakeView.ColumnsHoldSamePairs | index.php:251-256 | both columns offer the same pairs, equally many |
| MatchSelect.Matcher.constructor | assets/index.js:2-3 | the page starts with no matches and nothing armed |
| MatchSelect.Matcher.HandleMatchSelect | assets/index.js:47-66 | a click on the left arms that item; a click on the right commits the armed item to it and disarms; a right click with nothing armed only warns |
| MatchSelect.SelectLeftArms | assets/index.js:48-52 | a left click arms the item, whatever was armed, and leaves the matches alone |
| MatchSelect.OtherSideIgnored | assets/index.js:47-66 | a click on a side other than "L" or "R" changes nothing and does not warn |
| MatchSelect.SelectRightCommits | assets/index.js:53-64 | a right click records or overwrites exactly the armed item's match and disarms; with nothing armed it changes nothing |
| MatchSelect.LastArmedWins | assets/index.js:48-59 | after `L a`, `L x`, `R r`, only `x -> r` is recorded |
| MatchSelect.MatchesNeverShrink | assets/index.js:47-66 | no sequence of clicks removes a match |
| MatchSelect.MatchesComeFromRightClicks | assets/index.js:53-58 | every recorded match was there before or names the id of some right click |
| MatchSelect.SubmitsIff | assets/index.js:99-126 | the matches are posted exactly when there is at least one, and either the count reaches the total, the total is unreadable, or the user confirms |
| MatchSelect.CalculateScore | assets/index.js:99-126 | the confirmation is asked exactly when fewer matches than pairs exist; when posting, the form carries the matches to `submit_quiz`; otherwise it is untouched |
| Registration.ByteLength | pages/register.php:34 | `strlen` is never less than the number of characters |
| Registration.AsciiByteLength | pages/register.php:34 | on ASCII text `strlen` is the number of characters |
| Registration.CodeUnitsAtMostBytes | pages/register.php:452 | a JavaScript length (UTF-16 code units) never exceeds the UTF-8 byte length |
| Registration.RoleError | pages/register.php:21-30 | the role is refused unless it is 1 or 2 |
| Registration.UsernameError | pages/register.php:22-38 | no message exactly for 3 to 20 characters, all letters, digits or `_`; otherwise the first failing check's message |
| Registration.EmailError | pages/register.php:23-46 | no message exactly when the address is non-empty by PHP's `empty`, valid, and at most 50 bytes |
| Registration.PasswordError | pages/register.php:48-54 | no message exactly when the password is at least 8 bytes and has an upper-case letter, a lower-case letter and a digit |
| Registration.FieldErrors | pages/register.php:28-58 | the field checks yield no message exactly when the whole form is acceptable, and at most one message per check |
| Registration.ValidateForm | pages/register.php:19-58 | appending the messages one by one builds exactly the specified list; the list is empty exactly when the roles loaded and the form is acceptable |
| Registration.DuplicateErrors | pages/register.php:61-84 | the duplicate check adds no message exactly when the lookup does not throw and neither the name nor the address is taken |
| Registration.RegisterSucceedsIff | pages/register.php:19-112 | an account is created if and only if the roles loaded, the form is acceptable, name and address are free, and neither the lookup nor the insert throws |
| Registration.AddingFreshAccountKeepsUnique | pages/register.php:94-96 | inserting an account whose name and address are free keeps names, addresses and ids unique |
| Registration.UserTable.CheckDuplicates | pages/register.php:61-84 | the statements compute the specified duplicate messages and change nothing |
| Registration.UserTable.InsertUser | pages/register.php:94-97 | the account is appended with the next id |
| Registration.UserTable.Register | pages/register.php:19-112 | the messages are the specified ones; on success the account is added and the session logs in; on failure nothing changes |
| Registration.Strength | pages/register.php:447-462 | the strength is always a percentage from 0 to 100 |
| Registration.ShowStrength | pages/register.php:447-475 | the bar gets the clamped strength as width and the colour of its band |
| Registration.FullStrengthIff | pages/register.php:452-462 | the bar is full exactly when the password has 8 code units and all four kinds of character |
| Registration.AllowedPasswordIsGreen | pages/register.php:452-516 | every password the submit gate allows shows a green bar of at least 85 percent |
| Registration.GreenBarMayBeRefused | pages/register.php:468-516 | a green bar does not guarantee acceptance: "aA1!" is green but refused |
| Registration.OnSubmit | pages/register.php:497-524 | the post goes ahead exactly when the gate allows it, and the button then shows its loading state; otherwise exactly one alert is shown and the button is unchanged |
| Registration.ScriptGateSound | pages/register.php:497-516 | with the confirmation filled in, whatever the script allows passes the server's password checks |
| Registration.EmptyConfirmationPassesScript | pages/register.php:478-516 | the script alone lets an empty confirmation through; the server would refuse it as a mismatch |
| Registration.ScriptStricterOnNonAscii | pages/register.php:452-512 | on non-ASCII text the script refuses a password that the server would accept |
| PairEditor.Editor.constructor | assets/script.js:2 | the counter starts at the number of rows the page was rendered with |
| PairEditor.Editor.AddPair | assets/script.js:5-30 | one empty row tagged with the old counter is appended, and the counter increases; row numbering and count are preserved |
| PairEditor.Editor.UpdatePairIndexes | assets/script.js:50-56 | every row's index becomes its position, nothing else changes, and the counter becomes the row count |
| PairEditor.Editor.RemovePair | assets/script.js:33-47 | with several rows, the chosen row goes and the rest keep their order and are renumbered; the last row is only cleared; the list is never empty |
| PairEditor.ClearedIsUnanswered | assets/script.js:82-103 | once every radio is cleared, the next submission is refused until the user answers again |
| PairEditor.QuizPage.SubmitQuiz | assets/script.js:76-104 | with any group unanswered, only an alert and nothing changes; otherwise the row count is reported and every radio is unchecked |
| DeleteQuiz.CascadeRemovesExactlyTheQuiz | pages/delete_quiz.php:13-30 | exactly the quiz, its questions, their pairs, its attempts and their answers are removed; every other row stays |
| DeleteQuiz.NoOrphansRemain | pages/delete_quiz.php:13-30 | after the cascade no row refers to the quiz or to a removed parent |
| DeleteQuiz.CascadeIdempotent | pages/delete_quiz.php:13-30 | deleting a quiz twice is the same as deleting it once |
| DeleteQuiz.AttemptsFirstLeavesAnswers | pages/delete_quiz.php:13-18 | the statement order matters: deleting attempts before their answers would leave those answers behind |
| DeleteQuiz.QuestionsFirstLeavesPairs | pages/delete_quiz.php:21-26 | deleting questions before their pairs would leave those pairs behind |
| DeleteQuiz.CascadeKeepsIds | pages/delete_quiz.php:13-30 | the cascade keeps the id invariant |
| DeleteQuiz.CascadeStatements | pages/delete_quiz.php:8-38 | the five statements commit the cascade, or, if any of them throws, roll back to the tables as before |
| DeleteQuiz.HandleDelete | pages/delete_quiz.php:5-43 | without an id, a redirect and no change; with one, the `(int)` id's cascade is committed, or, exactly when one of its five statements throws, an error is shown and nothing changes |

## Left out

- Rendering is not modelled: the HTML pages, the sidebar lists of a user's quizzes and of public quizzes, the toast, modal and character counters, the canvas lines of `drawAllLines`, and styling.
- `pages/login.php`, `db.php` and the session check are not part of this model. The logged-in user id is a parameter.
- Exceptions are modelled as a `fault` parameter naming the statement that throws. A failing `commit` is not modelled.
- PairSave.SaveEdit, TakeView.LoadPairs: the reads outside a transaction are taken not to throw. These are the owner lookup of `save_edit` (index.php:119-121) and the view's loads (index.php:45-59, 235-245). In the code such a failure is an uncaught fatal error: the page dies with no redirect and no `$error`, and nothing changes.
- MySQL keeps one auto-increment counter per table. The model draws every id from one shared counter. Only freshness and increase matter to the code, and both hold either way.
- A rollback does not restore the counter, just as MySQL does not give back auto-increment values.
- Store.Database: the counter starts at 1 or above, so every id the model issues is non-zero. Rows already in the tables may carry any id below the counter. Each truthiness test the code makes on an id (`$quiz_id`, `$owner`, `$qId`, `$user_id`) is modelled as written, so an id of 0 takes the falsy branch (`PairSave.ZeroQuestionIdNotReused`).
- Php.IntVal: models `intval` and `(int)` on plain decimal text only. Since PHP 7.1 a numeric string with an exponent or a fraction is read whole (`intval("1e1")` is 10); the model stops at the first non-digit and gives 1. PHP saturates at `PHP_INT_MAX`; the model's integers are unbounded. The pages' own forms and links only ever send plain decimals.
- PairSave.PublicFlag: `$_POST['is_public'] == '1'` is PHP's loose comparison, so numeric strings such as `" 1"`, `"01"`, `"+1"`, `"1.0"` and `"1e0"` also make a quiz public. The model accepts only `"1"`, the value the form's checkbox sends.
- SubmitAttempt.RecordAnswers: a chosen id that names no pair is stored as `None`. The database stores the empty string in that case, so it cannot tell `None` from `Some("")`.
- SubmitAttempt: the model reads the posted fields in order, not the `$_POST` array PHP builds from them. Three differences follow, and only crafted requests reach them. PHP rewrites `.` and ` ` in field names to `_`, so `choice_left.5` counts as left id 5 in the code and is ignored by the model. A field such as `choice_left_5[]` makes the value an array, whose `intval` is 1 when non-empty; the model's values are strings only. A key posted twice keeps its first position in `$_POST` with its last value, so with a second spelling of the same id (`choice_left_5=1`, `choice_left_05=2`, `choice_left_5=3`) the code stores 5→2 and the model 5→3.
- Registration.UserTable.CheckDuplicates: names and addresses are compared exactly. MySQL's default collation ignores case and trailing spaces, so it finds more duplicates than the model does.
- Registration: `FILTER_VALIDATE_EMAIL` is an abstract predicate `isEmail`, and `password_hash` is a parameter `hash`. `filter_input(..., FILTER_VALIDATE_INT)` is its result, `Option<int>`.
- Registration: a `$_POST` value that is an array rather than a string is not modelled.
- Registration: the "Email must be less than 50 characters" message is modelled as the code behaves. The code accepts exactly 50 bytes.
- Registration: the browser's own constraint checks (`required`, `minlength`, `maxlength`, `type="email"`) are not modelled. `Registration.EmptyConfirmationPassesScript` shows where `required` matters.
- Strings are sequences of Unicode scalar values, assumed to arrive as UTF-8. `strlen` is their UTF-8 byte length, and a JavaScript `.length` is their UTF-16 length.
- TakeView.Shuffle: the random numbers are a parameter. The uniformity of PHP's generator, and so of the permutation, is not modelled.
- TakeView.LoadPairs: `ORDER BY pair_id` is table order. The id invariant makes the two agree (`TakeView.LoadedPairsAscending`).
- MatchSelect.CalculateScore: the posted payload is the `matches` map itself. Its JSON text is left out.
- MatchSelect: `assets/index.js` posts `match_results` to `submit_quiz`, which no handler of `index.php` reads. The two are therefore not connected in the model. The view page's radio form is what `SubmitAttempt` reads.
- MatchSelect: if `drawAllLines` throws, `currentLeft` could be left set. Highlighting and line drawing are left out.
- PairEditor: the DOM is modelled by the sequences of rows and radios the script walks. A removed row is given by its position, not by the clicked button.
- PairEditor: CSS quoting of radio names in `querySelector` is not modelled.
- PairEditor.Editor.AddPair: the scroll to the new row is left out.
- Reviewing past attempts is not part of this model.
