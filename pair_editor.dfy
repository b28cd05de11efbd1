/** The editing script of assets/script.js: the list of left/right input
    rows of the pair editor with its running `pairIndex` counter, and the
    all-answered gate of the radio-button quiz view. The DOM is modelled
    by the sequences of rows and radios the script walks. */
module PairEditor {

  /** One `.edit-pair` row: its `data-index` attribute and the values of
      its two text inputs. */
  datatype EditRow = EditRow(index: int, left: string, right: string)

  /** Every row's `data-index` is its position in the list. */
  predicate Numbered(rows: seq<EditRow>)
  {
    forall i :: 0 <= i < |rows| ==> rows[i].index == i
  }

  /** The row container and the global counter. */
  class Editor {
    var rows: seq<EditRow>
    var pairIndex: int

    /** `pairIndex` counts the rows. */
    predicate Counted()
      reads this
    {
      pairIndex == |rows|
    }

    /** assets/script.js:2: the counter starts at the number of rows the page
        was rendered with. */
    constructor(initial: seq<EditRow>)
      ensures rows == initial && pairIndex == |initial| && Counted()
    {
      rows := initial;
      pairIndex := |initial|;
    }

    /** addPair, assets/script.js:5-26: one empty row tagged with the old
        counter is appended, and the counter goes up by one. */
    method AddPair()
      modifies this
      ensures rows == old(rows) + [EditRow(old(pairIndex), "", "")]
      ensures pairIndex == old(pairIndex) + 1
      ensures old(Counted()) ==> Counted()
      ensures old(Counted()) && old(Numbered(rows)) ==> Numbered(rows)
    {
      rows := rows + [EditRow(pairIndex, "", "")];
      pairIndex := pairIndex + 1;
    }

    /** updatePairIndexes, assets/script.js:50-56: each row's `data-index`
        becomes its position, nothing else about the rows changes, and the
        counter becomes the row count. */
    method UpdatePairIndexes()
      modifies this
      ensures |rows| == |old(rows)|
      ensures forall i :: 0 <= i < |rows| ==> rows[i] == old(rows)[i].(index := i)
      ensures Numbered(rows) && Counted()
    {
      var i := 0;
      while i < |rows|
        invariant 0 <= i <= |rows| == |old(rows)|
        invariant forall j :: 0 <= j < i ==> rows[j] == old(rows)[j].(index := j)
        invariant forall j :: i <= j < |rows| ==> rows[j] == old(rows)[j]
      {
        rows := rows[i := rows[i].(index := i)];
        i := i + 1;
      }
      pairIndex := |rows|;
    }

    /** removePair, assets/script.js:33-47, for the row at position `k`:
        with more than one row that row goes, the others keep their order
        and are renumbered; the only row is kept and its inputs are cleared.
        The list is never left empty. */
    method RemovePair(k: nat)
      requires k < |rows|
      modifies this
      ensures |old(rows)| > 1 ==>
        && |rows| == |old(rows)| - 1
        && (forall i :: 0 <= i < k ==> rows[i] == old(rows)[i].(index := i))
        && (forall i :: k <= i < |rows| ==> rows[i] == old(rows)[i + 1].(index := i))
        && Numbered(rows) && Counted()
      ensures |old(rows)| == 1 ==>
        rows == [old(rows)[0].(left := "", right := "")] && pairIndex == old(pairIndex)
      ensures |rows| >= 1
    {
      if |rows| > 1 {
        rows := rows[..k] + rows[k + 1..];
        UpdatePairIndexes();
      } else {
        rows := [rows[k].(left := "", right := "")];
      }
    }
  }

  // ---------------------------------------------------------------------
  // submitQuiz
  // ---------------------------------------------------------------------

  /** One `input[type="radio"]`: its group name and whether it is checked. */
  datatype Radio = Radio(name: string, value: string, checked: bool)

  /** `document.querySelector('input[name="<name>"]:checked')` finds one. */
  predicate GroupAnswered(radios: seq<Radio>, name: string)
  {
    exists j :: 0 <= j < |radios| && radios[j].name == name && radios[j].checked
  }

  /** Every group some radio belongs to has a checked radio. */
  predicate AllAnswered(radios: seq<Radio>)
  {
    forall i :: 0 <= i < |radios| ==> GroupAnswered(radios, radios[i].name)
  }

  /** A non-empty set of radios none of which is checked is not all
      answered: after a submission the next one is refused until the user
      answers again. */
  lemma ClearedIsUnanswered(radios: seq<Radio>)
    requires |radios| > 0
    requires forall i :: 0 <= i < |radios| ==> !radios[i].checked
    ensures !AllAnswered(radios)
  {
    assert !GroupAnswered(radios, radios[0].name);
  }

  /** What `submitQuiz` shows. */
  datatype SubmitMessage =
    | Unanswered          // "Please answer all questions before submitting!"
    | Submitted(total: nat) // "Quiz submitted! You answered <total> questions. ..."

  /** The radio inputs of the quiz view and its number of `.view-pair`
      rows. */
  class QuizPage {
    var radios: seq<Radio>
    var viewPairs: nat

    constructor(radios: seq<Radio>, viewPairs: nat)
      ensures this.radios == radios && this.viewPairs == viewPairs
    {
      this.radios := radios;
      this.viewPairs := viewPairs;
    }

    /** submitQuiz, assets/script.js:76-104: with a group unanswered it only
        alerts; otherwise it reports the number of rows and unchecks every
        radio. */
    method SubmitQuiz() returns (message: SubmitMessage)
      modifies this
      ensures !AllAnswered(old(radios)) ==> message == Unanswered && unchanged(this)
      ensures AllAnswered(old(radios)) ==>
        && message == Submitted(viewPairs)
        && viewPairs == old(viewPairs)
        && |radios| == |old(radios)|
        && (forall i :: 0 <= i < |radios| ==> radios[i] == old(radios)[i].(checked := false))
    {
      var allAnswered := true;
      var i := 0;
      while i < |radios|
        invariant 0 <= i <= |radios|
        invariant allAnswered <==> forall j :: 0 <= j < i ==> GroupAnswered(radios, radios[j].name)
      {
        if !GroupAnswered(radios, radios[i].name) {
          allAnswered := false;
        }
        i := i + 1;
      }
      if !allAnswered {
        return Unanswered;
      }
      message := Submitted(viewPairs);
      i := 0;
      while i < |radios|
        invariant 0 <= i <= |radios| == |old(radios)|
        invariant forall j :: 0 <= j < i ==> radios[j] == old(radios)[j].(checked := false)
        invariant forall j :: i <= j < |radios| ==> radios[j] == old(radios)[j]
        invariant viewPairs == old(viewPairs)
      {
        radios := radios[i := radios[i].(checked := false)];
        i := i + 1;
      }
    }
  }
}
