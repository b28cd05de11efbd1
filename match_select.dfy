/** The take-quiz script of assets/index.js: clicking a left item arms it,
    clicking a right item then records the match `left -> right` in the
    `matches` object, and "finish" decides whether to post the matches. Ids
    are the strings the page passes in; a JavaScript object's keys are
    strings, so `matches` is a map from string to string. */
module MatchSelect {
  import opened Php

  /** The two globals: `matches` and `currentLeft` (`None` is `null`). */
  datatype Board = Board(matches: map<string, string>, currentLeft: Option<string>)

  /** One call `handleMatchSelect(side, id)`. */
  datatype Click = Click(side: string, id: string)

  /** The board after `handleMatchSelect(c.side, c.id)`. */
  function Select(b: Board, c: Click): Board
  {
    if c.side == "L" then b.(currentLeft := Some(c.id))
    else if c.side == "R" && b.currentLeft.Some? then
      Board(b.matches[b.currentLeft.value := c.id], None)
    else b
  }

  /** The click only raises the "Select a question on the left first!" alert. */
  predicate Warns(b: Board, c: Click) { c.side == "R" && b.currentLeft.None? }

  /** The board after a sequence of clicks. */
  function Run(b: Board, clicks: seq<Click>): Board
  {
    if clicks == [] then b else Select(Run(b, clicks[..|clicks| - 1]), clicks[|clicks| - 1])
  }

  /** The global state of the page script. */
  class Matcher {
    var matches: map<string, string>
    var currentLeft: Option<string>

    function State(): Board
      reads this
    {
      Board(matches, currentLeft)
    }

    /** The page loads with no match and nothing armed. */
    constructor()
      ensures State() == Board(map[], None)
    {
      matches := map[];
      currentLeft := None;
    }

    /** assets/index.js:47-66. */
    method HandleMatchSelect(side: string, id: string) returns (warned: bool)
      modifies this
      ensures State() == Select(old(State()), Click(side, id))
      ensures warned <==> Warns(old(State()), Click(side, id))
    {
      warned := false;
      if side == "L" {
        currentLeft := Some(id);
      } else if side == "R" {
        if currentLeft != None {
          matches := matches[currentLeft.value := id];
          currentLeft := None;
        } else {
          warned := true;
        }
      }
    }
  }

  /** Selecting a left item arms it, whatever was armed before, and leaves
      the matches alone. */
  lemma SelectLeftArms(b: Board, id: string)
    ensures Select(b, Click("L", id)) == Board(b.matches, Some(id))
  {
  }

  /** A side other than "L" or "R" changes nothing. */
  lemma OtherSideIgnored(b: Board, c: Click)
    requires c.side != "L" && c.side != "R"
    ensures Select(b, c) == b && !Warns(b, c)
  {
  }

  /** Selecting a right item with a left item armed records (or overwrites)
      exactly that left item's match and disarms; with nothing armed it
      changes nothing. */
  lemma SelectRightCommits(b: Board, id: string)
    ensures b.currentLeft.Some? ==>
      && Select(b, Click("R", id)).matches == b.matches[b.currentLeft.value := id]
      && Select(b, Click("R", id)).currentLeft.None?
    ensures b.currentLeft.None? ==> Select(b, Click("R", id)) == b
  {
  }

  /** `L a`, `L x`, `R r` records only `x -> r`: the first armed item is
      never committed. */
  lemma LastArmedWins(b: Board, a: string, x: string, r: string)
    ensures Run(b, [Click("L", a), Click("L", x), Click("R", r)]) == Board(b.matches[x := r], None)
  {
    var cs := [Click("L", a), Click("L", x), Click("R", r)];
    assert cs[..2] == [Click("L", a), Click("L", x)];
    assert cs[..2][..1] == [Click("L", a)];
    assert cs[..2][..1][..0] == [];
    assert Run(b, cs[..2][..1]) == Board(b.matches, Some(a));
    assert Run(b, cs[..2]) == Board(b.matches, Some(x));
  }

  /** No click ever removes a match: the set of matched left ids only grows. */
  lemma {:induction false} MatchesNeverShrink(b: Board, clicks: seq<Click>)
    ensures b.matches.Keys <= Run(b, clicks).matches.Keys
  {
    if clicks != [] {
      MatchesNeverShrink(b, clicks[..|clicks| - 1]);
    }
  }

  /** Every match recorded by a run of clicks names, as its right id, the id
      of some "R" click of the run. */
  lemma {:induction false} MatchesComeFromRightClicks(b: Board, clicks: seq<Click>, left: string)
    requires left in Run(b, clicks).matches
    ensures || (left in b.matches && Run(b, clicks).matches[left] == b.matches[left])
            || (exists i :: 0 <= i < |clicks| && clicks[i].side == "R" && clicks[i].id == Run(b, clicks).matches[left])
  {
    if clicks != [] {
      var init := clicks[..|clicks| - 1];
      var c := clicks[|clicks| - 1];
      var before := Run(b, init);
      if c.side == "R" && before.currentLeft.Some? && before.currentLeft.value == left {
        assert clicks[|clicks| - 1].side == "R";
      } else {
        assert left in before.matches;
        MatchesComeFromRightClicks(b, init, left);
        if !(left in b.matches && before.matches[left] == b.matches[left]) {
          var i :| 0 <= i < |init| && init[i].side == "R" && init[i].id == before.matches[left];
          assert clicks[i] == init[i];
        }
      }
    }
  }

  // ---------------------------------------------------------------------
  // calculateScore
  // ---------------------------------------------------------------------

  datatype Decision =
    | Cancelled       // the user declined "Submit anyway?"
    | NothingMatched  // the "You haven't matched anything yet!" alert
    | Submit          // the form is posted

  /** `count < totalPairs`: `parseInt` of a missing or non-numeric
      `data-total` is NaN (`None`), and every comparison with NaN is false. */
  predicate BelowTotal(count: nat, total: Option<int>) { total.Some? && count < total.value }

  /** What assets/index.js:99-126 does for `count` matches and `totalPairs`
      `total`, where `confirmed` is the answer to the confirmation dialog. */
  function Decide(count: nat, total: Option<int>, confirmed: bool): Decision
  {
    if BelowTotal(count, total) && !confirmed then Cancelled
    else if count == 0 then NothingMatched
    else Submit
  }

  /** The matches are posted exactly when there is at least one and either
      all pairs are matched (or the total is unreadable) or the user agrees
      to submit a partial set. */
  lemma SubmitsIff(count: nat, total: Option<int>, confirmed: bool)
    ensures Decide(count, total, confirmed) == Submit <==>
      count > 0 && (total.None? || count >= total.value || confirmed)
    ensures count == 0 ==> Decide(count, total, confirmed) != Submit
  {
  }

  /** The form `calculateScore` fills in and posts. */
  class ResultForm {
    var action: string
    var matchResults: Option<map<string, string>>
    var submitted: bool

    constructor(action: string)
      ensures this.action == action && matchResults.None? && !submitted
    {
      this.action := action;
      matchResults := None;
      submitted := false;
    }
  }

  /** assets/index.js:99-126. `total` is `parseInt(form.dataset.total)` and
      `confirmed` the user's answer if the confirmation is asked. The posted
      payload is the `matches` object itself (its JSON text is left out). */
  method CalculateScore(m: Matcher, form: ResultForm, total: Option<int>, confirmed: bool)
    returns (asked: bool, decision: Decision)
    modifies form
    ensures asked <==> BelowTotal(|m.matches|, total)
    ensures decision == Decide(|m.matches|, total, confirmed)
    ensures decision == Submit ==>
      form.matchResults == Some(m.matches) && form.action == "submit_quiz" && form.submitted
    ensures decision != Submit ==> unchanged(form)
  {
    var count := |m.matches|;
    asked := false;
    if total.Some? && count < total.value {
      asked := true;
      if !confirmed {
        return asked, Cancelled;
      }
    }
    if count == 0 {
      decision := NothingMatched;
    } else {
      form.matchResults := Some(m.matches);
      form.action := "submit_quiz";
      form.submitted := true;
      decision := Submit;
    }
  }
}
