/** Scoring of one submitted row: the exact-match pass and the partial-match
    pass of checkGuess, stated as functions of the guessed graphemes and the
    target graphemes, with the duplicate-letter credit bound proved about them. */
module Evaluation {

  datatype Option<T> = None | Some(value: T)

  /** The states a board cell can be in. */
  datatype CellState = Empty | Filled | Correct | Present | Absent

  /** One board cell: the grapheme it shows and its state. */
  datatype Cell = Cell(grapheme: string, state: CellState)

  /** The cell a new board and a backspace leave behind. */
  const EmptyCell := Cell("", Empty)

  /** The three states a submitted cell can receive. */
  predicate IsScored(s: CellState) {
    s == Correct || s == Present || s == Absent
  }

  /** The target positions the exact-match pass records in matchedPositions. */
  function ExactMatches(guess: seq<string>, target: seq<string>): set<nat>
    requires |guess| == |target|
  {
    set k: nat | k < |guess| && guess[k] == target[k]
  }

  /** The inner scan of the partial-match pass: the leftmost position at or
      after lo that is not yet consumed and holds g, if there is one. */
  function LeftmostFree(target: seq<string>, consumed: set<nat>, g: string, lo: nat): (r: Option<nat>)
    requires lo <= |target|
    decreases |target| - lo
    ensures r.Some? ==> lo <= r.value < |target| && r.value !in consumed && target[r.value] == g
    ensures r.Some? ==> forall k :: lo <= k < r.value ==> k in consumed || target[k] != g
    ensures r.None? ==> forall k :: lo <= k < |target| ==> k in consumed || target[k] != g
  {
    if lo == |target| then None
    else if lo !in consumed && target[lo] == g then Some(lo)
    else LeftmostFree(target, consumed, g, lo + 1)
  }

  /** matchedPositions as it stands when the partial-match pass reaches
      position i: the exact matches plus one position per earlier present cell. */
  ghost function Consumed(guess: seq<string>, target: seq<string>, i: nat): set<nat>
    requires |guess| == |target| && i <= |guess|
  {
    if i == 0 then ExactMatches(guess, target)
    else
      var c := Consumed(guess, target, i - 1);
      if guess[i - 1] == target[i - 1] then c
      else match LeftmostFree(target, c, guess[i - 1], 0)
        case Some(j) => c + {j}
        case None => c
  }

  /** The state the two passes give cell i. */
  ghost function Mark(guess: seq<string>, target: seq<string>, i: nat): CellState
    requires |guess| == |target| && i < |guess|
  {
    if guess[i] == target[i] then Correct
    else if LeftmostFree(target, Consumed(guess, target, i), guess[i], 0).Some? then Present
    else Absent
  }

  /** The states of the first n cells of a submitted row. */
  ghost function Marks(guess: seq<string>, target: seq<string>, n: nat): (marks: seq<CellState>)
    requires |guess| == |target| && n <= |guess|
    ensures |marks| == n
    ensures forall i :: 0 <= i < n ==> IsScored(marks[i])
    ensures forall i :: 0 <= i < n ==> (marks[i] == Correct <==> guess[i] == target[i])
  {
    if n == 0 then [] else Marks(guess, target, n - 1) + [Mark(guess, target, n - 1)]
  }

  /** The states of a whole submitted row. Every cell receives exactly one of
      correct, present and absent, and a cell is correct exactly where the
      guess agrees with the target. */
  ghost function Evaluate(guess: seq<string>, target: seq<string>): (marks: seq<CellState>)
    requires |guess| == |target|
    ensures |marks| == |guess|
    ensures forall i :: 0 <= i < |marks| ==> IsScored(marks[i])
    ensures forall i :: 0 <= i < |marks| ==> (marks[i] == Correct <==> guess[i] == target[i])
  {
    Marks(guess, target, |guess|)
  }

  /** Cell i of a row of at least n cells is scored by Mark. */
  lemma {:induction false} MarksAt(guess: seq<string>, target: seq<string>, n: nat, i: nat)
    requires |guess| == |target| && i < n <= |guess|
    ensures Marks(guess, target, n)[i] == Mark(guess, target, i)
  {
    if i < n - 1 {
      MarksAt(guess, target, n - 1, i);
    }
  }

  /** A cell is absent only when no unconsumed target position holds its
      grapheme; a present cell consumes the leftmost such position; any other
      cell consumes nothing. */
  lemma PartialMatchStep(guess: seq<string>, target: seq<string>, i: nat)
    requires |guess| == |target| && i < |guess|
    ensures Evaluate(guess, target)[i] == Absent ==>
      forall j :: 0 <= j < |target| && j !in Consumed(guess, target, i) ==> target[j] != guess[i]
    ensures Evaluate(guess, target)[i] == Present ==>
      exists j :: 0 <= j < |target| && j !in Consumed(guess, target, i) && target[j] == guess[i]
        && (forall k :: 0 <= k < j ==> k in Consumed(guess, target, i) || target[k] != guess[i])
        && Consumed(guess, target, i + 1) == Consumed(guess, target, i) + {j}
    ensures Evaluate(guess, target)[i] != Present ==>
      Consumed(guess, target, i + 1) == Consumed(guess, target, i)
  {
    MarksAt(guess, target, |guess|, i);
    var c := Consumed(guess, target, i);
    if guess[i] != target[i] {
      match LeftmostFree(target, c, guess[i], 0)
      case Some(j) =>
        assert Consumed(guess, target, i + 1) == c + {j};
      case None =>
    }
  }

  /** Every position of matchedPositions lies inside the target, and the
      exact matches stay in it. */
  lemma {:induction false} ConsumedBounds(guess: seq<string>, target: seq<string>, i: nat)
    requires |guess| == |target| && i <= |guess|
    ensures forall j :: j in Consumed(guess, target, i) ==> j < |target|
    ensures ExactMatches(guess, target) <= Consumed(guess, target, i)
  {
    if i > 0 {
      var k := i - 1;
      ConsumedBounds(guess, target, k);
      PartialMatchStep(guess, target, k);
      var before, after := Consumed(guess, target, k), Consumed(guess, target, i);
      if Evaluate(guess, target)[k] == Present {
        var j :| 0 <= j < |target| && after == before + {j};
        assert before <= after;
      } else {
        assert after == before;
      }
    }
  }

  /** Each position of matchedPositions was added once: by the exact-match
      pass or by one present cell. */
  lemma {:induction false} ConsumedCount(guess: seq<string>, target: seq<string>, i: nat)
    requires |guess| == |target| && i <= |guess|
    ensures |Consumed(guess, target, i)| == |ExactMatches(guess, target)| + Tally(Evaluate(guess, target), Present, i)
  {
    if i > 0 {
      var k := i - 1;
      ConsumedCount(guess, target, k);
      PartialMatchStep(guess, target, k);
      var before, after := Consumed(guess, target, k), Consumed(guess, target, i);
      if Evaluate(guess, target)[k] == Present {
        var j :| 0 <= j < |target| && j !in before && after == before + {j};
        assert |after| == |before| + 1;
      } else {
        assert after == before;
      }
    }
  }

  /** The number of the first i cells whose state is s. */
  ghost function Tally(marks: seq<CellState>, s: CellState, i: nat): nat
    requires i <= |marks|
  {
    if i == 0 then 0 else Tally(marks, s, i - 1) + (if marks[i - 1] == s then 1 else 0)
  }

  /** The number of the first i cells that hold g and whose state is s. */
  ghost function Marked(guess: seq<string>, marks: seq<CellState>, s: CellState, g: string, i: nat): nat
    requires i <= |guess| == |marks|
  {
    if i == 0 then 0
    else Marked(guess, marks, s, g, i - 1) + (if marks[i - 1] == s && guess[i - 1] == g then 1 else 0)
  }

  /** The number of target positions below i that hold g and are not consumed. */
  ghost function Free(target: seq<string>, consumed: set<nat>, g: string, i: nat): nat
    requires i <= |target|
  {
    if i == 0 then 0
    else Free(target, consumed, g, i - 1) + (if i - 1 !in consumed && target[i - 1] == g then 1 else 0)
  }

  /** Two consumed sets that agree below i leave as many copies of g below i. */
  lemma {:induction false} FreeAgree(target: seq<string>, c1: set<nat>, c2: set<nat>, g: string, i: nat)
    requires i <= |target|
    requires forall k :: 0 <= k < i ==> (k in c1 <==> k in c2)
    ensures Free(target, c1, g, i) == Free(target, c2, g, i)
  {
    if i > 0 {
      FreeAgree(target, c1, c2, g, i - 1);
    }
  }

  /** Consuming position j removes exactly one copy of target[j] from what is
      still unconsumed. */
  lemma {:induction false} FreeTake(target: seq<string>, consumed: set<nat>, j: nat, g: string, i: nat)
    requires j < i <= |target| && j !in consumed
    ensures Free(target, consumed + {j}, g, i) + (if target[j] == g then 1 else 0) == Free(target, consumed, g, i)
  {
    var k := i - 1;
    if k == j {
      FreeAgree(target, consumed + {j}, consumed, g, k);
    } else {
      FreeTake(target, consumed, j, g, k);
      assert k in consumed + {j} <==> k in consumed;
    }
  }

  /** With nothing consumed, Free counts the occurrences of g among the first
      i target graphemes. */
  lemma {:induction false} FreeAll(target: seq<string>, g: string, i: nat)
    requires i <= |target|
    ensures Free(target, {}, g, i) == multiset(target[..i])[g]
  {
    if i > 0 {
      FreeAll(target, g, i - 1);
      assert target[..i] == target[..i - 1] + [target[i - 1]];
    }
  }

  /** The correct cells holding g account for exactly the copies of g the
      exact-match pass consumes. */
  lemma {:induction false} CorrectCredit(guess: seq<string>, target: seq<string>, marks: seq<CellState>, g: string, i: nat)
    requires |guess| == |target| == |marks| && i <= |guess|
    requires forall k :: 0 <= k < |marks| ==> (marks[k] == Correct <==> guess[k] == target[k])
    ensures Marked(guess, marks, Correct, g, i) + Free(target, ExactMatches(guess, target), g, i) == Free(target, {}, g, i)
  {
    if i > 0 {
      var k := i - 1;
      CorrectCredit(guess, target, marks, g, k);
      assert k in ExactMatches(guess, target) <==> guess[k] == target[k];
    }
  }

  /** Each present cell holding g takes one copy of g out of what the
      exact-match pass left unconsumed. */
  lemma {:induction false} PresentCredit(guess: seq<string>, target: seq<string>, g: string, i: nat)
    requires |guess| == |target| && i <= |guess|
    ensures Marked(guess, Evaluate(guess, target), Present, g, i) + Free(target, Consumed(guess, target, i), g, |target|)
      == Free(target, ExactMatches(guess, target), g, |target|)
  {
    if i > 0 {
      var k, n := i - 1, |target|;
      PresentCredit(guess, target, g, k);
      PartialMatchStep(guess, target, k);
      var c := Consumed(guess, target, k);
      if Evaluate(guess, target)[k] == Present {
        var j :| 0 <= j < n && j !in c && target[j] == guess[k] && Consumed(guess, target, i) == c + {j};
        FreeTake(target, c, j, g, n);
      } else {
        assert Consumed(guess, target, i) == c;
      }
    }
  }

  /** The duplicate-letter property: over a whole row, the correct and present
      cells holding a grapheme are no more than its occurrences in the target. */
  lemma CreditBound(guess: seq<string>, target: seq<string>, g: string)
    requires |guess| == |target|
    ensures Marked(guess, Evaluate(guess, target), Correct, g, |guess|)
      + Marked(guess, Evaluate(guess, target), Present, g, |guess|) <= multiset(target)[g]
  {
    var n := |guess|;
    CorrectCredit(guess, target, Evaluate(guess, target), g, n);
    PresentCredit(guess, target, g, n);
    FreeAll(target, g, n);
    assert target[..n] == target;
  }

  /** Guessing the target itself marks every cell correct. */
  lemma EvaluateTarget(target: seq<string>)
    ensures Evaluate(target, target) == seq(|target|, _ => Correct)
  {
  }

  /** A guess that repeats one grapheme of the target three times is credited
      once, at the position where it matches. */
  lemma RepeatedGuessExample()
    ensures Evaluate(["ర", "ర", "ర"], ["భా", "ర", "త"]) == [Absent, Correct, Absent]
  {
    var guess, target := ["ర", "ర", "ర"], ["భా", "ర", "త"];
    assert ExactMatches(guess, target) == {1};
    assert LeftmostFree(target, {1}, "ర", 0) == None;
    assert Consumed(guess, target, 1) == {1};
    assert Consumed(guess, target, 2) == {1};
  }

  /** Two graphemes of the target guessed in swapped order are both present. */
  lemma SwappedGuessExample()
    ensures Evaluate(["మ్మ", "అ"], ["అ", "మ్మ"]) == [Present, Present]
  {
    var guess, target := ["మ్మ", "అ"], ["అ", "మ్మ"];
    assert ExactMatches(guess, target) == {};
    assert Consumed(guess, target, 1) == {1};
    MarksAt(guess, target, 2, 0);
    MarksAt(guess, target, 2, 1);
  }
}
