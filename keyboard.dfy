/** The usedLetters keyboard map of checkGuess: for each grapheme the best
    state it has received, with the priority correct > present > absent. */
module Keyboard {
  import opened Evaluation

  /** The priority of a state in the keyboard map. */
  function Rank(s: CellState): nat {
    match s
    case Correct => 3
    case Present => 2
    case Absent => 1
    case _ => 0
  }

  /** Some cell of the first c holds g and is correct. */
  predicate CorrectIn(guess: seq<string>, marks: seq<CellState>, c: nat, g: string)
    requires c <= |guess| == |marks|
  {
    c > 0 && ((guess[c - 1] == g && marks[c - 1] == Correct) || CorrectIn(guess, marks, c - 1, g))
  }

  /** Some cell of the first p holds g and is present. */
  predicate PresentIn(guess: seq<string>, marks: seq<CellState>, p: nat, g: string)
    requires p <= |guess| == |marks|
  {
    p > 0 && ((guess[p - 1] == g && marks[p - 1] == Present) || PresentIn(guess, marks, p - 1, g))
  }

  /** The graphemes of the first p cells. */
  function GuessedIn(guess: seq<string>, p: nat): set<string>
    requires p <= |guess|
  {
    if p == 0 then {} else GuessedIn(guess, p - 1) + {guess[p - 1]}
  }

  /** The graphemes of the first c cells that are correct. */
  function CorrectSet(guess: seq<string>, marks: seq<CellState>, c: nat): set<string>
    requires c <= |guess| == |marks|
  {
    if c == 0 then {}
    else CorrectSet(guess, marks, c - 1) + (if marks[c - 1] == Correct then {guess[c - 1]} else {})
  }

  lemma {:induction false} CorrectInExists(guess: seq<string>, marks: seq<CellState>, c: nat, g: string)
    requires c <= |guess| == |marks|
    ensures CorrectIn(guess, marks, c, g) <==> exists k :: 0 <= k < c && guess[k] == g && marks[k] == Correct
    ensures CorrectIn(guess, marks, c, g) <==> g in CorrectSet(guess, marks, c)
  {
    if c > 0 {
      CorrectInExists(guess, marks, c - 1, g);
    }
  }

  lemma {:induction false} PresentInExists(guess: seq<string>, marks: seq<CellState>, p: nat, g: string)
    requires p <= |guess| == |marks|
    ensures PresentIn(guess, marks, p, g) <==> exists k :: 0 <= k < p && guess[k] == g && marks[k] == Present
  {
    if p > 0 {
      PresentInExists(guess, marks, p - 1, g);
    }
  }

  lemma {:induction false} GuessedInExists(guess: seq<string>, p: nat, g: string)
    requires p <= |guess|
    ensures g in GuessedIn(guess, p) <==> exists k :: 0 <= k < p && guess[k] == g
  {
    if p > 0 {
      GuessedInExists(guess, p - 1, g);
    }
  }

  /** The entry of g once the exact-match pass has seen the first c cells and
      the partial-match pass the first p. */
  ghost function Entry(used: map<string, CellState>, guess: seq<string>, marks: seq<CellState>, c: nat, p: nat, g: string): CellState
    requires c <= |guess| == |marks| && p <= |guess|
  {
    if CorrectIn(guess, marks, c, g) then Correct
    else if PresentIn(guess, marks, p, g) then (if g in used && used[g] == Correct then Correct else Present)
    else if g in used then used[g]
    else Absent
  }

  /** usedLetters part way through checkGuess: the exact-match pass has seen
      the first c cells of the row and the partial-match pass the first p. */
  ghost function Merge(used: map<string, CellState>, guess: seq<string>, marks: seq<CellState>, c: nat, p: nat): map<string, CellState>
    requires c <= |guess| == |marks| && p <= |guess|
  {
    map g | g in used.Keys + CorrectSet(guess, marks, c) + GuessedIn(guess, p) :: Entry(used, guess, marks, c, p, g)
  }

  /** usedLetters after a whole row has been scored. */
  ghost function MergeRow(used: map<string, CellState>, guess: seq<string>, marks: seq<CellState>): map<string, CellState>
    requires |guess| == |marks|
  {
    Merge(used, guess, marks, |guess|, |guess|)
  }

  /** Before either pass has looked at a cell, usedLetters is as it was. */
  lemma MergeStart(used: map<string, CellState>, guess: seq<string>, marks: seq<CellState>)
    requires |guess| == |marks|
    ensures Merge(used, guess, marks, 0, 0) == used
  {
    assert CorrectSet(guess, marks, 0) == {};
    assert GuessedIn(guess, 0) == {};
  }

  /** One step of the exact-match pass: a correct cell writes correct for its
      grapheme, any other cell leaves the map alone. */
  lemma MergeExactStep(used: map<string, CellState>, guess: seq<string>, marks: seq<CellState>, i: nat)
    requires |guess| == |marks| && i < |guess|
    ensures Merge(used, guess, marks, i + 1, 0)
      == if marks[i] == Correct then Merge(used, guess, marks, i, 0)[guess[i] := Correct]
         else Merge(used, guess, marks, i, 0)
  {
    var before, after := Merge(used, guess, marks, i, 0), Merge(used, guess, marks, i + 1, 0);
    var want := if marks[i] == Correct then before[guess[i] := Correct] else before;
    assert after.Keys == want.Keys;
    forall g | g in after ensures after[g] == want[g] {
      assert CorrectIn(guess, marks, i + 1, g) == ((guess[i] == g && marks[i] == Correct) || CorrectIn(guess, marks, i, g));
    }
  }

  /** In the partial-match pass, the step at cell i leaves the entries of
      every other grapheme alone. */
  lemma MergePartialOther(used: map<string, CellState>, guess: seq<string>, marks: seq<CellState>, i: nat, g: string)
    requires |guess| == |marks| && i < |guess| && g != guess[i]
    ensures var n := |guess|;
      (g in Merge(used, guess, marks, n, i + 1) <==> g in Merge(used, guess, marks, n, i))
      && (g in Merge(used, guess, marks, n, i) ==>
            Merge(used, guess, marks, n, i + 1)[g] == Merge(used, guess, marks, n, i)[g])
  {
    assert PresentIn(guess, marks, i + 1, g) == PresentIn(guess, marks, i, g);
  }

  /** One step of the partial-match pass once the exact-match pass is done: a
      present cell writes present unless its grapheme is already correct, an
      absent cell writes absent only when its grapheme has no entry, and a
      correct cell is skipped. */
  lemma MergePartialStep(used: map<string, CellState>, guess: seq<string>, marks: seq<CellState>, i: nat)
    requires |guess| == |marks| && i < |guess| && IsScored(marks[i])
    ensures var n, g := |guess|, guess[i];
      var before := Merge(used, guess, marks, n, i);
      Merge(used, guess, marks, n, i + 1)
        == if marks[i] == Present then
             (if g in before && before[g] == Correct then before else before[g := Present])
           else if marks[i] == Absent then
             (if g in before then before else before[g := Absent])
           else before
  {
    var n, gi := |guess|, guess[i];
    var before, after := Merge(used, guess, marks, n, i), Merge(used, guess, marks, n, i + 1);
    var want :=
      if marks[i] == Present then
        (if gi in before && before[gi] == Correct then before else before[gi := Present])
      else if marks[i] == Absent then
        (if gi in before then before else before[gi := Absent])
      else before;
    forall g | g != gi ensures (g in after <==> g in want) && (g in after ==> after[g] == want[g]) {
      MergePartialOther(used, guess, marks, i, g);
    }
    CorrectInExists(guess, marks, n, gi);
    if marks[i] == Correct {
      assert CorrectIn(guess, marks, n, gi);
      assert after[gi] == Correct == before[gi];
    } else if marks[i] == Present {
      assert PresentIn(guess, marks, i + 1, gi);
    } else {
      assert PresentIn(guess, marks, i + 1, gi) == PresentIn(guess, marks, i, gi);
      if gi !in before {
        assert !CorrectIn(guess, marks, n, gi);
        PresentInExists(guess, marks, i, gi);
        GuessedInExists(guess, i, gi);
      }
    }
    assert gi in want && after[gi] == want[gi];
    assert after.Keys == want.Keys;
  }

  /** The exact-match pass written as the loop runs it: after the first i
      cells, each correct cell has written correct for its grapheme. */
  function ExactUsed(used: map<string, CellState>, guess: seq<string>, marks: seq<CellState>, i: nat): map<string, CellState>
    requires i <= |guess| == |marks|
  {
    if i == 0 then used
    else
      var m := ExactUsed(used, guess, marks, i - 1);
      if marks[i - 1] == Correct then m[guess[i - 1] := Correct] else m
  }

  /** The partial-match pass written as the loop runs it, from the map start
      the exact-match pass left: a present cell writes present unless its
      grapheme is correct, an absent cell writes absent only for a grapheme
      with no entry. */
  function PartialUsed(start: map<string, CellState>, guess: seq<string>, marks: seq<CellState>, i: nat): map<string, CellState>
    requires i <= |guess| == |marks|
  {
    if i == 0 then start
    else
      var m, g := PartialUsed(start, guess, marks, i - 1), guess[i - 1];
      if marks[i - 1] == Present then (if g in m && m[g] == Correct then m else m[g := Present])
      else if marks[i - 1] == Absent then (if g in m then m else m[g := Absent])
      else m
  }

  /** The exact-match pass as the loop runs it agrees with the order-free
      description. */
  lemma {:induction false} ExactUsedMerge(used: map<string, CellState>, guess: seq<string>, marks: seq<CellState>, i: nat)
    requires i <= |guess| == |marks|
    ensures ExactUsed(used, guess, marks, i) == Merge(used, guess, marks, i, 0)
  {
    if i == 0 {
      MergeStart(used, guess, marks);
    } else {
      ExactUsedMerge(used, guess, marks, i - 1);
      MergeExactStep(used, guess, marks, i - 1);
    }
  }

  /** The partial-match pass as the loop runs it agrees with the order-free
      description, so the two loops together give MergeRow. */
  lemma {:induction false} PartialUsedMerge(used: map<string, CellState>, guess: seq<string>, marks: seq<CellState>, i: nat)
    requires i <= |guess| == |marks|
    requires forall k :: 0 <= k < |marks| ==> IsScored(marks[k])
    ensures PartialUsed(Merge(used, guess, marks, |guess|, 0), guess, marks, i) == Merge(used, guess, marks, |guess|, i)
  {
    if i > 0 {
      var n, k := |guess|, i - 1;
      var start := Merge(used, guess, marks, n, 0);
      PartialUsedMerge(used, guess, marks, k);
      MergePartialStep(used, guess, marks, k);
      var before := Merge(used, guess, marks, n, k);
      var g := guess[k];
      var step :=
        if marks[k] == Present then (if g in before && before[g] == Correct then before else before[g := Present])
        else if marks[k] == Absent then (if g in before then before else before[g := Absent])
        else before;
      assert PartialUsed(start, guess, marks, k) == before;
      assert PartialUsed(start, guess, marks, i) == step;
      assert Merge(used, guess, marks, n, i) == step;
    }
  }

  /** Scoring a row step by step, exact matches first, yields MergeRow. */
  lemma PassesMergeRow(used: map<string, CellState>, guess: seq<string>, marks: seq<CellState>)
    requires |guess| == |marks|
    requires forall k :: 0 <= k < |marks| ==> IsScored(marks[k])
    ensures PartialUsed(ExactUsed(used, guess, marks, |guess|), guess, marks, |guess|) == MergeRow(used, guess, marks)
  {
    ExactUsedMerge(used, guess, marks, |guess|);
    PartialUsedMerge(used, guess, marks, |guess|);
  }

  /** The map keeps every grapheme it had and gains exactly those of the row;
      a grapheme the row does not hold keeps its entry. */
  lemma MergeRowFrame(used: map<string, CellState>, guess: seq<string>, marks: seq<CellState>)
    requires |guess| == |marks|
    ensures MergeRow(used, guess, marks).Keys == used.Keys + set k | 0 <= k < |guess| :: guess[k]
    ensures forall g :: g in used && g !in guess ==> MergeRow(used, guess, marks)[g] == used[g]
  {
    var n := |guess|;
    forall g ensures g in GuessedIn(guess, n) <==> g in set k | 0 <= k < n :: guess[k] {
      GuessedInExists(guess, n, g);
    }
    forall g | g in CorrectSet(guess, marks, n) ensures g in GuessedIn(guess, n) {
      CorrectInExists(guess, marks, n, g);
      GuessedInExists(guess, n, g);
    }
    forall g | g in used && g !in guess ensures MergeRow(used, guess, marks)[g] == used[g] {
      CorrectInExists(guess, marks, n, g);
      PresentInExists(guess, marks, n, g);
    }
  }

  /** The map never downgrades: no entry loses rank, so a correct entry stays
      correct and a present entry never becomes absent. */
  lemma MergeRowNeverDowngrades(used: map<string, CellState>, guess: seq<string>, marks: seq<CellState>)
    requires |guess| == |marks|
    ensures forall g :: g in used ==>
      g in MergeRow(used, guess, marks) && Rank(used[g]) <= Rank(MergeRow(used, guess, marks)[g])
    ensures forall g :: g in used && used[g] == Correct ==> MergeRow(used, guess, marks)[g] == Correct
  {
  }

  /** A map of scored states stays one when a scored row is merged in. */
  lemma MergeRowScored(used: map<string, CellState>, guess: seq<string>, marks: seq<CellState>)
    requires |guess| == |marks|
    requires forall g :: g in used ==> IsScored(used[g])
    requires forall i :: 0 <= i < |marks| ==> IsScored(marks[i])
    ensures forall g :: g in MergeRow(used, guess, marks) ==> IsScored(MergeRow(used, guess, marks)[g])
  {
  }

  /** What a scored row writes: correct wins for any grapheme with a correct
      cell, present for one with only present cells unless it was already
      correct, and absent only for a grapheme that had no entry. */
  lemma MergeRowPriority(used: map<string, CellState>, guess: seq<string>, marks: seq<CellState>)
    requires |guess| == |marks|
    ensures forall i :: 0 <= i < |guess| && marks[i] == Correct ==>
      guess[i] in MergeRow(used, guess, marks) && MergeRow(used, guess, marks)[guess[i]] == Correct
    ensures forall i :: 0 <= i < |guess| && marks[i] == Present ==>
      guess[i] in MergeRow(used, guess, marks)
      && (MergeRow(used, guess, marks)[guess[i]] == Correct || MergeRow(used, guess, marks)[guess[i]] == Present)
    ensures forall g :: g in MergeRow(used, guess, marks) && MergeRow(used, guess, marks)[g] == Absent ==>
      (g in used && used[g] == Absent)
      || (g !in used && forall i :: 0 <= i < |guess| && guess[i] == g ==> marks[i] != Correct && marks[i] != Present)
  {
    var n := |guess|;
    forall i | 0 <= i < n && marks[i] == Correct
      ensures guess[i] in MergeRow(used, guess, marks) && MergeRow(used, guess, marks)[guess[i]] == Correct
    {
      CorrectInExists(guess, marks, n, guess[i]);
    }
    forall i | 0 <= i < n && marks[i] == Present
      ensures guess[i] in MergeRow(used, guess, marks)
        && (MergeRow(used, guess, marks)[guess[i]] == Correct || MergeRow(used, guess, marks)[guess[i]] == Present)
    {
      PresentInExists(guess, marks, n, guess[i]);
      GuessedInExists(guess, n, guess[i]);
    }
    forall g | g in MergeRow(used, guess, marks) && MergeRow(used, guess, marks)[g] == Absent
      ensures (g in used && used[g] == Absent)
        || (g !in used && forall i :: 0 <= i < |guess| && guess[i] == g ==> marks[i] != Correct && marks[i] != Present)
    {
      CorrectInExists(guess, marks, n, g);
      PresentInExists(guess, marks, n, g);
    }
  }
}
