/** The game state of the TeluguWordle component and its event handlers:
    starting a game, typing and deleting graphemes, the consonant and
    vowel-sign selection, and submitting a row. */
module Wordle {
  import opened Evaluation
  import opened Keyboard

  /** Rows on the board: the number of guesses a game allows. */
  const MaxAttempts: nat := 6

  /** teluguWordDictionary: the words a game may choose and the only guesses
      accepted. */
  const TeluguWords: seq<string> := [
    "అమ్మ", "నాన్న", "ప్రేమ", "తెలుగు", "భారత",
    "దేశము", "పుస్తకం", "ఇల్లు", "స్నేహం", "ఆనందం",
    "విద్య", "మనసు", "నీరు", "భోజనం", "జీవితం",
    "ప్రపంచం", "వాయు", "భూమి", "నగరం", "గ్రామం"
  ]

  datatype Status = Playing | Won | Lost

  /** The notice shown above the board. */
  datatype Message =
    | NoMessage
    | CompleteTheWord
    | NotAValidWord
    | Congratulations
    | Reveal(word: string)

  /** The word a row of graphemes spells. */
  function Concat(gs: seq<string>): string {
    if gs == [] then "" else gs[0] + Concat(gs[1..])
  }

  function Graphemes(row: seq<Cell>): seq<string> {
    seq(|row|, c requires 0 <= c < |row| => row[c].grapheme)
  }

  function States(row: seq<Cell>): seq<CellState> {
    seq(|row|, c requires 0 <= c < |row| => row[c].state)
  }

  /** A row whose cells show the given graphemes with the given states. */
  function Scored(guess: seq<string>, marks: seq<CellState>): seq<Cell>
    requires |guess| == |marks|
  {
    seq(|guess|, c requires 0 <= c < |guess| => Cell(guess[c], marks[c]))
  }

  /** A row that was accepted: a dictionary word, scored against the target. */
  ghost predicate Submitted(row: seq<Cell>, dict: seq<string>, target: seq<string>) {
    |row| == |target|
    && Concat(Graphemes(row)) in dict
    && States(row) == Evaluate(Graphemes(row), target)
  }

  /** The row being typed: the first pos cells are filled, the rest empty. */
  ghost predicate Typing(row: seq<Cell>, pos: nat) {
    pos <= |row|
    && (forall c :: 0 <= c < pos ==> row[c].state == Filled)
    && (forall c :: pos <= c < |row| ==> row[c] == EmptyCell)
  }

  ghost predicate Blank(row: seq<Cell>) {
    forall c :: 0 <= c < |row| ==> row[c] == EmptyCell
  }

  /** The game invariant on the state as values. Rows before the current one
      were accepted and did not spell the target; rows after it are blank;
      while playing, the current row holds pos typed cells; once the game is
      over the current row was accepted, and it spells the target exactly when
      the game is won. */
  ghost predicate Consistent(grid: seq<seq<Cell>>, dict: seq<string>, target: seq<string>, word: string,
                             attempt: nat, pos: nat, status: Status)
  {
    |grid| == MaxAttempts && (forall r :: 0 <= r < |grid| ==> |grid[r]| == |target|)
    && word in dict && Concat(target) == word
    && attempt < MaxAttempts && pos <= |target|
    && (forall r :: 0 <= r < attempt ==>
          Submitted(grid[r], dict, target) && Concat(Graphemes(grid[r])) != word)
    && (forall r :: attempt < r < MaxAttempts ==> Blank(grid[r]))
    && (status == Playing ==> Typing(grid[attempt], pos))
    && (status != Playing ==>
          pos == |target|
          && Submitted(grid[attempt], dict, target)
          && (status == Won <==> Concat(Graphemes(grid[attempt])) == word)
          && (status == Lost ==> attempt == MaxAttempts - 1))
  }

  /** The board of a new game: MaxAttempts rows of n empty cells. */
  function BlankGrid(n: nat): (grid: seq<seq<Cell>>)
    ensures |grid| == MaxAttempts
    ensures forall r :: 0 <= r < MaxAttempts ==> |grid[r]| == n && Blank(grid[r])
  {
    seq(MaxAttempts, _ => seq(n, _ => EmptyCell))
  }

  /** A new game is consistent. */
  lemma NewGameConsistent(dict: seq<string>, target: seq<string>, word: string)
    requires word in dict && Concat(target) == word
    ensures Consistent(BlankGrid(|target|), dict, target, word, 0, 0, Playing)
  {
    var blank := seq(|target|, _ => EmptyCell);
    var grid := BlankGrid(|target|);
    assert forall r :: 0 <= r < MaxAttempts ==> grid[r] == blank;
    assert forall r :: 0 < r < MaxAttempts ==> Blank(grid[r]);
    assert Typing(grid[0], 0);
    assert forall r :: 0 <= r < |grid| ==> |grid[r]| == |target|;
  }

  /** Typing a grapheme into the next cell keeps the game consistent. */
  lemma TypeConsistent(grid: seq<seq<Cell>>, dict: seq<string>, target: seq<string>, word: string,
                       attempt: nat, pos: nat, g: string)
    requires Consistent(grid, dict, target, word, attempt, pos, Playing) && pos < |target|
    ensures Consistent(WithCell(grid, attempt, pos, Cell(g, Filled)), dict, target, word, attempt, pos + 1, Playing)
  {
    var after := WithCell(grid, attempt, pos, Cell(g, Filled));
    assert forall r :: 0 <= r < MaxAttempts && r != attempt ==> after[r] == grid[r];
  }

  /** Clearing the last typed cell keeps the game consistent. */
  lemma EraseConsistent(grid: seq<seq<Cell>>, dict: seq<string>, target: seq<string>, word: string,
                        attempt: nat, pos: nat)
    requires Consistent(grid, dict, target, word, attempt, pos, Playing) && 0 < pos
    ensures Consistent(WithCell(grid, attempt, pos - 1, EmptyCell), dict, target, word, attempt, pos - 1, Playing)
  {
    var after := WithCell(grid, attempt, pos - 1, EmptyCell);
    assert forall r :: 0 <= r < MaxAttempts && r != attempt ==> after[r] == grid[r];
  }

  /** In a consistent state with a full current row, a cell of that row is
      correct only where it agrees with the target. */
  lemma FullRowCorrect(grid: seq<seq<Cell>>, dict: seq<string>, target: seq<string>, word: string,
                       attempt: nat, status: Status)
    requires Consistent(grid, dict, target, word, attempt, |target|, status)
    ensures forall c :: 0 <= c < |target| && grid[attempt][c].state == Correct ==>
      grid[attempt][c].grapheme == target[c]
  {
    if status != Playing {
      var row := grid[attempt];
      assert States(row) == Evaluate(Graphemes(row), target);
      forall c | 0 <= c < |target| && row[c].state == Correct ensures row[c].grapheme == target[c] {
        assert States(row)[c] == Correct;
      }
    }
  }

  /** Where the game goes once an accepted row is scored. */
  datatype Step = Step(status: Status, attempt: nat, pos: nat)

  /** The transition at the end of checkGuess: won when the row spells the
      target, lost when it was the last row, and otherwise the start of the
      next row with the status as it was. */
  function Outcome(won: bool, attempt: nat, status: Status, pos: nat): Step {
    if won then Step(Won, attempt, pos)
    else if attempt == MaxAttempts - 1 then Step(Lost, attempt, pos)
    else Step(status, attempt + 1, 0)
  }

  /** Scoring an accepted full row and taking the transition checkGuess
      chooses keeps the game consistent; in particular a row that moves on
      to the next one was submitted while playing. */
  lemma SubmitConsistent(grid: seq<seq<Cell>>, dict: seq<string>, target: seq<string>, word: string,
                         attempt: nat, status: Status)
    requires Consistent(grid, dict, target, word, attempt, |target|, status)
    requires Concat(Graphemes(grid[attempt])) in dict
    ensures var guess := Graphemes(grid[attempt]);
      var next := Outcome(Concat(guess) == word, attempt, status, |target|);
      Consistent(grid[attempt := Scored(guess, Evaluate(guess, target))], dict, target, word,
                 next.attempt, next.pos, next.status)
      && (next.attempt != attempt ==> status == Playing)
  {
    var guess := Graphemes(grid[attempt]);
    var marks := Evaluate(guess, target);
    var row := Scored(guess, marks);
    var after := grid[attempt := row];
    assert Graphemes(row) == guess && States(row) == marks;
    assert Submitted(row, dict, target);
    assert forall r :: 0 <= r < MaxAttempts && r != attempt ==> after[r] == grid[r];
  }

  /** The win test compares words, not rows of graphemes. In a game whose
      target is segmented as అ + మ్మ, a full row holding అమ + ్మ spells the
      target word, so it is accepted and wins, although its first cell is
      scored absent. */
  lemma SegmentationQuirk(grid: seq<seq<Cell>>, dict: seq<string>, word: string, attempt: nat)
    requires Consistent(grid, dict, ["అ", "మ్మ"], word, attempt, 2, Playing)
    requires Graphemes(grid[attempt]) == ["అమ", "్మ"]
    ensures Concat(Graphemes(grid[attempt])) in dict && Concat(Graphemes(grid[attempt])) == word
    ensures Outcome(Concat(Graphemes(grid[attempt])) == word, attempt, Playing, 2).status == Won
    ensures Evaluate(Graphemes(grid[attempt]), ["అ", "మ్మ"])[0] == Absent
  {
    var guess, target := ["అమ", "్మ"], ["అ", "మ్మ"];
    assert Concat(guess) == "అమ" + "్మ";
    assert Concat(target) == "అ" + "మ్మ";
    assert Concat(guess) == Concat(target);
    MarksAt(guess, target, 2, 0);
    assert ExactMatches(guess, target) == {};
    assert LeftmostFree(target, {}, "అమ", 0) == None;
  }

  /** Every entry of the keyboard map is a scored state. */
  ghost predicate UsedScored(used: map<string, CellState>) {
    forall g :: g in used ==> IsScored(used[g])
  }

  /** The grid with one cell replaced. */
  function WithCell(grid: seq<seq<Cell>>, r: nat, c: nat, cell: Cell): seq<seq<Cell>>
    requires r < |grid| && c < |grid[r]|
  {
    grid[r := grid[r][c := cell]]
  }

  /** Row r of a board as a value. */
  function RowOf(b: array2<Cell>, r: nat): seq<Cell>
    reads b
    requires r < b.Length0
  {
    seq(b.Length1, c requires 0 <= c < b.Length1 reads b => b[r, c])
  }

  /** A board as a value: row by row. */
  ghost function GridOf(b: array2<Cell>): seq<seq<Cell>>
    reads b
  {
    seq(b.Length0, r requires 0 <= r < b.Length0 reads b => RowOf(b, r))
  }

  /** The board holds, cell by cell, the rows of grid. */
  ghost predicate Shows(b: array2<Cell>, grid: seq<seq<Cell>>)
    reads b
  {
    |grid| == b.Length0
    && (forall r :: 0 <= r < |grid| ==> |grid[r]| == b.Length1)
    && (forall r, c :: 0 <= r < b.Length0 && 0 <= c < b.Length1 ==> b[r, c] == grid[r][c])
  }

  lemma ShowsGrid(b: array2<Cell>, grid: seq<seq<Cell>>)
    requires Shows(b, grid)
    ensures GridOf(b) == grid
  {
    forall r | 0 <= r < b.Length0 ensures RowOf(b, r) == grid[r] {
    }
  }

  /** A board row that holds, cell by cell, the cells of row. */
  lemma RowShown(b: array2<Cell>, r: nat, row: seq<Cell>)
    requires r < b.Length0 && |row| == b.Length1
    requires forall c :: 0 <= c < b.Length1 ==> b[r, c] == row[c]
    ensures RowOf(b, r) == row
  {
  }

  /** A board whose rows other than a are those of grid and whose row a is row. */
  lemma RowsGrid(b: array2<Cell>, grid: seq<seq<Cell>>, a: nat, row: seq<Cell>)
    requires |grid| == b.Length0 && a < b.Length0
    requires forall r :: 0 <= r < b.Length0 && r != a ==> RowOf(b, r) == grid[r]
    requires RowOf(b, a) == row
    ensures GridOf(b) == grid[a := row]
  {
  }

  /** The first loop of checkGuess on row a of the board: every cell that
      agrees with the target becomes correct, its grapheme becomes correct in
      the keyboard map, and its position is matched. */
  method ExactPass(board: array2<Cell>, a: nat, guess: seq<string>, target: seq<string>,
                   used: map<string, CellState>, ghost marks: seq<CellState>)
    returns (matchedPositions: set<nat>, newUsedLetters: map<string, CellState>)
    requires board.Length0 == MaxAttempts && board.Length1 == |target| == |guess| == |marks|
    requires forall c :: 0 <= c < |guess| ==> (marks[c] == Correct <==> guess[c] == target[c])
    requires a < MaxAttempts
    modifies board
    ensures matchedPositions == ExactMatches(guess, target)
    ensures newUsedLetters == ExactUsed(used, guess, marks, |guess|)
    ensures forall c :: 0 <= c < |guess| ==>
      board[a, c] == if guess[c] == target[c] then old(board[a, c]).(state := Correct) else old(board[a, c])
    ensures forall r, c :: 0 <= r < MaxAttempts && r != a && 0 <= c < |guess| ==> board[r, c] == old(board[r, c])
  {
    newUsedLetters := used;
    matchedPositions := {};
    for i := 0 to |guess|
      invariant matchedPositions == set k: nat | k < i && guess[k] == target[k]
      invariant newUsedLetters == ExactUsed(used, guess, marks, i)
      invariant forall r, c :: 0 <= r < MaxAttempts && r != a && 0 <= c < |guess| ==>
        board[r, c] == old(board[r, c])
      invariant forall c :: 0 <= c < i ==>
        board[a, c] == if guess[c] == target[c] then old(board[a, c]).(state := Correct) else old(board[a, c])
      invariant forall c :: i <= c < |guess| ==> board[a, c] == old(board[a, c])
    {
      matchedPositions, newUsedLetters := ExactCell(board, a, guess, target, i, matchedPositions, newUsedLetters, used, marks);
    }
  }

  /** One step of the exact-match pass, at cell i of row a. */
  method ExactCell(board: array2<Cell>, a: nat, guess: seq<string>, target: seq<string>, i: nat,
                   matched: set<nat>, usedBefore: map<string, CellState>,
                   ghost used: map<string, CellState>, ghost marks: seq<CellState>)
    returns (matchedPositions: set<nat>, newUsedLetters: map<string, CellState>)
    requires board.Length0 == MaxAttempts && board.Length1 == |target| == |guess| == |marks|
    requires a < MaxAttempts && i < |guess|
    requires marks[i] == Correct <==> guess[i] == target[i]
    requires usedBefore == ExactUsed(used, guess, marks, i)
    modifies board
    ensures matchedPositions == if guess[i] == target[i] then matched + {i} else matched
    ensures newUsedLetters == ExactUsed(used, guess, marks, i + 1)
    ensures board[a, i] == if guess[i] == target[i] then old(board[a, i]).(state := Correct) else old(board[a, i])
    ensures forall r, c :: 0 <= r < MaxAttempts && 0 <= c < |guess| && (r != a || c != i) ==>
      board[r, c] == old(board[r, c])
  {
    matchedPositions, newUsedLetters := matched, usedBefore;
    var grapheme := guess[i];
    if grapheme == target[i] {
      board[a, i] := board[a, i].(state := Correct);
      newUsedLetters := newUsedLetters[grapheme := Correct];
      matchedPositions := matchedPositions + {i};
    }
  }

  /** The inner scan of the partial-match pass: the first target position
      not yet in matchedPositions that holds the grapheme. */
  method FindFree(target: seq<string>, grapheme: string, matchedPositions: set<nat>) returns (r: Option<nat>)
    ensures r == LeftmostFree(target, matchedPositions, grapheme, 0)
  {
    r := None;
    for j := 0 to |target|
      invariant forall k :: 0 <= k < j ==> k in matchedPositions || target[k] != grapheme
    {
      if j !in matchedPositions && target[j] == grapheme {
        r := Some(j);
        return;
      }
    }
  }

  /** The second loop of checkGuess on row a of the board: every cell that is
      not correct consumes the leftmost unmatched target position holding its
      grapheme and becomes present, or becomes absent when there is none; the
      keyboard map is updated without downgrading. */
  method PartialPass(board: array2<Cell>, a: nat, guess: seq<string>, target: seq<string>,
                     matched: set<nat>, usedAfterExact: map<string, CellState>)
    returns (newUsedLetters: map<string, CellState>)
    requires board.Length0 == MaxAttempts && board.Length1 == |target| == |guess|
    requires a < MaxAttempts
    requires matched == ExactMatches(guess, target)
    requires forall c :: 0 <= c < |guess| ==> (board[a, c].state == Correct <==> guess[c] == target[c])
    modifies board
    ensures newUsedLetters == PartialUsed(usedAfterExact, guess, Evaluate(guess, target), |guess|)
    ensures forall c :: 0 <= c < |guess| ==> board[a, c] == old(board[a, c]).(state := Evaluate(guess, target)[c])
    ensures forall r, c :: 0 <= r < MaxAttempts && r != a && 0 <= c < |guess| ==> board[r, c] == old(board[r, c])
  {
    ghost var marks := Evaluate(guess, target);
    var n := |guess|;
    var matchedPositions := matched;
    newUsedLetters := usedAfterExact;
    for i := 0 to n
      invariant matchedPositions == Consumed(guess, target, i)
      invariant newUsedLetters == PartialUsed(usedAfterExact, guess, marks, i)
      invariant forall r, c :: 0 <= r < MaxAttempts && r != a && 0 <= c < n ==> board[r, c] == old(board[r, c])
      invariant forall c :: 0 <= c < i ==> board[a, c] == old(board[a, c]).(state := marks[c])
      invariant forall c :: i <= c < n ==> board[a, c] == old(board[a, c])
    {
      if board[a, i].state == Correct {
        PartialMatchStep(guess, target, i);
        continue;
      }
      var state;
      matchedPositions, newUsedLetters, state := ScoreCell(guess, target, i, matchedPositions, newUsedLetters, usedAfterExact);
      board[a, i] := board[a, i].(state := state);
    }
  }

  /** One step of the partial-match pass, at a cell i that is not correct:
      the cell's new state, matchedPositions and the keyboard map after it. */
  method ScoreCell(guess: seq<string>, target: seq<string>, i: nat,
                   matched: set<nat>, usedBefore: map<string, CellState>, ghost start: map<string, CellState>)
    returns (matchedPositions: set<nat>, newUsedLetters: map<string, CellState>, state: CellState)
    requires |guess| == |target| && i < |guess| && guess[i] != target[i]
    requires matched == Consumed(guess, target, i)
    requires usedBefore == PartialUsed(start, guess, Evaluate(guess, target), i)
    ensures matchedPositions == Consumed(guess, target, i + 1)
    ensures newUsedLetters == PartialUsed(start, guess, Evaluate(guess, target), i + 1)
    ensures state == Evaluate(guess, target)[i]
  {
    PartialMatchStep(guess, target, i);
    matchedPositions, newUsedLetters := matched, usedBefore;
    var grapheme := guess[i];
    var free := FindFree(target, grapheme, matchedPositions);
    if free.Some? {
      matchedPositions := matchedPositions + {free.value};
      state := Present;
      if grapheme !in newUsedLetters || newUsedLetters[grapheme] != Correct {
        newUsedLetters := newUsedLetters[grapheme := Present];
      }
    } else {
      state := Absent;
      if grapheme !in newUsedLetters {
        newUsedLetters := newUsedLetters[grapheme := Absent];
      }
    }
  }

  /** The two loops of checkGuess on row a of the board, which shows the
      guessed graphemes and is correct only where they agree with the target:
      the row becomes the guess scored by Evaluate, no other row changes, and
      the keyboard map takes in the row as MergeRow describes. */
  method ScoreRow(board: array2<Cell>, a: nat, guess: seq<string>, target: seq<string>,
                  used: map<string, CellState>)
    returns (newUsedLetters: map<string, CellState>)
    requires board.Length0 == MaxAttempts && board.Length1 == |target| == |guess|
    requires a < MaxAttempts && Graphemes(RowOf(board, a)) == guess
    requires forall c :: 0 <= c < |guess| && RowOf(board, a)[c].state == Correct ==> guess[c] == target[c]
    modifies board
    ensures GridOf(board) == old(GridOf(board))[a := Scored(guess, Evaluate(guess, target))]
    ensures newUsedLetters == MergeRow(used, guess, Evaluate(guess, target))
  {
    ghost var g0 := GridOf(board);
    ghost var marks := Evaluate(guess, target);
    forall c | 0 <= c < |guess| ensures board[a, c] == g0[a][c] && g0[a][c].grapheme == guess[c] {
      assert Graphemes(g0[a])[c] == g0[a][c].grapheme;
    }
    var matchedPositions, usedAfterExact := ExactPass(board, a, guess, target, used, marks);
    newUsedLetters := PartialPass(board, a, guess, target, matchedPositions, usedAfterExact);
    PassesMergeRow(used, guess, marks);
    RowShown(board, a, Scored(guess, marks));
    forall r | 0 <= r < MaxAttempts && r != a ensures RowOf(board, r) == g0[r] {
      RowShown(board, r, g0[r]);
    }
    RowsGrid(board, g0, a, Scored(guess, marks));
  }

  class Game {
    /** The dictionary of the game: TeluguWords. */
    const dictionary: seq<string>
    var targetWord: string
    var targetGraphemes: seq<string>
    /** gameBoard: MaxAttempts rows of |targetGraphemes| cells. */
    var board: array2<Cell>
    var currentAttempt: nat
    var currentPosition: nat
    var gameStatus: Status
    var message: Message
    var usedLetters: map<string, CellState>
    var showGraphemeSelection: bool
    var selectedConsonant: string

    /** Row r of the board as a value. */
    function Row(r: nat): seq<Cell>
      reads this`board, board
      requires r < board.Length0
    {
      RowOf(board, r)
    }

    /** The board as a value: row by row. */
    ghost function Grid(): seq<seq<Cell>>
      reads this`board, board
    {
      GridOf(board)
    }

    /** The game invariant: the board has MaxAttempts rows of one cell per
        target grapheme, and the state is consistent. */
    ghost predicate Valid()
      reads this`targetWord, this`targetGraphemes, this`board, this`currentAttempt,
        this`currentPosition, this`gameStatus, this`usedLetters, board
    {
      board.Length0 == MaxAttempts && board.Length1 == |targetGraphemes|
      && Consistent(Grid(), dictionary, targetGraphemes, targetWord, currentAttempt, currentPosition, gameStatus)
      && UsedScored(usedLetters)
    }

    /** A keystroke would be taken: the game is on and the row has room. */
    ghost predicate CanType()
      reads this`gameStatus, this`currentPosition, this`targetGraphemes
    {
      gameStatus == Playing && currentPosition < |targetGraphemes|
    }

    /** The graphemes of the row being typed or just submitted. */
    ghost function Guess(): seq<string>
      reads this`targetWord, this`targetGraphemes, this`board, this`currentAttempt,
        this`currentPosition, this`gameStatus, this`usedLetters, board
      requires Valid()
    {
      Graphemes(Row(currentAttempt))
    }

    /** The component as mounted: its initial state followed by the new game
        the mount effect starts. */
    constructor (choice: nat, graphemes: seq<string>)
      requires choice < |TeluguWords| && Concat(graphemes) == TeluguWords[choice]
      ensures Valid() && fresh(board) && dictionary == TeluguWords
      ensures targetWord == TeluguWords[choice] && targetGraphemes == graphemes
      ensures Grid() == BlankGrid(|graphemes|)
      ensures currentAttempt == 0 && currentPosition == 0 && gameStatus == Playing
      ensures message == NoMessage && usedLetters == map[]
      ensures !showGraphemeSelection && selectedConsonant == ""
    {
      dictionary := TeluguWords;
      targetWord, targetGraphemes := "", [];
      board := new Cell[0, 0];
      currentAttempt, currentPosition := 0, 0;
      gameStatus, message := Playing, NoMessage;
      usedLetters := map[];
      showGraphemeSelection, selectedConsonant := false, "";
      new;
      NewGame(choice, graphemes);
    }

    /** startNewGame: the word at index choice of the dictionary becomes the
        target, with graphemes as its segmentation, on a blank board. */
    method NewGame(choice: nat, graphemes: seq<string>)
      requires choice < |dictionary| && Concat(graphemes) == dictionary[choice]
      modifies this`targetWord, this`targetGraphemes, this`board, this`currentAttempt,
        this`currentPosition, this`gameStatus, this`message, this`usedLetters
      ensures Valid() && fresh(board)
      ensures targetWord == dictionary[choice] && targetGraphemes == graphemes
      ensures Grid() == BlankGrid(|graphemes|)
      ensures currentAttempt == 0 && currentPosition == 0 && gameStatus == Playing
      ensures message == NoMessage && usedLetters == map[]
      ensures showGraphemeSelection == old(showGraphemeSelection)
      ensures selectedConsonant == old(selectedConsonant)
    {
      var newTargetWord := dictionary[choice];
      var wordLength := |graphemes|;
      var newBoard := new Cell[MaxAttempts, wordLength]((_, _) => EmptyCell);
      targetWord := newTargetWord;
      targetGraphemes := graphemes;
      board := newBoard;
      currentAttempt := 0;
      currentPosition := 0;
      gameStatus := Playing;
      message := NoMessage;
      usedLetters := map[];
      assert Grid() == BlankGrid(wordLength) by {
        ShowsGrid(board, BlankGrid(wordLength));
      }
      NewGameConsistent(dictionary, graphemes, newTargetWord);
    }

    /** handleKeyInput: while playing and while the row has room, the next
        cell shows the grapheme and the cursor moves on; otherwise nothing
        changes. */
    method KeyInput(grapheme: string)
      requires Valid()
      modifies this`currentPosition, board
      ensures Valid()
      ensures old(CanType()) ==>
        currentPosition == old(currentPosition) + 1
        && Grid() == WithCell(old(Grid()), currentAttempt, old(currentPosition), Cell(grapheme, Filled))
      ensures !old(CanType()) ==> currentPosition == old(currentPosition) && Grid() == old(Grid())
    {
      if gameStatus != Playing {
        return;
      }
      if currentPosition >= |targetGraphemes| {
        return;
      }
      ghost var before := Grid();
      board[currentAttempt, currentPosition] := Cell(grapheme, Filled);
      currentPosition := currentPosition + 1;
      assert Grid() == WithCell(before, currentAttempt, old(currentPosition), Cell(grapheme, Filled)) by {
        ShowsGrid(board, WithCell(before, currentAttempt, old(currentPosition), Cell(grapheme, Filled)));
      }
      TypeConsistent(before, dictionary, targetGraphemes, targetWord, currentAttempt, old(currentPosition), grapheme);
    }

    /** handleGraphemeSelect: a consonant button opens the vowel-sign choice. */
    method GraphemeSelect(consonant: string)
      requires Valid()
      modifies this`selectedConsonant, this`showGraphemeSelection
      ensures Valid()
      ensures selectedConsonant == consonant && showGraphemeSelection
    {
      selectedConsonant := consonant;
      showGraphemeSelection := true;
    }

    /** handleVowelSignSelect: the selected consonant joined with the vowel
        sign is typed as one grapheme, and the choice closes whether or not the
        keystroke was taken. */
    method VowelSignSelect(vowelSign: string)
      requires Valid()
      modifies this`currentPosition, this`showGraphemeSelection, board
      ensures Valid() && !showGraphemeSelection
      ensures old(CanType()) ==>
        currentPosition == old(currentPosition) + 1
        && Grid() == WithCell(old(Grid()), currentAttempt, old(currentPosition),
                              Cell(selectedConsonant + vowelSign, Filled))
      ensures !old(CanType()) ==> currentPosition == old(currentPosition) && Grid() == old(Grid())
    {
      var grapheme := selectedConsonant + vowelSign;
      KeyInput(grapheme);
      showGraphemeSelection := false;
    }

    /** The bare-consonant button of the vowel-sign choice: the selected
        consonant is typed on its own, and the choice stays open. */
    method BareConsonantSelect()
      requires Valid()
      modifies this`currentPosition, board
      ensures Valid() && showGraphemeSelection == old(showGraphemeSelection)
      ensures old(CanType()) ==>
        currentPosition == old(currentPosition) + 1
        && Grid() == WithCell(old(Grid()), currentAttempt, old(currentPosition), Cell(selectedConsonant, Filled))
      ensures !old(CanType()) ==> currentPosition == old(currentPosition) && Grid() == old(Grid())
    {
      KeyInput(selectedConsonant);
    }

    /** The cancel button of the vowel-sign choice. */
    method CancelSelection()
      requires Valid()
      modifies this`showGraphemeSelection
      ensures Valid() && !showGraphemeSelection
    {
      showGraphemeSelection := false;
    }

    /** handleBackspace: while playing and while the row is not empty, the
        last typed cell is cleared and the cursor moves back; otherwise
        nothing changes. */
    method Backspace()
      requires Valid()
      modifies this`currentPosition, board
      ensures Valid()
      ensures old(gameStatus == Playing && currentPosition > 0) ==>
        currentPosition == old(currentPosition) - 1
        && Grid() == WithCell(old(Grid()), currentAttempt, currentPosition, EmptyCell)
      ensures !old(gameStatus == Playing && currentPosition > 0) ==>
        currentPosition == old(currentPosition) && Grid() == old(Grid())
    {
      if gameStatus != Playing || currentPosition == 0 {
        return;
      }
      ghost var before := Grid();
      board[currentAttempt, currentPosition - 1] := EmptyCell;
      currentPosition := currentPosition - 1;
      assert Grid() == WithCell(before, currentAttempt, currentPosition, EmptyCell) by {
        ShowsGrid(board, WithCell(before, currentAttempt, currentPosition, EmptyCell));
      }
      EraseConsistent(before, dictionary, targetGraphemes, targetWord, currentAttempt, old(currentPosition));
    }

    /** Everything but the message is as it was. */
    twostate predicate OnlyMessageChanged()
      reads this, board
    {
      Grid() == old(Grid()) && usedLetters == old(usedLetters) && gameStatus == old(gameStatus)
      && currentAttempt == old(currentAttempt) && currentPosition == old(currentPosition)
    }

    /** checkGuess. An incomplete row and a row that is not a dictionary word
        are refused with a message and nothing else changes. An accepted row
        is scored by the two passes, usedLetters takes in the row, and the game
        is won if the row spells the target, lost if that was the last row, and
        otherwise goes on to the next row. */
    method CheckGuess()
      requires Valid()
      modifies this`message, this`usedLetters, this`gameStatus, this`currentAttempt,
        this`currentPosition, board
      ensures Valid()
      ensures old(currentPosition) != |targetGraphemes| ==>
        message == CompleteTheWord && OnlyMessageChanged()
      ensures old(currentPosition) == |targetGraphemes| && Concat(old(Guess())) !in dictionary ==>
        message == NotAValidWord && OnlyMessageChanged()
      ensures var a, guess := old(currentAttempt), old(Guess());
        old(currentPosition) == |targetGraphemes| && Concat(guess) in dictionary ==>
          Grid() == old(Grid())[a := Scored(guess, Evaluate(guess, targetGraphemes))]
          && usedLetters == MergeRow(old(usedLetters), guess, Evaluate(guess, targetGraphemes))
          && if Concat(guess) == targetWord then
               gameStatus == Won && message == Congratulations
               && currentAttempt == a && currentPosition == old(currentPosition)
             else if a == MaxAttempts - 1 then
               gameStatus == Lost && message == Reveal(targetWord)
               && currentAttempt == a && currentPosition == old(currentPosition)
             else
               gameStatus == old(gameStatus) && message == old(message)
               && currentAttempt == a + 1 && currentPosition == 0
      ensures old(currentPosition) == |targetGraphemes| && old(Guess()) == targetGraphemes ==>
        gameStatus == Won
    {
      if currentPosition != |targetGraphemes| {
        message := CompleteTheWord;
        return;
      }
      var guessGraphemes := Graphemes(Row(currentAttempt));
      var currentGuess := Concat(guessGraphemes);
      if currentGuess !in dictionary {
        message := NotAValidWord;
        return;
      }

      Submit(guessGraphemes);
    }

    /** checkGuess once the row is complete and its word is in the dictionary:
        the row is scored, the keyboard map merged, and the game is won, lost
        or moves on to the next row. */
    method Submit(guessGraphemes: seq<string>)
      requires Valid() && currentPosition == |targetGraphemes|
      requires guessGraphemes == Guess() && Concat(guessGraphemes) in dictionary
      modifies this`message, this`usedLetters, this`gameStatus, this`currentAttempt,
        this`currentPosition, board
      ensures Valid()
      ensures var a, guess := old(currentAttempt), guessGraphemes;
        Grid() == old(Grid())[a := Scored(guess, Evaluate(guess, targetGraphemes))]
        && usedLetters == MergeRow(old(usedLetters), guess, Evaluate(guess, targetGraphemes))
        && if Concat(guess) == targetWord then
             gameStatus == Won && message == Congratulations
             && currentAttempt == a && currentPosition == old(currentPosition)
           else if a == MaxAttempts - 1 then
             gameStatus == Lost && message == Reveal(targetWord)
             && currentAttempt == a && currentPosition == old(currentPosition)
           else
             gameStatus == old(gameStatus) && message == old(message)
             && currentAttempt == a + 1 && currentPosition == 0
    {
      ghost var g0 := Grid();
      var a := currentAttempt;
      FullRowCorrect(g0, dictionary, targetGraphemes, targetWord, a, gameStatus);
      var currentGuess := Concat(guessGraphemes);
      var newUsedLetters := ScoreRow(board, a, guessGraphemes, targetGraphemes, usedLetters);
      MergeRowScored(usedLetters, guessGraphemes, Evaluate(guessGraphemes, targetGraphemes));
      usedLetters := newUsedLetters;
      SubmitConsistent(g0, dictionary, targetGraphemes, targetWord, a, gameStatus);
      Conclude(currentGuess == targetWord);
    }

    /** The end of checkGuess once the row is scored: a guess of the target
        wins, a wrong guess on the last row loses and reveals the word, and any
        other guess moves on to the start of the next row. */
    method Conclude(correct: bool)
      requires board.Length0 == MaxAttempts && board.Length1 == |targetGraphemes|
      requires var next := Outcome(correct, currentAttempt, gameStatus, currentPosition);
        Consistent(Grid(), dictionary, targetGraphemes, targetWord, next.attempt, next.pos, next.status)
      requires UsedScored(usedLetters)
      modifies this`message, this`gameStatus, this`currentAttempt, this`currentPosition
      ensures Valid()
      ensures if correct then
          gameStatus == Won && message == Congratulations
          && currentAttempt == old(currentAttempt) && currentPosition == old(currentPosition)
        else if old(currentAttempt) == MaxAttempts - 1 then
          gameStatus == Lost && message == Reveal(targetWord)
          && currentAttempt == old(currentAttempt) && currentPosition == old(currentPosition)
        else
          gameStatus == old(gameStatus) && message == old(message)
          && currentAttempt == old(currentAttempt) + 1 && currentPosition == 0
    {
      if correct {
        gameStatus := Won;
        message := Congratulations;
      } else if currentAttempt == MaxAttempts - 1 {
        gameStatus := Lost;
        message := Reveal(targetWord);
      } else {
        currentAttempt := currentAttempt + 1;
        currentPosition := 0;
      }
    }
  }
}
