/**
 The grid of letters the player builds words in: a bounded stack of rows.
 Every operation is a pure function from the old grid to a result that is
 either the new grid (with what the operation reports) or the exception the
 operation throws; a thrown exception leaves the grid as it was.
 */
module LetterGrid {
  import opened Wrappers
  import opened Exceptions
  import opened WordStack

  /** The injected dictionary: answers whether a text is a valid word. */
  type WordCache = string -> bool

  datatype Grid = Grid(rowLimit: nat, colLimit: nat, rows: seq<Row>, cache: Option<WordCache>)

  /** Where a letter was put, popped or peeked. */
  datatype Cell = Cell(row: nat, col: nat, letter: char)

  /**
   The structural invariant: positive limits, at most rowLimit rows, every
   row well formed with capacity colLimit, and every row below the top complete.
   */
  predicate Valid(g: Grid) {
    && g.rowLimit > 0
    && g.colLimit > 0
    && |g.rows| <= g.rowLimit
    && (forall i :: 0 <= i < |g.rows| ==> g.rows[i].cap == g.colLimit && WordStack.Valid(g.rows[i]))
    && (forall i :: 0 <= i < |g.rows| - 1 ==> IsWordComplete(g.rows[i]))
  }

  function Top(g: Grid): Row
    requires |g.rows| > 0
  {
    g.rows[|g.rows| - 1]
  }

  /** The grid with its top row replaced. */
  function SetTop(g: Grid, t: Row): Grid
    requires |g.rows| > 0
  {
    g.(rows := g.rows[..|g.rows| - 1] + [t])
  }

  /** A grid constructed without a word cache. */
  function New(numRows: int, numCols: int): (r: Result<Grid, Exception>)
    ensures r.Ok? <==> numRows > 0 && numCols > 0
    ensures r.Err? ==> r.error == InvalidGridSize
    ensures r.Ok? ==> && r.value.rowLimit == numRows && r.value.colLimit == numCols
                      && r.value.rows == [] && r.value.cache == None
                      && Valid(r.value)
  {
    if numRows > 0 && numCols > 0 then Ok(Grid(numRows, numCols, [], None))
    else Err(InvalidGridSize)
  }

  /** A grid constructed with a word cache, which must not be null. */
  function NewWithCache(numRows: int, numCols: int, c: Option<WordCache>): (r: Result<Grid, Exception>)
    ensures !(numRows > 0 && numCols > 0) ==> r == Err(InvalidGridSize)
    ensures numRows > 0 && numCols > 0 && c.None? ==> r == Err(NullPointer)
    ensures r.Ok? <==> numRows > 0 && numCols > 0 && c.Some?
    ensures r.Ok? ==> r.value == New(numRows, numCols).value.(cache := c) && Valid(r.value)
  {
    match New(numRows, numCols)
    case Err(e) => Err(e)
    case Ok(g) => if c.None? then Err(NullPointer) else Ok(g.(cache := c))
  }

  /** Replaces the word cache; a null cache is refused. */
  function SetWordCache(g: Grid, c: Option<WordCache>): (r: Result<Grid, Exception>)
    ensures c.None? <==> r == Err(NullPointer)
    ensures r.Ok? ==> r.value.cache == c && r.value.rows == g.rows
                      && r.value.rowLimit == g.rowLimit && r.value.colLimit == g.colLimit
    ensures r.Ok? && Valid(g) ==> Valid(r.value)
  {
    if c.None? then Err(NullPointer) else Ok(g.(cache := c))
  }

  /** The text of every row, bottom to top. */
  function GetWordList(g: Grid): (r: seq<string>)
    ensures |r| == |g.rows|
    ensures forall i :: 0 <= i < |r| ==> r[i] == Text(g.rows[i])
  {
    WordList(g.rows)
  }

  function WordList(rows: seq<Row>): (r: seq<string>)
    ensures |r| == |rows|
    ensures forall i :: 0 <= i < |r| ==> r[i] == Text(rows[i])
  {
    if |rows| == 0 then []
    else WordList(rows[..|rows| - 1]) + [Text(rows[|rows| - 1])]
  }

  /** The text of every complete row, bottom to top. */
  function GetCompletedWordList(g: Grid): (r: seq<string>)
    ensures |r| <= |g.rows|
    ensures |r| == |g.rows| <==> forall i :: 0 <= i < |g.rows| ==> IsWordComplete(g.rows[i])
    ensures forall w :: w in r <==> exists i :: 0 <= i < |g.rows| && IsWordComplete(g.rows[i]) && Text(g.rows[i]) == w
  {
    CompletedWordList(g.rows)
  }

  function CompletedWordList(rows: seq<Row>): (r: seq<string>)
    ensures |r| <= |rows|
    ensures |r| == |rows| <==> forall i :: 0 <= i < |rows| ==> IsWordComplete(rows[i])
    ensures forall w :: w in r <==> exists i :: 0 <= i < |rows| && IsWordComplete(rows[i]) && Text(rows[i]) == w
  {
    if |rows| == 0 then []
    else
      var init := rows[..|rows| - 1];
      var last := rows[|rows| - 1];
      var r := CompletedWordList(init) + (if IsWordComplete(last) then [Text(last)] else []);
      assert forall i :: 0 <= i < |init| ==> init[i] == rows[i];
      r
  }

  /**
   The grid is full when as many rows are complete as the row limit allows;
   a full grid has at least rowLimit rows, and in a valid full grid every row
   is complete.
   */
  function IsGridFull(g: Grid): (r: bool)
    ensures r ==> |g.rows| >= g.rowLimit
    ensures Valid(g) && r ==> |g.rows| == g.rowLimit && forall i :: 0 <= i < |g.rows| ==> IsWordComplete(g.rows[i])
    ensures Valid(g) && |g.rows| < g.rowLimit ==> !r
  {
    |GetCompletedWordList(g)| == g.rowLimit
  }

  /** Without incomplete rows the completed-word list is the whole word list. */
  lemma {:induction false} AllCompleteList(rows: seq<Row>)
    requires forall i :: 0 <= i < |rows| ==> IsWordComplete(rows[i])
    ensures CompletedWordList(rows) == WordList(rows)
  {
    if |rows| > 0 {
      var init := rows[..|rows| - 1];
      assert forall i :: 0 <= i < |init| ==> IsWordComplete(init[i]);
      AllCompleteList(init);
    }
  }

  /**
   In a valid grid the completed-word list is the word list, in row order,
   without the top row's text when that row is incomplete.
   */
  lemma {:induction false} CompletedWordListOrder(g: Grid)
    requires Valid(g) && |g.rows| > 0
    ensures GetCompletedWordList(g) ==
      if IsWordComplete(Top(g)) then GetWordList(g) else GetWordList(g)[..|g.rows| - 1]
  {
    var init := g.rows[..|g.rows| - 1];
    assert forall i :: 0 <= i < |init| ==> IsWordComplete(init[i]);
    AllCompleteList(init);
    assert g.rows == init + [Top(g)];
    assert WordList(g.rows) == WordList(init) + [Text(Top(g))];
  }

  /** In a valid grid the count of complete rows is the row count, less one when the top is incomplete. */
  lemma {:induction false} CompletedCount(g: Grid)
    requires Valid(g) && |g.rows| > 0
    ensures |GetCompletedWordList(g)| == |g.rows| - (if IsWordComplete(Top(g)) then 0 else 1)
  {
    var init := g.rows[..|g.rows| - 1];
    assert forall i :: 0 <= i < |init| ==> IsWordComplete(init[i]);
    assert |CompletedWordList(init)| == |init|;
  }

  /** A valid grid is full exactly when it has rowLimit rows and the top one is complete. */
  lemma {:induction false} FullIff(g: Grid)
    requires Valid(g)
    ensures IsGridFull(g) <==> |g.rows| == g.rowLimit && IsWordComplete(Top(g))
  {
    if |g.rows| > 0 {
      CompletedCount(g);
    }
  }

  /** Opens a new row holding just the given letter. */
  function AddNewStack(g: Grid, c: char): (r: Result<(Grid, Cell), Exception>)
    ensures r.Ok? <==> g.colLimit > 0
    ensures r.Ok? ==> r == Ok((g.(rows := g.rows + [Row(g.colLimit, [c], false)]), Cell(|g.rows|, 0, c)))
  {
    match Push(Empty(g.colLimit), c)
    case Err(e) => Err(e)
    case Ok(row) =>
      assert row.letters == [c];
      var g' := g.(rows := g.rows + [row]);
      Ok((g', Cell(|g'.rows| - 1, Size(row) - 1, c)))
  }

  /**
   Puts a letter on top of the grid: on the top row while it is incomplete,
   otherwise on a new row unless the grid is already full.
   */
  function PutLetter(g: Grid, c: char): (r: Result<(Grid, Cell), Exception>)
    // the letter reported is the one put, at the top of the new grid
    ensures r.Ok? ==> var (g', at) := r.value;
      && |g'.rows| > 0 && |Top(g').letters| > 0
      && at == Cell(|g'.rows| - 1, |Top(g').letters| - 1, c)
      && Top(g').letters[at.col] == c
      && g'.rowLimit == g.rowLimit && g'.colLimit == g.colLimit && g'.cache == g.cache
    // empty grid: a new row 0
    ensures |g.rows| == 0 && g.colLimit > 0 ==>
      r == Ok((g.(rows := [Row(g.colLimit, [c], false)]), Cell(0, 0, c)))
    // incomplete top row: the letter goes on it, lower rows untouched
    ensures |g.rows| > 0 && !IsWordComplete(Top(g)) && |Top(g).letters| < Top(g).cap ==>
      r == Ok((g.(rows := g.rows[..|g.rows| - 1] + [Top(g).(letters := Top(g).letters + [c])]),
               Cell(|g.rows| - 1, |Top(g).letters|, c)))
    // complete top row on a full grid: overflow
    ensures |g.rows| > 0 && IsWordComplete(Top(g)) && IsGridFull(g) ==> r == Err(WordStackOverflow)
    // complete top row on a grid with room: a new row above the old ones
    ensures |g.rows| > 0 && IsWordComplete(Top(g)) && !IsGridFull(g) && g.colLimit > 0 ==>
      r == Ok((g.(rows := g.rows + [Row(g.colLimit, [c], false)]), Cell(|g.rows|, 0, c)))
    ensures Valid(g) && r.Ok? ==> Valid(r.value.0)
  {
    if |g.rows| == 0 then
      var r := AddNewStack(g, c);
      assert g.rows + [Row(g.colLimit, [c], false)] == [Row(g.colLimit, [c], false)];
      r
    else if IsWordComplete(Top(g)) then
      if IsGridFull(g) then Err(WordStackOverflow) else
        var r := AddNewStack(g, c);
        assert Valid(g) ==> g.colLimit > 0 && |g.rows| < g.rowLimit by {
          if Valid(g) { FullIff(g); }
        }
        r
    else
      match Push(Top(g), c)
      case Err(e) => Err(e)
      case Ok(t) =>
        var g' := SetTop(g, t);
        assert Top(g') == t;
        Ok((g', Cell(|g'.rows| - 1, Size(t) - 1, c)))
  }

  /** On a valid grid, putting a letter fails exactly when the grid is full. */
  lemma PutFailsIffFull(g: Grid, c: char)
    requires Valid(g)
    ensures PutLetter(g, c).Err? <==> IsGridFull(g)
    ensures PutLetter(g, c).Err? ==> PutLetter(g, c).error == WordStackOverflow
  {
    FullIff(g);
  }

  /** Pops the top letter of the top row. */
  function PopLetter(g: Grid): (r: Result<(Grid, Cell), Exception>)
    ensures |g.rows| == 0 ==> r == Err(EmptyStack)
    ensures |g.rows| > 0 && Top(g).locked ==> r == Err(InvalidStackOperation)
    ensures |g.rows| > 0 && !Top(g).locked && |Top(g).letters| == 0 ==> r == Err(EmptyStack)
    ensures r.Ok? <==> |g.rows| > 0 && !Top(g).locked && |Top(g).letters| > 0
    // the reported column is the top row's size after the pop
    ensures r.Ok? ==> var (g', at) := r.value;
      && |g'.rows| == |g.rows|
      && g'.rows[..|g.rows| - 1] == g.rows[..|g.rows| - 1]
      && Top(g').letters + [at.letter] == Top(g).letters
      && Top(g') == Top(g).(letters := Top(g').letters)
      && at == Cell(|g.rows| - 1, |Top(g').letters|, at.letter)
      && g'.rowLimit == g.rowLimit && g'.colLimit == g.colLimit && g'.cache == g.cache
    ensures Valid(g) && r.Ok? ==> Valid(r.value.0)
  {
    if |g.rows| == 0 then Err(EmptyStack)
    else
      match Pop(Top(g))
      case Err(e) => Err(e)
      case Ok((t, c)) =>
        var g' := SetTop(g, t);
        assert Top(g') == t;
        Ok((g', Cell(|g.rows| - 1, Size(t), c)))
  }

  /** Popping a letter and putting it back restores the grid and reports the same cell. */
  lemma PopThenPut(g: Grid)
    requires Valid(g) && PopLetter(g).Ok?
    ensures PutLetter(PopLetter(g).value.0, PopLetter(g).value.1.letter) == Ok((g, PopLetter(g).value.1))
  {
    var (g', at) := PopLetter(g).value;
    var n := |g.rows|;
    assert Top(g').letters + [at.letter] == Top(g).letters;
    assert g'.rows[..n - 1] + [Top(g).(letters := Top(g').letters + [at.letter])] == g.rows;
  }

  /** The top letter of the top row, without changing the grid. */
  function PeekLetter(g: Grid): (r: Result<Cell, Exception>)
    ensures |g.rows| == 0 || |Top(g).letters| == 0 <==> r == Err(EmptyStack)
    ensures r.Ok? ==> && r.value.row == |g.rows| - 1 && r.value.col == |Top(g).letters| - 1
                      && r.value.letter == Top(g).letters[r.value.col]
  {
    if |g.rows| == 0 then Err(EmptyStack)
    else
      match Peek(Top(g))
      case Err(e) => Err(e)
      case Ok(c) => Ok(Cell(|g.rows| - 1, Size(Top(g)) - 1, c))
  }

  /** A put followed by a peek reports the cell the put reported. */
  lemma PutThenPeek(g: Grid, c: char)
    requires PutLetter(g, c).Ok?
    ensures PeekLetter(PutLetter(g, c).value.0) == Ok(PutLetter(g, c).value.1)
  {
  }

  /** The text of the top row. */
  function GetWordAtTop(g: Grid): (r: Result<string, Exception>)
    ensures |g.rows| == 0 <==> r == Err(EmptyStack)
    ensures r.Ok? ==> r.value == Top(g).letters && r.value == GetWordList(g)[|g.rows| - 1]
  {
    if |g.rows| == 0 then Err(EmptyStack) else Ok(Text(Top(g)))
  }

  /** Discards every row; the limits and the word cache are kept. */
  function ClearGrid(g: Grid): (r: Grid)
    ensures r.rows == [] && r.rowLimit == g.rowLimit && r.colLimit == g.colLimit && r.cache == g.cache
    ensures Valid(g) ==> Valid(r)
  {
    g.(rows := [])
  }

  /**
   Locks the top row when a word cache is set and accepts its text; otherwise
   refuses, returning false with the grid unchanged.
   */
  function LockWordAtTop(g: Grid): (r: Result<(Grid, bool), Exception>)
    ensures |g.rows| == 0 ==> r == Err(EmptyStack)
    ensures |g.rows| > 0 && (g.cache.None? || !g.cache.value(Text(Top(g)))) ==> r == Ok((g, false))
    ensures |g.rows| > 0 && g.cache.Some? && g.cache.value(Text(Top(g))) ==>
      if |Top(g).letters| == 0 then r == Err(InvalidStackOperation)
      else r == Ok((g.(rows := g.rows[..|g.rows| - 1] + [Top(g).(locked := true)]), true))
    ensures r.Ok? && r.value.1 ==> IsWordComplete(Top(r.value.0))
    ensures Valid(g) && r.Ok? ==> Valid(r.value.0)
  {
    if |g.rows| == 0 then Err(EmptyStack)
    else if g.cache.Some? && g.cache.value(Text(Top(g))) then
      match Lock(Top(g))
      case Err(e) => Err(e)
      case Ok(t) =>
        var g' := SetTop(g, t);
        assert Top(g') == t;
        Ok((g', true))
    else Ok((g, false))
  }

  /** Unlocks the top row. */
  function UnlockWordAtTop(g: Grid): (r: Result<Grid, Exception>)
    ensures |g.rows| == 0 <==> r == Err(EmptyStack)
    ensures r.Ok? ==> r.value == g.(rows := g.rows[..|g.rows| - 1] + [Top(g).(locked := false)])
    ensures Valid(g) && r.Ok? ==> Valid(r.value)
  {
    if |g.rows| == 0 then Err(EmptyStack) else Ok(SetTop(g, Unlock(Top(g))))
  }

  /** Removes the whole top row and returns its text. */
  function RemoveWordAtTop(g: Grid): (r: Result<(Grid, string), Exception>)
    ensures |g.rows| == 0 <==> r == Err(EmptyStack)
    ensures r.Ok? ==> && |r.value.0.rows| == |g.rows| - 1
                      && r.value.0.rows + [Top(g)] == g.rows
                      && r.value.1 == Text(Top(g))
                      && r.value.0.rowLimit == g.rowLimit && r.value.0.colLimit == g.colLimit
                      && r.value.0.cache == g.cache
    ensures Valid(g) && r.Ok? ==> Valid(r.value.0)
  {
    if |g.rows| == 0 then Err(EmptyStack)
    else Ok((g.(rows := g.rows[..|g.rows| - 1]), Text(Top(g))))
  }

  /** Whether the top row is complete (the grid's lock indicator). */
  function IsWordLockedAtTop(g: Grid): (r: Result<bool, Exception>)
    ensures |g.rows| == 0 <==> r == Err(EmptyStack)
    ensures r.Ok? ==> (r.value <==> Top(g).locked || |Top(g).letters| == Top(g).cap)
  {
    if |g.rows| == 0 then Err(EmptyStack) else Ok(IsWordComplete(Top(g)))
  }

  /** Whether a row is a complete row whose text is the given word. */
  predicate Matches(row: Row, w: string) {
    IsWordComplete(row) && Text(row) == w
  }

  /** The index of the first matching row at or above `from`, or -1 when there is none. */
  function FindWord(rows: seq<Row>, w: string, from: nat): (r: int)
    requires from <= |rows|
    decreases |rows| - from
    ensures r == -1 || from <= r < |rows|
    ensures r >= 0 ==> Matches(rows[r], w) && forall j :: from <= j < r ==> !Matches(rows[j], w)
    ensures r == -1 <==> forall j :: from <= j < |rows| ==> !Matches(rows[j], w)
  {
    if from == |rows| then -1
    else if Matches(rows[from], w) then from
    else FindWord(rows, w, from + 1)
  }

  /** Whether some complete row's text is the given word; incomplete rows never count. */
  function ContainsWord(g: Grid, w: string): (r: bool)
    ensures r <==> exists i :: 0 <= i < |g.rows| && IsWordComplete(g.rows[i]) && Text(g.rows[i]) == w
  {
    FindWord(g.rows, w, 0) >= 0
  }

  /**
   Removes the first complete row whose text is the given word and returns
   its index, the later rows shifting down; returns -1 and leaves the grid
   unchanged when there is no such row.
   */
  function RemoveWord(g: Grid, w: string): (r: (Grid, int))
    ensures r.1 == -1 <==> !ContainsWord(g, w)
    ensures r.1 == -1 ==> r.0 == g
    ensures r.1 != -1 ==> && 0 <= r.1 < |g.rows|
                          && Matches(g.rows[r.1], w)
                          && (forall j :: 0 <= j < r.1 ==> !Matches(g.rows[j], w))
                          && r.0 == g.(rows := g.rows[..r.1] + g.rows[r.1 + 1..])
    ensures Valid(g) ==> Valid(r.0)
  {
    var i := FindWord(g.rows, w, 0);
    if i < 0 then (g, -1)
    else
      var g' := g.(rows := g.rows[..i] + g.rows[i + 1..]);
      assert forall j :: 0 <= j < |g'.rows| ==> g'.rows[j] == g.rows[if j < i then j else j + 1];
      (g', i)
  }

  /** On a grid with no rows every operation on the top row throws EmptyStack. */
  lemma EmptyGridOperationsFail(g: Grid)
    requires |g.rows| == 0
    ensures PopLetter(g) == Err(EmptyStack) && PeekLetter(g) == Err(EmptyStack)
    ensures GetWordAtTop(g) == Err(EmptyStack) && LockWordAtTop(g) == Err(EmptyStack)
    ensures UnlockWordAtTop(g) == Err(EmptyStack) && RemoveWordAtTop(g) == Err(EmptyStack)
    ensures IsWordLockedAtTop(g) == Err(EmptyStack)
    ensures forall w :: !ContainsWord(g, w)
    ensures GetWordList(g) == [] && GetCompletedWordList(g) == [] && (IsGridFull(g) <==> g.rowLimit == 0)
  {
  }

  /** Clearing a valid grid gives the freshly constructed grid, keeping the word cache. */
  lemma ClearGridIsFresh(g: Grid)
    requires Valid(g)
    ensures New(g.rowLimit, g.colLimit).Ok?
    ensures ClearGrid(g) == New(g.rowLimit, g.colLimit).value.(cache := g.cache)
    ensures PopLetter(ClearGrid(g)) == Err(EmptyStack) && GetWordAtTop(ClearGrid(g)) == Err(EmptyStack)
  {
  }

  /** Locking the unlocked top row and unlocking it again restores the grid. */
  lemma LockThenUnlock(g: Grid)
    requires LockWordAtTop(g).Ok? && LockWordAtTop(g).value.1 && !Top(g).locked
    ensures UnlockWordAtTop(LockWordAtTop(g).value.0) == Ok(g)
  {
    var g' := LockWordAtTop(g).value.0;
    assert g'.rows[..|g.rows| - 1] == g.rows[..|g.rows| - 1];
    assert g.rows == g.rows[..|g.rows| - 1] + [Top(g)];
  }

  /** A letter that opened a new row is taken away again by removing the top word. */
  lemma NewRowThenRemove(g: Grid, c: char)
    requires Valid(g) && |g.rows| > 0 && IsWordComplete(Top(g)) && PutLetter(g, c).Ok?
    ensures RemoveWordAtTop(PutLetter(g, c).value.0) == Ok((g, [c]))
  {
    FullIff(g);
    var g' := PutLetter(g, c).value.0;
    assert g'.rows[..|g'.rows| - 1] == g.rows;
  }

  /** Removing CAT from the complete rows DOG, CAT, OWL takes out row 1 and keeps DOG, OWL. */
  lemma RemoveWordExample(g: Grid)
    requires g.rows == [Row(3, "DOG", false), Row(3, "CAT", false), Row(3, "OWL", false)]
    ensures ContainsWord(g, "CAT")
    ensures RemoveWord(g, "CAT") == (g.(rows := [Row(3, "DOG", false), Row(3, "OWL", false)]), 1)
  {
    assert Matches(g.rows[1], "CAT");
    assert !Matches(g.rows[0], "CAT");
    var (g', i) := RemoveWord(g, "CAT");
    assert i == 1;
    assert g.rows[..1] + g.rows[2..] == [Row(3, "DOG", false), Row(3, "OWL", false)];
  }
}
