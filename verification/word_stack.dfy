/**
 One row of the letter grid: a bounded stack of letters with a lock flag.
 A row is complete when it is locked or when it holds as many letters as
 its capacity allows; the grid uses completeness both as "this row is done"
 and as its lock indicator.
 */
module WordStack {
  import opened Wrappers
  import opened Exceptions

  datatype Row = Row(cap: nat, letters: seq<char>, locked: bool)

  /** A fresh, unlocked row with no letters. */
  function Empty(cap: nat): Row {
    Row(cap, [], false)
  }

  /** Never more letters than the capacity, and a locked row is never empty. */
  predicate Valid(r: Row) {
    r.cap > 0 && |r.letters| <= r.cap && (r.locked ==> |r.letters| > 0)
  }

  predicate IsWordComplete(r: Row) {
    r.locked || |r.letters| == r.cap
  }

  /** The row's word text: its letters in insertion order. */
  function Text(r: Row): string {
    r.letters
  }

  function Size(r: Row): nat {
    |r.letters|
  }

  /** Pushes a letter on top of the row. */
  function Push(r: Row, c: char): (res: Result<Row, Exception>)
    ensures r.locked ==> res == Err(InvalidStackOperation)
    ensures !r.locked && |r.letters| >= r.cap ==> res == Err(WordStackOverflow)
    ensures res.Ok? <==> !r.locked && |r.letters| < r.cap
    ensures res.Ok? ==> res.value == r.(letters := r.letters + [c])
    ensures res.Ok? && Valid(r) ==> Valid(res.value)
  {
    if r.locked then Err(InvalidStackOperation)
    else if |r.letters| >= r.cap then Err(WordStackOverflow)
    else Ok(r.(letters := r.letters + [c]))
  }

  /** Removes the top letter, returning the shorter row and the letter. */
  function Pop(r: Row): (res: Result<(Row, char), Exception>)
    ensures r.locked ==> res == Err(InvalidStackOperation)
    ensures !r.locked && |r.letters| == 0 ==> res == Err(EmptyStack)
    ensures res.Ok? <==> !r.locked && |r.letters| > 0
    ensures res.Ok? ==> res.value.0.letters + [res.value.1] == r.letters
    ensures res.Ok? ==> res.value.0 == r.(letters := res.value.0.letters)
    ensures res.Ok? && Valid(r) ==> Valid(res.value.0) && !IsWordComplete(res.value.0)
  {
    if r.locked then Err(InvalidStackOperation)
    else if |r.letters| == 0 then Err(EmptyStack)
    else Ok((r.(letters := r.letters[..|r.letters| - 1]), r.letters[|r.letters| - 1]))
  }

  /** The top letter, without changing the row. */
  function Peek(r: Row): (res: Result<char, Exception>)
    ensures |r.letters| == 0 <==> res == Err(EmptyStack)
    ensures res.Ok? ==> res.value == r.letters[|r.letters| - 1]
  {
    if |r.letters| == 0 then Err(EmptyStack) else Ok(r.letters[|r.letters| - 1])
  }

  /** Seals the row; an empty row cannot be sealed. */
  function Lock(r: Row): (res: Result<Row, Exception>)
    ensures |r.letters| == 0 <==> res == Err(InvalidStackOperation)
    ensures res.Ok? ==> res.value == r.(locked := true) && IsWordComplete(res.value)
    ensures res.Ok? && Valid(r) ==> Valid(res.value)
  {
    if |r.letters| == 0 then Err(InvalidStackOperation) else Ok(r.(locked := true))
  }

  /** Reopens the row; never fails. */
  function Unlock(r: Row): (res: Row)
    ensures res.letters == r.letters && res.cap == r.cap && !res.locked
    ensures Valid(r) ==> Valid(res)
  {
    r.(locked := false)
  }

  /** Popping a letter and pushing it back restores the row exactly. */
  lemma PopPush(r: Row)
    requires Valid(r) && Pop(r).Ok?
    ensures Push(Pop(r).value.0, Pop(r).value.1) == Ok(r)
  {
    var (r', c) := Pop(r).value;
    assert r'.letters + [c] == r.letters;
  }
}
