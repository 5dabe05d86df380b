# WordZap letter grid and English word validator, in Dafny

This project models the game logic of WordZap, a word-building game. It has two parts.

- **The letter grid** (`LetterGrid`). This is a bounded stack of rows. Each row (`WordStack`) is a bounded stack of letters with a lock flag. The player puts letters on and pops them off the top row. When the top row is complete (locked, or filled to the column limit), the next letter opens a new row, unless the grid is full. A row is locked only when the injected word cache accepts its text. Complete rows can be searched for and removed by text.
- **The English word validator** (`EnglishWordValidator`). It reads dictionary lines, upper-cases each one, and keeps those spelled only from an allowed character set. The kept words go into buckets keyed by word length. A query is upper-cased and looked up in the bucket for its length.

Every grid operation is a pure function. It returns either `Ok` of the new grid and what the operation reports (a `Cell` of row, column and letter, a word, or a flag), or `Err` of the exception the Java method throws. A thrown exception leaves the grid unchanged. Most grid contracts say what the operation does to the rows, whatever state the grid is in. Each operation also promises to preserve the structural invariant `LetterGrid.Valid`: both limits are positive, there are at most `rowLimit` rows, every row is well formed with capacity `colLimit`, and every row below the top is complete. The validator is a fold from a sequence of lines to a `map<nat, set<string>>`. It is proved to agree with an independent reference definition, `Words`: the set of upper-cased lines that are non-empty and spelled from the character set.

Files:
- `wrappers.dfy`: `Option`, `Result`, and the exception kinds (`Exceptions`).
- `word_stack.dfy`: one row.
- `letter_grid.dfy`: the grid.
- `english_word_validator.dfy`: the dictionary.
- `dictionary_lock.dfy`: the dictionary plugged into the grid as its word cache.

Behaviour of the code that is easy to misread:
- The character filter tests membership only. The copy `charSetTmp` that `isWordSubset` shrinks is never read, so a letter may repeat in a word however often it appears in the set (`RepeatedLettersNotConsumed`).
- A missing word cache is rejected with `NullPointerException`, modelled as `NullPointer`.
- `lockWordAtTop` asks the cache first. An empty top row is refused with `false` unless the cache accepts the empty text. In that case `WordStack.lockWord` throws `InvalidStackOperationException`, modelled as `InvalidStackOperation`. The English dictionary never accepts the empty text (`LockWithDictionary`).
- `removeWord` returns `-1` when no complete row matches, because `indexOf(null)` finds nothing and `remove(null)` removes nothing.
- The javadoc of `putLetter` (LetterGrid.java:137-138) says it throws `InvalidStackOperationException` when the top word is locked. The model follows the modelled `isWordComplete`, which is `locked || |letters| == cap`. `isWordLockedAtTop` (lines 340-342) reports the lock through `isWordComplete`, so that method must report a locked row as complete. Then `putLetter` on a locked top row never reaches `pushLetter` (line 156). It opens a new row, or throws `WordStackOverflowException` when the grid is full (lines 149-154). See `PutLetter` and `PutFailsIffFull`. If `WordStack.isWordComplete` meant only a full row, the javadoc would hold instead. `WordStack` is not part of this model.

`WordStack` and `WordCache` are modelled abstractly. A row is modelled as `(cap, letters, locked)`, with `isWordComplete` meaning `locked || |letters| == cap`. A word cache is modelled as a total predicate on strings, held in an `Option` because the Java field may be null. The row operations claim only the behaviour that `LetterGrid` relies on.

## Model

| member | source | states |
|---|---|---|
| WordStack.Push | src/com/android/wordzap/datamodel/LetterGrid.java:155-157 | pushing onto a locked row throws InvalidStackOperation and onto a full row throws overflow; otherwise the letter is appended and nothing else changes |
| WordStack.Pop | src/com/android/wordzap/datamodel/LetterGrid.java:212-215 | popping a locked row throws InvalidStackOperation and an empty row EmptyStack; otherwise the returned letter was the last one and the row keeps the rest, unlocked and incomplete |
| WordStack.Peek | src/com/android/wordzap/datamodel/LetterGrid.java:241-242 | peeking throws EmptyStack exactly on an empty row, and otherwise returns the last letter |
| WordStack.Lock | src/com/android/wordzap/datamodel/LetterGrid.java:305 | locking fails exactly on an empty row; otherwise the row becomes locked and complete, with its letters kept |
| WordStack.Unlock | src/com/android/wordzap/datamodel/LetterGrid.java:321 | unlocking never fails and keeps the letters and capacity |
| WordStack.PopPush | src/com/android/wordzap/datamodel/LetterGrid.java:155-157 | pushing back a popped letter restores the row exactly |
| LetterGrid.New | src/com/android/wordzap/datamodel/LetterGrid.java:61-70 | construction succeeds iff both dimensions are positive, giving an empty valid grid with no cache; otherwise it throws InvalidGridSize |
| LetterGrid.NewWithCache | src/com/android/wordzap/datamodel/LetterGrid.java:76-85 | a bad size throws InvalidGridSize first; a null cache then throws NullPointer; otherwise the result is the plain grid with that cache |
| LetterGrid.SetWordCache | src/com/android/wordzap/datamodel/LetterGrid.java:93-99 | a null cache throws NullPointer; otherwise only the cache changes |
| LetterGrid.GetWordList | src/com/android/wordzap/datamodel/LetterGrid.java:261-268 | one entry per row, in row order, holding that row's text |
| LetterGrid.CompletedWordList | src/com/android/wordzap/datamodel/LetterGrid.java:274-283 | a text is in the list iff some complete row has it; the list is never longer than the row count, and it has the same length iff every row is complete |
| LetterGrid.AllCompleteList | src/com/android/wordzap/datamodel/LetterGrid.java:276-279 | when every row is complete, the completed-word list is the whole word list, in row order |
| LetterGrid.CompletedWordListOrder | src/com/android/wordzap/datamodel/LetterGrid.java:274-283 | in a valid non-empty grid the completed-word list is the word list in row order, without the top row's text when that row is incomplete |
| LetterGrid.GetCompletedWordList | src/com/android/wordzap/datamodel/LetterGrid.java:274-283 | the completed-word list of the grid's rows, with the same guarantees |
| LetterGrid.IsGridFull | src/com/android/wordzap/datamodel/LetterGrid.java:379-384 | a full grid has at least rowLimit rows; a valid grid with fewer rows is not full, and in a valid full grid there are exactly rowLimit rows, all complete |
| LetterGrid.CompletedCount | src/com/android/wordzap/datamodel/LetterGrid.java:379-384 | in a valid non-empty grid the completed count is the row count, less one when the top row is incomplete |
| LetterGrid.FullIff | src/com/android/wordzap/datamodel/LetterGrid.java:379-384 | a valid grid is full iff it has rowLimit rows and its top row is complete |
| LetterGrid.AddNewStack | src/com/android/wordzap/datamodel/LetterGrid.java:169-180 | with a positive column limit, a one-letter unlocked row is appended and reported at row = old count, col 0 |
| LetterGrid.PutLetter | src/com/android/wordzap/datamodel/LetterGrid.java:140-164 | an empty grid gets row 0; an incomplete top row gets the letter with lower rows untouched; a complete top row throws overflow when the grid is full and otherwise opens a new row; the report is (count-1, top size-1, letter); limits and cache are kept; validity is preserved |
| LetterGrid.PutFailsIffFull | src/com/android/wordzap/datamodel/LetterGrid.java:148-154 | on a valid grid, putting fails iff the grid is full, and then it throws WordStackOverflow |
| LetterGrid.PopLetter | src/com/android/wordzap/datamodel/LetterGrid.java:208-217 | no rows or an empty top row throws EmptyStack and a locked top throws InvalidStackOperation; otherwise lower rows are untouched, the top row keeps its capacity and lock flag and loses only its last letter, which is the one returned, and it is reported at row count-1 with col = top size after the pop; validity is preserved |
| LetterGrid.PopThenPut | src/com/android/wordzap/datamodel/LetterGrid.java:155-161 | on a valid grid, putting back the popped letter restores the exact previous grid and reports the same cell |
| LetterGrid.PeekLetter | src/com/android/wordzap/datamodel/LetterGrid.java:238-246 | throws EmptyStack iff there is no row or the top row is empty; otherwise reports (count-1, top size-1, top letter) |
| LetterGrid.PutThenPeek | src/com/android/wordzap/datamodel/LetterGrid.java:160-161 | after a successful put, a peek reports the same cell |
| LetterGrid.GetWordAtTop | src/com/android/wordzap/datamodel/LetterGrid.java:253-256 | throws EmptyStack iff there is no row; otherwise returns the top row's text, the last entry of the word list |
| LetterGrid.ClearGrid | src/com/android/wordzap/datamodel/LetterGrid.java:288-290 | removes every row and keeps the limits and cache |
| LetterGrid.ClearGridIsFresh | src/com/android/wordzap/datamodel/LetterGrid.java:288-290 | clearing a valid grid gives the freshly constructed grid with the same cache, on which pop and getWordAtTop throw EmptyStack |
| LetterGrid.LockWordAtTop | src/com/android/wordzap/datamodel/LetterGrid.java:300-309 | no rows throws EmptyStack; with no cache, or one rejecting the top text, it returns false with the grid unchanged; otherwise it locks only the top row and returns true, throwing InvalidStackOperation if that row is empty |
| LetterGrid.LockThenUnlock | src/com/android/wordzap/datamodel/LetterGrid.java:300-323 | locking an unlocked top row and then unlocking it restores the grid |
| LetterGrid.UnlockWordAtTop | src/com/android/wordzap/datamodel/LetterGrid.java:319-323 | throws EmptyStack iff there is no row; otherwise only the top row's lock is cleared; validity is preserved |
| LetterGrid.RemoveWordAtTop | src/com/android/wordzap/datamodel/LetterGrid.java:330-333 | throws EmptyStack iff there is no row; otherwise it drops exactly the top row, so the count shrinks by one, and returns that row's text |
| LetterGrid.NewRowThenRemove | src/com/android/wordzap/datamodel/LetterGrid.java:148-154 | removing the top word after a put that opened a new row gives back the previous grid and the one-letter word |
| LetterGrid.IsWordLockedAtTop | src/com/android/wordzap/datamodel/LetterGrid.java:340-342 | throws EmptyStack iff there is no row; otherwise tells whether the top row is locked or full |
| LetterGrid.FindWord | src/com/android/wordzap/datamodel/LetterGrid.java:363-370 | returns the first index at or above the start whose row is complete with the given text, or -1 iff there is none |
| LetterGrid.ContainsWord | src/com/android/wordzap/datamodel/LetterGrid.java:347-355 | true iff some complete row's text equals the word; incomplete rows never count |
| LetterGrid.RemoveWord | src/com/android/wordzap/datamodel/LetterGrid.java:361-373 | returns -1 with the grid unchanged iff the word is not contained; otherwise removes exactly the first matching complete row, shifts later rows down and returns its index; validity is preserved |
| LetterGrid.EmptyGridOperationsFail | src/com/android/wordzap/datamodel/LetterGrid.java:208-342 | on a grid with no rows, pop, peek, getWordAtTop, lock, unlock, removeWordAtTop and isWordLockedAtTop all throw EmptyStack, no word is contained, both word lists are empty, and the grid is full only for a row limit of 0 |
| LetterGrid.RemoveWordExample | src/com/android/wordzap/datamodel/LetterGrid.java:361-373 | on the complete rows DOG, CAT, OWL, removing CAT returns 1 and leaves DOG, OWL |
| EnglishWordValidator.IsWordSubset | src/com/android/wordzap/EnglishWordValidator.java:147-163 | true iff every character of the word is in the character set; the empty word passes |
| EnglishWordValidator.New | src/com/android/wordzap/EnglishWordValidator.java:75-83 | the built validator indexes exactly the non-empty upper-cased lines spelled from the upper-cased character set |
| EnglishWordValidator.AddWord | src/com/android/wordzap/EnglishWordValidator.java:105-115 | if the map indexes a set of words, adding one line indexes that set plus the upper-cased line when it is non-empty and spelled from the set |
| EnglishWordValidator.CacheWords | src/com/android/wordzap/EnglishWordValidator.java:97-120 | the result indexes exactly the kept words: every bucket is non-empty, keyed by a positive length, and holds exactly the kept words of that length |
| EnglishWordValidator.BuiltIsWellFormed | src/com/android/wordzap/EnglishWordValidator.java:107-114 | in a built validator every cached word is non-empty and sits in the bucket for its own length |
| EnglishWordValidator.IsWordValid | src/com/android/wordzap/EnglishWordValidator.java:129-137 | true only when the upper-cased query is in its length's bucket; on a well-formed index, true iff it is in any bucket |
| EnglishWordValidator.IsWordValidIff | src/com/android/wordzap/EnglishWordValidator.java:75-137 | a query is valid iff its upper-cased form is among the kept upper-cased lines |
| EnglishWordValidator.IsWordValidIffLine | src/com/android/wordzap/EnglishWordValidator.java:75-137 | a query is valid iff it is non-empty, upper-cases to some line's upper-cased form, and each of its upper-cased characters is in the upper-cased set |
| EnglishWordValidator.LineCachedIff | src/com/android/wordzap/EnglishWordValidator.java:77-81 | a line's upper-cased form is cached iff the line is non-empty and each of its upper-cased characters is in the upper-cased set |
| EnglishWordValidator.IsWordValidCaseInsensitive | src/com/android/wordzap/EnglishWordValidator.java:130 | a query and its upper-cased form are equally valid |
| EnglishWordValidator.EmptyWordInvalid | src/com/android/wordzap/EnglishWordValidator.java:108 | the empty query is never valid |
| EnglishWordValidator.EmptyCharSetCachesNothing | src/com/android/wordzap/EnglishWordValidator.java:153 | with an empty character set the index is empty and no query is valid |
| EnglishWordValidator.RepeatedLettersNotConsumed | src/com/android/wordzap/EnglishWordValidator.java:149-157 | a word repeating one letter passes against a set holding that letter once, although it is not a sub-multiset |
| EnglishWordValidator.IndexDependsOnlyOnLineSet | src/com/android/wordzap/EnglishWordValidator.java:109-114 | two line sequences with the same lines, in any order and with any repeats, build the same index |
| EnglishWordValidator.SampleQuery | src/com/android/wordzap/EnglishWordValidator.java:165-170 | against lines test, a, b, c, def and the set t, e, s, t, a, a query is valid iff it upper-cases to TEST or A |
| EnglishWordValidator.SampleDictionary | src/com/android/wordzap/EnglishWordValidator.java:165-170 | for the same example, TEST, test and A are valid, while B, C, DEF and AA are not |
| DictionaryLock.LockWithDictionary | src/com/android/wordzap/datamodel/LetterGrid.java:300-309 | with the English dictionary as cache, locking a non-empty grid never throws, and it locks iff the top text upper-cased is a kept word, otherwise leaving the grid unchanged |

## Left out

- Reading the word list is left out: the file, `InputStream` and `Reader` constructors, `BufferedReader`, and the `IOException` path are I/O. The word source is a sequence of lines.
- Case folding is ASCII only. Java's `toUpperCase` depends on the locale and on Unicode, and can change a string's length. With ASCII folding, `Character.toUpperCase` on the set and `String.toUpperCase` on the words agree.
- Results are a `Cell` record. The `Map<String,String>` encoding and the int-to-string conversion are not modelled.
- `TreeSet` ordering inside a bucket is not modelled. Buckets are sets, because only membership is used.
- `getRowLimit`, `getColLimit` and `getWordCache` return fields. They are the fields of `Grid`.
- Row and column indices are unbounded naturals. Java `int` overflow cannot occur under the grid's limits.
- Internals of `WordStack`, `WordCache` and `WordValidator` are not part of this model, beyond how `LetterGrid` uses them.
- `GridTextViewListener` is not modelled. It is Android UI glue with no game logic.
- The dead `charSetTmp` copy and its `remove`, the unused `index` counter and the `substring` call in `isWordSubset` do not affect the result, so they are not modelled.
- Debug output and the commented-out `main` are not modelled. The example in `main` is stated as `SampleDictionary`.
- RemoveWord: returns the index where the search found the first matching complete row. The source recomputes that index with `indexOf`, then removes the row with `remove(Object)` (LetterGrid.java:370-371). Both calls use `WordStack.equals`, which is not part of this model. On a valid grid only the top row can be incomplete, so both calls pick the same row, whether `equals` compares identity or contents.
- LockWithDictionary: the English dictionary serving as the grid's cache is a hypothesis of this lemma. In the source the grid's field has type `WordCache`, while `EnglishWordValidator` implements `WordValidator`. The code that connects the two is not part of this model.
- AddNewStack: for a column limit of 0 it returns `WordStackOverflow`, but the source would swallow the `WordStack` constructor's `InvalidGridSizeException`. The constructor rules out this case, so it cannot be reached from a valid grid.
