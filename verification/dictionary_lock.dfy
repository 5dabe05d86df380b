/**
 The English dictionary injected into a letter grid as its word cache:
 locking the top row then succeeds exactly when the row's text, upper-cased,
 is one of the dictionary's kept words.
 */
module DictionaryLock {
  import opened Wrappers
  import opened WordStack
  import opened LetterGrid
  import opened EnglishWordValidator

  /** The dictionary seen through the word cache interface the grid consults. */
  function AsWordCache(v: Validator): WordCache {
    w => IsWordValid(v, w)
  }

  /**
   With the dictionary built from `lines` and `charSet` as cache, locking a
   non-empty grid never throws, and it locks the top row exactly when the
   row's upper-cased text is a kept word.
   */
  lemma LockWithDictionary(g: Grid, lines: seq<string>, charSet: seq<char>)
    requires |g.rows| > 0 && g.cache == Some(AsWordCache(EnglishWordValidator.New(lines, charSet)))
    ensures LockWordAtTop(g).Ok?
    ensures LockWordAtTop(g).value.1 <==> ToUpper(Text(Top(g))) in Words(lines, ToUpper(charSet))
    ensures !LockWordAtTop(g).value.1 ==> LockWordAtTop(g).value.0 == g
  {
    IsWordValidIff(lines, charSet, Text(Top(g)));
    EmptyWordInvalid(lines, charSet);
  }
}
