/**
 The dictionary: word lines filtered to those spelled from an allowed
 character set, upper-cased, and indexed in buckets keyed by word length.
 Case folding is ASCII only.
 */
module EnglishWordValidator {

  /** ASCII upper-casing of one character; every other character is kept. */
  function UpperChar(c: char): char {
    if 'a' <= c <= 'z' then (c as int - 32) as char else c
  }

  function ToUpper(s: string): (r: string)
    ensures |r| == |s|
  {
    seq(|s|, i requires 0 <= i < |s| => UpperChar(s[i]))
  }

  /** The index: word length to the set of cached words of that length. */
  datatype Validator = Validator(wordLists: map<nat, set<string>>)

  /**
   Whether every character of the word occurs in the character set. Each
   character is only looked up; an occurrence in the set is never used up,
   so a letter may repeat in the word however often it appears in the set.
   */
  function IsWordSubset(charSet: seq<char>, word: string): (r: bool)
    decreases |word|
    ensures r <==> forall j :: 0 <= j < |word| ==> word[j] in charSet
  {
    if |word| == 0 then true
    else if |charSet| == 0 || word[0] !in charSet then
      assert word[0] !in charSet;
      false
    else
      var r := IsWordSubset(charSet, word[1..]);
      assert forall j :: 1 <= j < |word| ==> word[j] == word[1..][j - 1];
      r
  }

  /** A word the cache keeps: non-empty and spelled from the character set. */
  ghost predicate Admissible(charSet: seq<char>, u: string) {
    |u| > 0 && forall j :: 0 <= j < |u| ==> u[j] in charSet
  }

  /** Reference definition: the upper-cased admissible lines, as a set. */
  ghost function Words(lines: seq<string>, charSet: seq<char>): set<string> {
    set l | l in lines && Admissible(charSet, ToUpper(l)) :: ToUpper(l)
  }

  /**
   The index `m` holds exactly the words of `ws`: every bucket is non-empty,
   keyed by a positive length, and holds exactly the words of that length.
   */
  ghost predicate Indexes(m: map<nat, set<string>>, ws: set<string>) {
    && (forall k :: k in m ==> k > 0 && m[k] != {})
    && (forall k :: k in m ==> m[k] == set u | u in ws && |u| == k)
    && (forall u :: u in ws ==> |u| in m)
  }

  /** Caches one line: upper-cases it and, if admissible, adds it to its length's bucket. */
  function AddWord(m: map<nat, set<string>>, charSet: seq<char>, line: string): (r: map<nat, set<string>>)
    ensures forall ws :: Indexes(m, ws) ==>
      Indexes(r, ws + (if Admissible(charSet, ToUpper(line)) then {ToUpper(line)} else {}))
  {
    var u := ToUpper(line);
    if IsWordSubset(charSet, u) && |u| != 0 then
      var r := m[|u| := (if |u| in m then m[|u|] else {}) + {u}];
      assert forall ws :: Indexes(m, ws) ==> Indexes(r, ws + {u}) by {
        forall ws | Indexes(m, ws) ensures Indexes(r, ws + {u}) {
          forall k | k in r ensures r[k] == set x | x in ws + {u} && |x| == k {
            if k == |u| && |u| in m {
              assert m[k] == set x | x in ws && |x| == k;
            }
          }
        }
      }
      r
    else m
  }

  /** Words of the lines, split into the earlier lines and the last one. */
  lemma WordsSnoc(init: seq<string>, line: string, charSet: seq<char>)
    ensures Words(init + [line], charSet) ==
      Words(init, charSet) + (if Admissible(charSet, ToUpper(line)) then {ToUpper(line)} else {})
  {
    var lines := init + [line];
    assert forall l :: l in lines <==> l in init || l == line;
  }

  /** Builds the index from the lines, in order, against an already upper-cased character set. */
  function CacheWords(lines: seq<string>, charSet: seq<char>): (r: map<nat, set<string>>)
    ensures Indexes(r, Words(lines, charSet))
    ensures forall k, u :: k in r && u in r[k] ==> |u| == k
  {
    if |lines| == 0 then map[]
    else
      var init := lines[..|lines| - 1];
      var line := lines[|lines| - 1];
      assert lines == init + [line];
      WordsSnoc(init, line, charSet);
      AddWord(CacheWords(init, charSet), charSet, line)
  }

  /** The constructor: upper-cases the character set, then caches the lines against it; the result indexes exactly the kept words. */
  function New(lines: seq<string>, charSet: seq<char>): (v: Validator)
    ensures Indexes(v.wordLists, Words(lines, ToUpper(charSet)))
  {
    Validator(CacheWords(lines, ToUpper(charSet)))
  }

  /** Whether every bucket holds only words of its own length. */
  ghost predicate WellFormed(v: Validator) {
    forall k, u :: k in v.wordLists && u in v.wordLists[k] ==> |u| == k
  }

  /** Upper-cases the query and looks it up in the bucket for its length. */
  function IsWordValid(v: Validator, w: string): (r: bool)
    ensures r ==> |ToUpper(w)| in v.wordLists && ToUpper(w) in v.wordLists[|w|]
    ensures WellFormed(v) ==> (r <==> exists k :: k in v.wordLists && ToUpper(w) in v.wordLists[k])
  {
    var u := ToUpper(w);
    |u| in v.wordLists && u in v.wordLists[|u|]
  }

  /** The words every bucket of a built validator holds have the bucket's length. */
  lemma BuiltIsWellFormed(lines: seq<string>, charSet: seq<char>)
    ensures WellFormed(New(lines, charSet))
    ensures forall k :: k in New(lines, charSet).wordLists ==> k > 0 && New(lines, charSet).wordLists[k] != {}
  {
  }

  /** A query is valid exactly when its upper-cased form is one of the kept words. */
  lemma IsWordValidIff(lines: seq<string>, charSet: seq<char>, w: string)
    ensures IsWordValid(New(lines, charSet), w) <==> ToUpper(w) in Words(lines, ToUpper(charSet))
  {
    var m := New(lines, charSet).wordLists;
    var u := ToUpper(w);
    if u in Words(lines, ToUpper(charSet)) {
      assert u in m[|u|];
    }
    if IsWordValid(New(lines, charSet), w) {
      assert u in m[|u|];
    }
  }

  /**
   A query is valid exactly when it is non-empty, upper-cases to the
   upper-cased form of some line, and each of its upper-cased characters is
   in the upper-cased set.
   */
  lemma IsWordValidIffLine(lines: seq<string>, charSet: seq<char>, w: string)
    ensures IsWordValid(New(lines, charSet), w) <==>
      && |w| > 0
      && (exists i :: 0 <= i < |lines| && ToUpper(lines[i]) == ToUpper(w))
      && (forall j :: 0 <= j < |w| ==> ToUpper(w)[j] in ToUpper(charSet))
  {
    IsWordValidIff(lines, charSet, w);
    var u := ToUpper(w);
    if u in Words(lines, ToUpper(charSet)) {
      var l :| l in lines && ToUpper(l) == u;
      var i :| 0 <= i < |lines| && lines[i] == l;
      assert ToUpper(lines[i]) == u;
    }
  }

  /** A line is cached, upper-cased, exactly when it is non-empty and each of its characters is in the upper-cased set. */
  lemma LineCachedIff(lines: seq<string>, charSet: seq<char>, i: nat)
    requires i < |lines|
    ensures (exists k :: k in New(lines, charSet).wordLists && ToUpper(lines[i]) in New(lines, charSet).wordLists[k]) <==>
      |lines[i]| > 0 && forall j :: 0 <= j < |lines[i]| ==> UpperChar(lines[i][j]) in ToUpper(charSet)
  {
    var v := New(lines, charSet);
    BuiltIsWellFormed(lines, charSet);
    IsWordValidIffLine(lines, charSet, lines[i]);
    assert IsWordValid(v, lines[i]) <==> exists k :: k in v.wordLists && ToUpper(lines[i]) in v.wordLists[k];
    assert forall j :: 0 <= j < |lines[i]| ==> ToUpper(lines[i])[j] == UpperChar(lines[i][j]);
  }

  /** Upper-casing twice is upper-casing once. */
  lemma ToUpperIdempotent(s: string)
    ensures ToUpper(ToUpper(s)) == ToUpper(s)
  {
  }

  /** Validity ignores the case of the query. */
  lemma IsWordValidCaseInsensitive(v: Validator, w: string)
    ensures IsWordValid(v, w) == IsWordValid(v, ToUpper(w))
  {
    ToUpperIdempotent(w);
  }

  /** The empty query is never valid. */
  lemma EmptyWordInvalid(lines: seq<string>, charSet: seq<char>)
    ensures !IsWordValid(New(lines, charSet), "")
  {
    IsWordValidIff(lines, charSet, "");
  }

  /** With an empty character set nothing is cached and no query is valid. */
  lemma EmptyCharSetCachesNothing(lines: seq<string>)
    ensures New(lines, []).wordLists == map[]
    ensures forall w :: !IsWordValid(New(lines, []), w)
  {
    assert ToUpper([]) == [];
    forall u: string ensures !Admissible([], u) {
      if |u| > 0 {
        assert u[0] !in [];
      }
    }
    assert Words(lines, []) == {};
  }

  /** A letter that occurs once in the set may occur any number of times in the word. */
  lemma RepeatedLettersNotConsumed(c: char, n: nat)
    ensures IsWordSubset([c], seq(n, _ => c))
    ensures n > 1 ==> !(multiset(seq(n, _ => c)) <= multiset([c]))
  {
    if n > 1 {
      var w := seq(n, _ => c);
      assert w == [c, c] + w[2..];
      assert multiset(w)[c] >= 2;
    }
  }

  /** The index depends only on which lines occur, not on their order or repetition. */
  lemma IndexDependsOnlyOnLineSet(lines1: seq<string>, lines2: seq<string>, charSet: seq<char>)
    requires forall l :: l in lines1 <==> l in lines2
    ensures CacheWords(lines1, charSet) == CacheWords(lines2, charSet)
  {
    var m1 := CacheWords(lines1, charSet);
    var m2 := CacheWords(lines2, charSet);
    var ws := Words(lines1, charSet);
    assert ws == Words(lines2, charSet) by {
      forall u | u in ws ensures u in Words(lines2, charSet) {
        var l :| l in lines1 && Admissible(charSet, ToUpper(l)) && ToUpper(l) == u;
        assert l in lines2;
      }
      forall u | u in Words(lines2, charSet) ensures u in ws {
        var l :| l in lines2 && Admissible(charSet, ToUpper(l)) && ToUpper(l) == u;
        assert l in lines1;
      }
    }
    assert Indexes(m1, ws) && Indexes(m2, ws);
    IndexUnique(m1, m2, ws);
  }

  /** Two indexes of the same words are the same map. */
  lemma IndexUnique(m1: map<nat, set<string>>, m2: map<nat, set<string>>, ws: set<string>)
    requires Indexes(m1, ws) && Indexes(m2, ws)
    ensures m1 == m2
  {
    forall k | k in m1 ensures k in m2 {
      var u :| u in m1[k];
    }
    forall k | k in m2 ensures k in m1 {
      var u :| u in m2[k];
    }
    assert m1.Keys == m2.Keys;
  }

  /** The upper-cased lines of the example dictionary that survive the filter. */
  lemma SampleWords(lines: seq<string>)
    requires lines == ["test", "a", "b", "c", "def"]
    ensures Words(lines, "TESTA") == {"TEST", "A"}
  {
    assert ToUpper("test") == "TEST";
    assert ToUpper("a") == "A";
    assert ToUpper("b") == "B";
    assert ToUpper("c") == "C";
    assert ToUpper("def") == "DEF";
    assert !Admissible("TESTA", "B") by { assert "B"[0] !in "TESTA"; }
    assert !Admissible("TESTA", "C") by { assert "C"[0] !in "TESTA"; }
    assert !Admissible("TESTA", "DEF") by { assert "DEF"[0] !in "TESTA"; }
    assert Admissible("TESTA", "TEST");
    assert Admissible("TESTA", "A");
    assert forall l :: l in lines <==> l == "test" || l == "a" || l == "b" || l == "c" || l == "def";
  }

  /** A query against the example dictionary is valid exactly when it upper-cases to TEST or A. */
  lemma SampleQuery(lines: seq<string>, cs: seq<char>)
    requires lines == ["test", "a", "b", "c", "def"] && cs == ['t', 'e', 's', 't', 'a']
    ensures forall w :: IsWordValid(New(lines, cs), w) <==> ToUpper(w) in {"TEST", "A"}
  {
    assert ToUpper(cs) == "TESTA";
    SampleWords(lines);
    forall w ensures IsWordValid(New(lines, cs), w) <==> ToUpper(w) in {"TEST", "A"} {
      IsWordValidIff(lines, cs, w);
    }
  }

  /** The answers of a validator that accepts exactly the queries upper-casing to TEST or A. */
  lemma SampleAnswers(v: Validator)
    requires forall w :: IsWordValid(v, w) <==> ToUpper(w) in {"TEST", "A"}
    ensures IsWordValid(v, "TEST") && IsWordValid(v, "test") && IsWordValid(v, "A")
    ensures !IsWordValid(v, "B") && !IsWordValid(v, "C") && !IsWordValid(v, "DEF") && !IsWordValid(v, "AA")
  {
    assert ToUpper("TEST") == "TEST";
    assert ToUpper("test") == "TEST";
    assert ToUpper("A") == "A";
    assert ToUpper("B") == "B";
    assert ToUpper("C") == "C";
    assert ToUpper("DEF") == "DEF";
    assert ToUpper("AA") == "AA";
  }

  /**
   The example dictionary, lines test, a, b, c, def against the set
   t, e, s, t, a: TEST (in either case) and A are valid; B, C and DEF use
   letters outside the set, and AA is not a line.
   */
  lemma SampleDictionary(lines: seq<string>, cs: seq<char>)
    requires lines == ["test", "a", "b", "c", "def"] && cs == ['t', 'e', 's', 't', 'a']
    ensures IsWordValid(New(lines, cs), "TEST") && IsWordValid(New(lines, cs), "test")
    ensures IsWordValid(New(lines, cs), "A")
    ensures !IsWordValid(New(lines, cs), "B") && !IsWordValid(New(lines, cs), "C")
    ensures !IsWordValid(New(lines, cs), "DEF") && !IsWordValid(New(lines, cs), "AA")
  {
    SampleQuery(lines, cs);
    SampleAnswers(New(lines, cs));
  }
}
