/**
 Splitting identifiers into morphemes (src/IdentifierSplitting.cpp).
 `Split` is the scanning loop; `Morphemes` says declaratively which substrings are words;
 `Words` lists the words in order and carries the algebra (conservation, joins, round trips).
 */
module IdentifierSplitting {
  import opened OrderedSets

  // Character classes of the "C" locale.

  predicate IsLower(c: char) { 'a' <= c <= 'z' }

  predicate IsUpper(c: char) { 'A' <= c <= 'Z' }

  function ToLower(c: char): char {
    if IsUpper(c) then c - 'A' + 'a' else c
  }

  function ToUpper(c: char): char {
    if IsLower(c) then c - 'a' + 'A' else c
  }

  const LOWER_CASE := "abcdefghijklmnopqrstuvwxyz"
  const UPPER_CASE := "ABCDEFGHIJKLMNOPQRSTUVWXYZ"

  lemma AlphabetsInOrder()
    ensures |LOWER_CASE| == |UPPER_CASE| == 26
    ensures forall k :: 0 <= k < 26 ==> LOWER_CASE[k] == 'a' + k as char && UPPER_CASE[k] == 'A' + k as char
  {
  }

  /** The character classes are the two alphabets; what happens to a letter and to any other character. */
  lemma CharacterClasses(c: char)
    ensures IsLower(c) <==> c in LOWER_CASE
    ensures IsUpper(c) <==> c in UPPER_CASE
    ensures |LOWER_CASE| == |UPPER_CASE| == 26
    ensures forall k :: 0 <= k < 26 ==> ToLower(UPPER_CASE[k]) == LOWER_CASE[k] && ToUpper(LOWER_CASE[k]) == UPPER_CASE[k]
    ensures c !in UPPER_CASE ==> ToLower(c) == c
    ensures c !in LOWER_CASE ==> ToUpper(c) == c
  {
    AlphabetsInOrder();
    hide LOWER_CASE, UPPER_CASE;
    if IsLower(c) {
      assert LOWER_CASE[c as int - 'a' as int] == c;
    }
    if IsUpper(c) {
      assert UPPER_CASE[c as int - 'A' as int] == c;
    }
  }

  function Lower(s: string): string {
    seq(|s|, i requires 0 <= i < |s| => ToLower(s[i]))
  }

  lemma LowerOfConcat(s: string, t: string)
    ensures Lower(s + t) == Lower(s) + Lower(t)
  {
  }

  // ------------------------------------------------------------------------------------------
  // What a word is
  // ------------------------------------------------------------------------------------------

  /** A word boundary inside the identifier: a capital right after a lower-case letter. */
  predicate Cut(s: string, k: nat) {
    0 < k < |s| && IsUpper(s[k]) && IsLower(s[k - 1])
  }

  predicate Starts(s: string, a: nat) {
    a <= |s| && (a == 0 || s[a - 1] == '_' || Cut(s, a))
  }

  predicate Ends(s: string, b: nat) {
    b <= |s| && (b == |s| || s[b] == '_' || Cut(s, b))
  }

  predicate Unbroken(s: string, a: nat, b: nat) {
    a <= b <= |s|
    && (forall k :: a <= k < b ==> s[k] != '_')
    && (forall k :: a < k < b ==> !Cut(s, k))
  }

  /** `s[a..b]` is a maximal segment without underscores and without a boundary inside. */
  predicate IsWord(s: string, a: nat, b: nat) {
    a < b && Unbroken(s, a, b) && Starts(s, a) && Ends(s, b)
  }

  /** The morphemes of an identifier: its words, lower-cased. */
  function Morphemes(s: string): set<string> {
    set a: nat, b: nat | a <= |s| && b <= |s| && IsWord(s, a, b) :: Lower(s[a..b])
  }

  // ------------------------------------------------------------------------------------------
  // The words in order
  // ------------------------------------------------------------------------------------------

  /** The finished words, lower-cased, and the characters of the word still being read. */
  datatype ScanState = ScanState(done: seq<string>, open: string)

  function Close(st: ScanState): seq<string> {
    if st.open == "" then st.done else st.done + [Lower(st.open)]
  }

  predicate EndsLower(s: string) {
    s != "" && IsLower(s[|s| - 1])
  }

  function Scan(s: string): ScanState {
    if s == "" then ScanState([], "")
    else
      var before, c := s[..|s| - 1], s[|s| - 1];
      var st := Scan(before);
      if c == '_' then ScanState(Close(st), "")
      else if IsUpper(c) && EndsLower(before) then ScanState(Close(st), [c])
      else ScanState(st.done, st.open + [c])
  }

  function Words(s: string): seq<string> {
    Close(Scan(s))
  }

  lemma ScanAppend(s: string, c: char)
    ensures Scan(s + [c]) ==
            if c == '_' then ScanState(Words(s), "")
            else if IsUpper(c) && EndsLower(s) then ScanState(Words(s), [c])
            else ScanState(Scan(s).done, Scan(s).open + [c])
  {
  }

  // ------------------------------------------------------------------------------------------
  // Words and Morphemes agree
  // ------------------------------------------------------------------------------------------

  /** The words that end before the end of the string. */
  function ClosedMorphemes(s: string): set<string> {
    set a: nat, b: nat | a <= |s| && b < |s| && IsWord(s, a, b) :: Lower(s[a..b])
  }

  /** The open word reaches back to the last place where a word may start. */
  predicate OpenWordIs(s: string, open: string) {
    |open| <= |s|
    && open == s[|s| - |open|..]
    && Unbroken(s, |s| - |open|, |s|)
    && Starts(s, |s| - |open|)
  }

  lemma WordEndingHere(s: string, open: string, a: nat)
    requires OpenWordIs(s, open)
    requires a < |s| && Unbroken(s, a, |s|) && Starts(s, a)
    ensures a == |s| - |open|
  {
  }

  /** Words that end inside `s` do not see what is appended to `s`. */
  lemma WordsInsideAreStable(s: string, c: char, a: nat, b: nat)
    requires b < |s|
    ensures IsWord(s, a, b) == IsWord(s + [c], a, b)
    ensures IsWord(s, a, b) ==> (s + [c])[a..b] == s[a..b]
  {
    var s' := s + [c];
    assert forall k: nat :: k < |s| ==> s[k] == s'[k] && Cut(s, k) == Cut(s', k);
    if a < b {
      assert Unbroken(s, a, b) == Unbroken(s', a, b);
    }
  }

  /** What appending one character adds to the closed words. */
  lemma ClosedMorphemesAppend(s: string, c: char, open: string)
    requires OpenWordIs(s, open)
    ensures ClosedMorphemes(s + [c]) ==
            ClosedMorphemes(s) +
            (if open != "" && (c == '_' || (IsUpper(c) && EndsLower(s))) then {Lower(open)} else {})
  {
    var s' := s + [c];
    var w := |s| - |open|;
    assert forall k: nat :: k < |s| ==> Cut(s, k) == Cut(s', k);
    assert Unbroken(s, w, |s|) == Unbroken(s', w, |s|);
    var extra := if open != "" && (c == '_' || (IsUpper(c) && EndsLower(s))) then {Lower(open)} else {};
    forall x | x in ClosedMorphemes(s')
      ensures x in ClosedMorphemes(s) + extra
    {
      var a: nat, b: nat :| a <= |s'| && b < |s'| && IsWord(s', a, b) && x == Lower(s'[a..b]);
      if b < |s| {
        WordsInsideAreStable(s, c, a, b);
        assert x == Lower(s[a..b]);
      } else {
        WordEndingHere(s, open, a);
        assert s'[a..b] == open;
      }
    }
    forall x | x in ClosedMorphemes(s) + extra
      ensures x in ClosedMorphemes(s')
    {
      if x in ClosedMorphemes(s) {
        var a: nat, b: nat :| a <= |s| && b < |s| && IsWord(s, a, b) && x == Lower(s[a..b]);
        WordsInsideAreStable(s, c, a, b);
        assert x == Lower(s'[a..b]);
      } else {
        assert s'[w..|s|] == open;
        assert IsWord(s', w, |s|);
        assert x == Lower(s'[w..|s|]);
      }
    }
  }

  lemma OpenWordAppend(s: string, c: char, open: string)
    requires OpenWordIs(s, open)
    ensures OpenWordIs(s + [c], if c == '_' then "" else if IsUpper(c) && EndsLower(s) then [c] else open + [c])
  {
    var s' := s + [c];
    assert forall k: nat :: k < |s| ==> s[k] == s'[k] && Cut(s, k) == Cut(s', k);
    if c != '_' && !(IsUpper(c) && EndsLower(s)) {
      assert !Cut(s', |s|);
      assert open + [c] == s'[|s| - |open|..];
    }
  }

  lemma CloseElements(st: ScanState)
    ensures Elements(Close(st)) == Elements(st.done) + (if st.open == "" then {} else {Lower(st.open)})
  {
  }

  lemma {:induction false} ScanMeaning(s: string)
    ensures OpenWordIs(s, Scan(s).open)
    ensures Elements(Scan(s).done) == ClosedMorphemes(s)
  {
    if s != "" {
      var before, c := s[..|s| - 1], s[|s| - 1];
      assert s == before + [c];
      ScanMeaning(before);
      ClosedMorphemesAppend(before, c, Scan(before).open);
      CloseElements(Scan(before));
      OpenWordAppend(before, c, Scan(before).open);
    }
  }

  /** The ordered list of words has exactly the declared morphemes. */
  lemma WordsAreMorphemes(s: string)
    ensures Elements(Words(s)) == Morphemes(s)
  {
    ScanMeaning(s);
    var open := Scan(s).open;
    CloseElements(Scan(s));
    var w := |s| - |open|;
    forall x | x in Morphemes(s)
      ensures x in Elements(Words(s))
    {
      var a: nat, b: nat :| a <= |s| && b <= |s| && IsWord(s, a, b) && x == Lower(s[a..b]);
      if b == |s| {
        WordEndingHere(s, open, a);
        assert s[a..b] == open;
      } else {
        assert x in ClosedMorphemes(s);
      }
    }
    if open != "" {
      assert IsWord(s, w, |s|);
      assert s[w..|s|] == open;
      assert Lower(s[w..|s|]) in Morphemes(s);
    }
  }

  // ------------------------------------------------------------------------------------------
  // The scanning loop
  // ------------------------------------------------------------------------------------------

  /** `lower`: copies the word into a buffer and lower-cases the buffer in place. */
  method LowerWord(input: string, wordStart: nat, wordEnd: nat) returns (str: string)
    requires wordStart <= wordEnd <= |input|
    ensures str == Lower(input[wordStart..wordEnd])
  {
    var word := input[wordStart..wordEnd];
    var buffer := new char[|word|](i requires 0 <= i < |word| => word[i]);
    for i := 0 to buffer.Length
      invariant forall k :: 0 <= k < i ==> buffer[k] == ToLower(word[k])
      invariant forall k :: i <= k < buffer.Length ==> buffer[k] == word[k]
    {
      buffer[i] := ToLower(buffer[i]);
    }
    str := buffer[..];
  }

  lemma ScanEmpty()
    ensures Scan("") == ScanState([], "") && Words("") == []
  {
  }

  lemma ScanStep(input: string, curLoc: nat, wordStart: nat, words: seq<string>)
    requires wordStart <= curLoc < |input|
    requires Scan(input[..curLoc]) == ScanState(words, input[wordStart..curLoc])
    ensures
      var c := input[curLoc];
      var closed := if wordStart == curLoc then words else words + [Lower(input[wordStart..curLoc])];
      Scan(input[..curLoc + 1]) ==
      if c == '_' then ScanState(closed, input[curLoc + 1..curLoc + 1])
      else if IsUpper(c) && 0 < curLoc && IsLower(input[curLoc - 1]) then ScanState(closed, input[curLoc..curLoc + 1])
      else ScanState(words, input[wordStart..curLoc + 1])
  {
    ScanAppend(input[..curLoc], input[curLoc]);
    assert input[..curLoc + 1] == input[..curLoc] + [input[curLoc]];
    assert input[wordStart..curLoc + 1] == input[wordStart..curLoc] + [input[curLoc]];
    assert input[curLoc..curLoc + 1] == [input[curLoc]];
  }

  /** `IdentifierSplitter::split`: one pass over the identifier. */
  method Split(input: string) returns (ret: OrderedSet)
    ensures Elements(ret) == Morphemes(input)
  {
    hide Morphemes, Elements, Scan;
    ScanEmpty();
    ret := [];
    var wordStart := 0;
    // Reading through `data()` sees the terminating NUL when the identifier is empty.
    var prevCharWasLower := |input| > 0 && IsLower(input[0]);
    ghost var words: seq<string> := [];
    for curLoc := 0 to |input|
      invariant 0 <= wordStart <= curLoc
      invariant curLoc > 0 ==> prevCharWasLower == IsLower(input[curLoc - 1])
      invariant curLoc == 0 ==> prevCharWasLower == (|input| > 0 && IsLower(input[0]))
      invariant curLoc > 0 && prevCharWasLower ==> wordStart < curLoc
      invariant Scan(input[..curLoc]) == ScanState(words, input[wordStart..curLoc])
      invariant Elements(ret) == Elements(words)
    {
      ScanStep(input, curLoc, wordStart, words);
      if input[curLoc] == '_' {
        if wordStart != curLoc {
          var word := LowerWord(input, wordStart, curLoc);
          ElementsOfSnoc(words, word);
          ret, words := Insert(ret, word), words + [word];
        }
        wordStart := curLoc + 1;
      } else if IsUpper(input[curLoc]) && prevCharWasLower {
        var word := LowerWord(input, wordStart, curLoc);
        ElementsOfSnoc(words, word);
        ret, words := Insert(ret, word), words + [word];
        wordStart := curLoc;
      }
      prevCharWasLower := IsLower(input[curLoc]);
    }
    assert input[..|input|] == input;
    if wordStart != |input| {
      var word := LowerWord(input, wordStart, |input|);
      ElementsOfSnoc(words, word);
      ret, words := Insert(ret, word), words + [word];
    }
    assert words == Words(input);
    WordsAreMorphemes(input);
  }

  // ------------------------------------------------------------------------------------------
  // Conservation
  // ------------------------------------------------------------------------------------------

  function Flatten(words: seq<string>): string {
    if words == [] then "" else Flatten(words[..|words| - 1]) + words[|words| - 1]
  }

  /** The identifier with its underscores deleted. */
  function Strip(s: string): string {
    if s == "" then ""
    else Strip(s[..|s| - 1]) + (if s[|s| - 1] == '_' then "" else [s[|s| - 1]])
  }

  lemma FlattenClose(st: ScanState)
    ensures Flatten(Close(st)) == Flatten(st.done) + Lower(st.open)
  {
  }

  lemma ScanConserves(s: string, c: char)
    ensures Flatten(Scan(s + [c]).done) + Lower(Scan(s + [c]).open) ==
            Flatten(Scan(s).done) + Lower(Scan(s).open) + Lower(if c == '_' then "" else [c])
  {
    ScanAppend(s, c);
    FlattenClose(Scan(s));
    LowerOfConcat(Scan(s).open, [c]);
    hide Scan;
  }

  /** No character is lost, duplicated or reordered by splitting; only underscores disappear. */
  lemma {:induction false} WordsConserveCharacters(s: string)
    ensures Flatten(Scan(s).done) + Lower(Scan(s).open) == Lower(Strip(s))
    ensures Flatten(Words(s)) == Lower(Strip(s))
  {
    FlattenClose(Scan(s));
    if s != "" {
      var before, c := s[..|s| - 1], s[|s| - 1];
      assert s == before + [c];
      WordsConserveCharacters(before);
      ScanConserves(before, c);
      LowerOfConcat(Strip(before), if c == '_' then "" else [c]);
      hide Scan, Flatten, Lower;
    }
  }

  /** A string that `Split` would leave alone: nonempty, no underscore, no capital. */
  predicate Plain(w: string) {
    w != "" && forall k :: 0 <= k < |w| ==> w[k] != '_' && !IsUpper(w[k])
  }

  lemma {:induction false} EveryWordIsPlain(s: string)
    ensures forall w :: w in Scan(s).done ==> Plain(w)
    ensures forall w :: w in Words(s) ==> Plain(w)
  {
    ScanMeaning(s);
    assert forall k :: 0 <= k < |Scan(s).open| ==> Scan(s).open[k] != '_';
    assert Scan(s).open != "" ==> Plain(Lower(Scan(s).open));
    if s != "" {
      EveryWordIsPlain(s[..|s| - 1]);
    }
  }

  predicate OnlyUnderscores(s: string) {
    forall k :: 0 <= k < |s| ==> s[k] == '_'
  }

  lemma {:induction false} StripEmptyIffUnderscores(s: string)
    ensures Strip(s) == "" <==> OnlyUnderscores(s)
  {
    if s != "" {
      StripEmptyIffUnderscores(s[..|s| - 1]);
      assert s == s[..|s| - 1] + [s[|s| - 1]];
    }
  }

  /** Every morpheme is nonempty, has no underscore and no capital; there is none iff the
      identifier consists of underscores. */
  lemma MorphemesAreWellFormed(s: string)
    ensures forall w :: w in Morphemes(s) ==> Plain(w)
    ensures Morphemes(s) == {} <==> OnlyUnderscores(s)
  {
    WordsAreMorphemes(s);
    EveryWordIsPlain(s);
    WordsConserveCharacters(s);
    StripEmptyIffUnderscores(s);
    if Words(s) == [] {
      assert Lower(Strip(s)) == "";
      assert |Lower(Strip(s))| == |Strip(s)|;
    } else {
      var last := Words(s)[|Words(s)| - 1];
      assert last in Words(s) && last != "";
      assert last in Morphemes(s);
      assert |Lower(Strip(s))| == |Strip(s)|;
    }
  }

  // ------------------------------------------------------------------------------------------
  // Joins
  // ------------------------------------------------------------------------------------------

  /** An underscore cuts an identifier into two that are split independently. */
  lemma {:induction false} WordsOfJoin(a: string, b: string)
    ensures Scan(a + "_" + b) == ScanState(Words(a) + Scan(b).done, Scan(b).open)
    ensures Words(a + "_" + b) == Words(a) + Words(b)
  {
    hide Scan;
    ScanEmpty();
    if b == "" {
      ScanAppend(a, '_');
      assert a + "_" + b == a + ['_'];
    } else {
      var b', c := b[..|b| - 1], b[|b| - 1];
      WordsOfJoin(a, b');
      assert b == b' + [c];
      assert a + "_" + b == (a + "_" + b') + [c];
      ScanAppend(a + "_" + b', c);
      ScanAppend(b', c);
      assert EndsLower(a + "_" + b') == EndsLower(b');
    }
  }

  /** Where a name may be cut in two: a capital follows a lower-case letter. */
  predicate Hump(a: string, b: string) {
    a != "" && b != "" && a[|a| - 1] in LOWER_CASE && b[0] in UPPER_CASE
  }

  /** The last word goes on with `w`. */
  function ExtendLast(words: seq<string>, w: string): (extended: seq<string>)
    requires words != []
    ensures extended != []
  {
    words[..|words| - 1] + [words[|words| - 1] + w]
  }

  /** The last of the one words goes on with the first of the others. */
  function Fused(ones: seq<string>, twos: seq<string>): (fused: seq<string>)
    requires ones != [] && twos != []
    ensures fused != []
  {
    ExtendLast(ones, twos[0]) + twos[1..]
  }

  lemma FusedThenMore(ones: seq<string>, twos: seq<string>, w: string)
    requires ones != [] && twos != []
    ensures Fused(ones, twos) + [w] == Fused(ones, twos + [w])
    ensures ExtendLast(Fused(ones, twos), w) == Fused(ones, ExtendLast(twos, w))
  {
    if |twos| == 1 {
      assert ExtendLast(twos, w) == [twos[0] + w] && twos[1..] == [];
      assert ones[|ones| - 1] + (twos[0] + w) == ones[|ones| - 1] + twos[0] + w;
    } else {
      assert ExtendLast(twos, w)[1..] == ExtendLast(twos[1..], w);
    }
  }

  lemma OpenIsEmptyIff(s: string)
    requires s != ""
    ensures s[|s| - 1] == '_' <==> Scan(s).open == ""
  {
  }

  /** What one more character does to the words: an underscore ends a word, a hump starts one, and any
      other character goes on with the word or starts one after an underscore. */
  lemma WordsGrow(s: string, c: char)
    ensures c == '_' ==> Words(s + [c]) == Words(s)
    ensures c != '_' && (s == "" || s[|s| - 1] == '_' || Hump(s, [c])) ==> Words(s + [c]) == Words(s) + [Lower([c])]
    ensures c != '_' && s != "" && s[|s| - 1] != '_' && !Hump(s, [c]) ==>
              Words(s) != [] && Words(s + [c]) == ExtendLast(Words(s), Lower([c]))
  {
    ScanAppend(s, c);
    CharacterClasses(c);
    assert "" + [c] == [c];
    if s != "" {
      CharacterClasses(s[|s| - 1]);
      LowerOfConcat(Scan(s).open, [c]);
      OpenIsEmptyIff(s);
    } else {
      ScanEmpty();
    }
    hide Scan, ToLower;
  }

  lemma ExtendLastOfConcat(ones: seq<string>, twos: seq<string>, w: string)
    requires twos != []
    ensures ExtendLast(ones + twos, w) == ones + ExtendLast(twos, w)
  {
  }

  /** The words after one more character, by the character before it. */
  function Grown(words: seq<string>, prev: char, c: char): seq<string>
    requires c != '_' && prev != '_' && !Hump([prev], [c]) ==> words != []
  {
    if c == '_' then words
    else if prev == '_' || Hump([prev], [c]) then words + [Lower([c])]
    else ExtendLast(words, Lower([c]))
  }

  lemma WordsAreGrown(s: string, c: char)
    requires s != ""
    ensures var prev := s[|s| - 1];
            (c != '_' && prev != '_' && !Hump([prev], [c]) ==> Words(s) != [])
            && Words(s + [c]) == Grown(Words(s), prev, c)
  {
    WordsGrow(s, c);
    hide Words;
  }

  lemma GrownOfConcat(ones: seq<string>, twos: seq<string>, prev: char, c: char)
    requires c != '_' && prev != '_' && !Hump([prev], [c]) ==> twos != []
    ensures Grown(ones + twos, prev, c) == ones + Grown(twos, prev, c)
  {
    if c != '_' && prev != '_' && !Hump([prev], [c]) {
      ExtendLastOfConcat(ones, twos, Lower([c]));
    }
  }

  lemma GrownOfFused(ones: seq<string>, twos: seq<string>, prev: char, c: char)
    requires ones != [] && twos != []
    ensures Grown(twos, prev, c) != [] && Grown(Fused(ones, twos), prev, c) == Fused(ones, Grown(twos, prev, c))
  {
    FusedThenMore(ones, twos, Lower([c]));
  }

  /** A hump separates: the words of the two parts are the words of the whole. */
  lemma {:induction false} HumpSeparates(a: string, b: string)
    requires Hump(a, b)
    ensures Words(a + b) == Words(a) + Words(b)
  {
    hide Words, Grown;
    var b', c := b[..|b| - 1], b[|b| - 1];
    assert a + b == (a + b') + [c] && b == b' + [c];
    if b' == "" {
      CharacterClasses(c);
      ScanEmpty();
      WordsGrow("", c);
      WordsGrow(a, c);
      assert a + b' == a && [c] == b && "" + [c] == b;
    } else {
      assert b'[0] == b[0] && (a + b')[|a + b'| - 1] == b'[|b'| - 1];
      HumpSeparates(a, b');
      WordsAreGrown(a + b', c);
      WordsAreGrown(b', c);
      GrownOfConcat(Words(a), Words(b'), b'[|b'| - 1], c);
    }
  }

  lemma FusedWithOne(ones: seq<string>, w: string)
    requires ones != []
    ensures Fused(ones, [w]) == ExtendLast(ones, w)
  {
  }

  /** Anything else fuses: the last word of the first part goes on with the first word of the second. */
  lemma {:induction false} OtherwiseFused(a: string, b: string)
    requires a != "" && b != "" && a[|a| - 1] != '_' && b[0] != '_' && !Hump(a, b)
    ensures Words(a) != [] && Words(b) != [] && Words(a + b) == Fused(Words(a), Words(b))
  {
    hide Words, Grown, ExtendLast, Fused;
    var b', c := b[..|b| - 1], b[|b| - 1];
    assert a + b == (a + b') + [c] && b == b' + [c];
    if b' == "" {
      ScanEmpty();
      WordsGrow("", c);
      WordsGrow(a, c);
      assert a + b' == a && [c] == b && "" + [c] == b;
      assert Words("") + [Lower(b)] == [Lower(b)];
      FusedWithOne(Words(a), Lower(b));
    } else {
      assert b'[0] == b[0] && (a + b')[|a + b'| - 1] == b'[|b'| - 1];
      OtherwiseFused(a, b');
      WordsAreGrown(a + b', c);
      WordsAreGrown(b', c);
      GrownOfFused(Words(a), Words(b'), b'[|b'| - 1], c);
    }
  }

  lemma MorphemesOfJoin(a: string, b: string)
    ensures Morphemes(a + "_" + b) == Morphemes(a) + Morphemes(b)
  {
    WordsOfJoin(a, b);
    WordsAreMorphemes(a);
    WordsAreMorphemes(b);
    WordsAreMorphemes(a + "_" + b);
    ElementsOfConcat(Words(a), Words(b));
  }

  /** A run without underscores and capitals only extends the open word. */
  lemma {:induction false} RunExtendsOpenWord(s: string, run: string)
    requires run == "" || Plain(run)
    ensures Scan(s + run) == ScanState(Scan(s).done, Scan(s).open + run)
  {
    hide Scan;
    if run == "" {
      assert s + run == s;
    } else {
      var run', c := run[..|run| - 1], run[|run| - 1];
      RunExtendsOpenWord(s, run');
      assert run == run' + [c];
      assert s + run == (s + run') + [c];
      ScanAppend(s + run', c);
    }
  }

  lemma LowerOfPlain(w: string)
    requires Plain(w)
    ensures Lower(w) == w
  {
  }

  lemma PlainIsOneWord(w: string)
    requires Plain(w)
    ensures Scan(w) == ScanState([], w) && Words(w) == [w]
  {
    RunExtendsOpenWord("", w);
    LowerOfPlain(w);
    assert "" + w == w;
  }

  /** Splitting is idempotent: a morpheme splits to just itself. */
  lemma MorphemeSplitsToItself(s: string, w: string)
    requires w in Morphemes(s)
    ensures Morphemes(w) == {w}
  {
    MorphemesAreWellFormed(s);
    PlainIsOneWord(w);
    WordsAreMorphemes(w);
  }

  function Underscores(n: nat): string {
    seq(n, _ => '_')
  }

  /** snake_case with `gaps[k]` underscores before word `k` and `gaps[|words|]` at the end. */
  function Snake(words: seq<string>, gaps: seq<nat>): string
    requires |gaps| == |words| + 1
  {
    if words == [] then Underscores(gaps[0])
    else Underscores(gaps[0]) + words[0] + Snake(words[1..], gaps[1..])
  }

  lemma {:induction false} LeadingUnderscoresVanish(n: nat, s: string)
    ensures Words(Underscores(n) + s) == Words(s)
  {
    if n == 0 {
      assert Underscores(n) + s == s;
    } else {
      LeadingUnderscoresVanish(n - 1, s);
      WordsOfJoin("", Underscores(n - 1) + s);
      assert Underscores(n) + s == "" + "_" + (Underscores(n - 1) + s);
    }
  }

  lemma SnakeHead(w: string, n: nat, tail: string)
    requires Plain(w)
    ensures Words(w + Underscores(n + 1) + tail) == [w] + Words(tail)
  {
    hide Words;
    PlainIsOneWord(w);
    WordsOfJoin(w, Underscores(n) + tail);
    LeadingUnderscoresVanish(n, tail);
    assert w + Underscores(n + 1) + tail == w + "_" + (Underscores(n) + tail);
  }

  lemma WordThenGap(w: string, gap: nat, tail: string)
    requires Plain(w) && (gap == 0 ==> tail == "")
    ensures Words(w + (Underscores(gap) + tail)) == [w] + Words(Underscores(gap) + tail)
  {
    if gap == 0 {
      PlainIsOneWord(w);
      assert Underscores(gap) + tail == "" && w + (Underscores(gap) + tail) == w;
    } else {
      LeadingUnderscoresVanish(gap, tail);
      SnakeHead(w, gap - 1, tail);
      assert w + (Underscores(gap) + tail) == w + Underscores(gap) + tail;
    }
  }

  lemma SnakeTail(w: string, rest: seq<string>, gaps: seq<nat>)
    requires |gaps| == |rest| + 1
    requires Plain(w) && (rest != [] ==> gaps[0] > 0)
    requires Words(Snake(rest, gaps)) == rest
    ensures Words(w + Snake(rest, gaps)) == [w] + rest
  {
    var tail := if rest == [] then "" else rest[0] + Snake(rest[1..], gaps[1..]);
    assert Snake(rest, gaps) == Underscores(gaps[0]) + tail;
    WordThenGap(w, gaps[0], tail);
  }

  /** Splitting a snake_case join gives back the list of words, whatever the (positive) numbers of
      underscores between them and however many lead or trail. */
  lemma {:induction false} SnakeRoundTrip(words: seq<string>, gaps: seq<nat>)
    requires |gaps| == |words| + 1
    requires forall k :: 0 <= k < |words| ==> Plain(words[k])
    requires forall k :: 0 < k < |words| ==> gaps[k] > 0
    ensures Words(Snake(words, gaps)) == words
    ensures Morphemes(Snake(words, gaps)) == Elements(words)
  {
    WordsAreMorphemes(Snake(words, gaps));
    if words == [] {
      LeadingUnderscoresVanish(gaps[0], "");
      assert Underscores(gaps[0]) + "" == Underscores(gaps[0]);
    } else {
      var w, rest, gaps' := words[0], words[1..], gaps[1..];
      LeadingUnderscoresVanish(gaps[0], w + Snake(rest, gaps'));
      assert Snake(words, gaps) == Underscores(gaps[0]) + (w + Snake(rest, gaps'));
      SnakeRoundTrip(rest, gaps');
      SnakeTail(w, rest, gaps');
    }
  }

  // ------------------------------------------------------------------------------------------
  // camelCase
  // ------------------------------------------------------------------------------------------

  predicate LowerLetters(w: string) {
    w != "" && forall k :: 0 <= k < |w| ==> IsLower(w[k])
  }

  predicate AllLowerLetters(words: seq<string>) {
    forall k :: 0 <= k < |words| ==> LowerLetters(words[k])
  }

  function Capitalize(w: string): string
    requires w != ""
  {
    [ToUpper(w[0])] + w[1..]
  }

  function Camel(words: seq<string>): string
    requires forall k :: 0 <= k < |words| ==> words[k] != ""
  {
    if words == [] then ""
    else if |words| == 1 then words[0]
    else Camel(words[..|words| - 1]) + Capitalize(words[|words| - 1])
  }

  /** The last word but one is neither the first nor longer than its capital. */
  predicate ShortBeforeLast(words: seq<string>) {
    |words| > 2 && |words[|words| - 2]| == 1
  }

  /** The words that camelCase leaves: each run of inner single-letter words is fused with the word
      after it. */
  function Merged(words: seq<string>): (merged: seq<string>)
    ensures words != [] ==> merged != []
  {
    if |words| <= 1 then words
    else
      var merged, last := Merged(words[..|words| - 1]), words[|words| - 1];
      if ShortBeforeLast(words) then merged[..|merged| - 1] + [merged[|merged| - 1] + last]
      else merged + [last]
  }

  ghost predicate NoShortInside(words: seq<string>) {
    forall k :: 0 < k < |words| - 1 ==> |words[k]| != 1
  }

  /** Fusing changes the list exactly when there is an inner single-letter word, and then shortens it. */
  lemma {:induction false} MergedLength(words: seq<string>)
    ensures NoShortInside(words) ==> Merged(words) == words
    ensures !NoShortInside(words) ==> |Merged(words)| < |words|
    ensures |Merged(words)| <= |words|
  {
    if |words| > 1 {
      var init := words[..|words| - 1];
      MergedLength(init);
      assert words == init + [words[|words| - 1]];
      assert NoShortInside(words) <==> NoShortInside(init) && !ShortBeforeLast(words) by {
        assert forall k :: 0 < k < |init| ==> words[k] == init[k];
      }
    }
  }

  lemma LowerOfCapitalized(w: string)
    requires LowerLetters(w)
    ensures Lower(Capitalize(w)) == w
  {
  }

  /** Appending a capitalized word: the capital is a boundary only after a lower-case letter. */
  lemma AppendCapitalized(head: string, w: string)
    requires LowerLetters(w) && Scan(head).open != ""
    ensures Scan(head + Capitalize(w)) ==
            if EndsLower(head) then ScanState(Words(head), Capitalize(w))
            else ScanState(Scan(head).done, Scan(head).open + Capitalize(w))
  {
    hide Scan, Close;
    var capital := [ToUpper(w[0])];
    assert head + Capitalize(w) == (head + capital) + w[1..];
    RunExtendsOpenWord(head + capital, w[1..]);
    ScanAppend(head, capital[0]);
    assert Scan(head).open + Capitalize(w) == Scan(head).open + capital + w[1..];
  }

  lemma CapitalizedEndsLower(head: string, w: string)
    requires LowerLetters(w)
    ensures EndsLower(head + Capitalize(w)) <==> |w| > 1
  {
  }

  lemma CloseAppended(st: ScanState, w: string)
    requires st.open != ""
    ensures Close(ScanState(st.done, st.open + w)) == Close(st)[..|Close(st)| - 1] + [Close(st)[|Close(st)| - 1] + Lower(w)]
  {
    LowerOfConcat(st.open, w);
  }

  lemma {:induction false} CamelScan(words: seq<string>)
    requires words != [] && AllLowerLetters(words)
    ensures Camel(words) != "" && Scan(Camel(words)).open != ""
    ensures EndsLower(Camel(words)) <==> |words| == 1 || |words[|words| - 1]| > 1
    ensures Words(Camel(words)) == Merged(words)
  {
    var last := words[|words| - 1];
    assert LowerLetters(last);
    hide Scan;
    if |words| == 1 {
      PlainIsOneWord(last);
      assert words == [last];
    } else {
      var init := words[..|words| - 1];
      assert words == init + [last];
      CamelScan(init);
      AppendCapitalized(Camel(init), last);
      CapitalizedEndsLower(Camel(init), last);
      LowerOfCapitalized(last);
      CloseAppended(Scan(Camel(init)), Capitalize(last));
    }
  }

  /** Nonempty words of lower-case letters. */
  ghost predicate OverAlphabet(words: seq<string>) {
    forall k :: 0 <= k < |words| ==> words[k] != "" && forall l :: 0 <= l < |words[k]| ==> words[k][l] in LOWER_CASE
  }

  lemma OverAlphabetIsLower(words: seq<string>)
    ensures OverAlphabet(words) <==> AllLowerLetters(words)
  {
    forall c
      ensures IsLower(c) <==> c in LOWER_CASE
    {
      CharacterClasses(c);
    }
  }

  /** Splitting a camelCase join of any lower-case words gives the fused words, in order. */
  lemma CamelWords(words: seq<string>)
    requires OverAlphabet(words)
    ensures Words(Camel(words)) == Merged(words)
  {
    OverAlphabetIsLower(words);
    if words == [] {
      ScanEmpty();
    } else {
      CamelScan(words);
    }
  }

  ghost predicate Distinct(words: seq<string>) {
    forall a, b :: 0 <= a < b < |words| ==> words[a] != words[b]
  }

  lemma {:induction false} ElementsCount(words: seq<string>)
    ensures |Elements(words)| <= |words|
    ensures Distinct(words) ==> |Elements(words)| == |words|
  {
    if words != [] {
      var init, last := words[..|words| - 1], words[|words| - 1];
      assert words == init + [last];
      ElementsCount(init);
      ElementsOfSnoc(init, last);
    }
  }

  /**
   When `split` recovers the words of a camelCase join: for the list in order, exactly when no word
   other than the first and the last has a single letter; for the set that it returns, exactly when
   fusing the inner single-letter words with their successors leaves the same set of words, which
   for pairwise different words is the same condition.
   */
  lemma CamelRoundTrip(words: seq<string>)
    requires OverAlphabet(words)
    ensures Words(Camel(words)) == words <==> NoShortInside(words)
    ensures Morphemes(Camel(words)) == Elements(words) <==> Elements(Merged(words)) == Elements(words)
    ensures Distinct(words) ==> (Morphemes(Camel(words)) == Elements(words) <==> NoShortInside(words))
  {
    OverAlphabetIsLower(words);
    CamelWords(words);
    MergedLength(words);
    WordsAreMorphemes(Camel(words));
    ElementsCount(words);
    ElementsCount(Merged(words));
  }

  /** The two common spellings of an identifier have the same morphemes exactly when camelCase
      recovers the words. */
  lemma SnakeAndCamelAgreeIff(words: seq<string>, gaps: seq<nat>)
    requires OverAlphabet(words)
    requires |gaps| == |words| + 1 && forall k :: 0 < k < |words| ==> gaps[k] > 0
    ensures Morphemes(Snake(words, gaps)) == Morphemes(Camel(words)) <==> Elements(Merged(words)) == Elements(words)
    ensures NoShortInside(words) ==> Morphemes(Snake(words, gaps)) == Morphemes(Camel(words))
  {
    OverAlphabetIsLower(words);
    assert forall k :: 0 <= k < |words| ==> LowerLetters(words[k]) && Plain(words[k]);
    SnakeRoundTrip(words, gaps);
    CamelRoundTrip(words);
    MergedLength(words);
  }

  lemma MergedOfTwo(first: string, second: string)
    ensures Merged([first, second]) == [first, second]
  {
    assert [first, second][..1] == [first];
  }

  lemma MergedAppend(words: seq<string>, last: string)
    requires |words| > 1
    ensures var merged := Merged(words);
            Merged(words + [last]) ==
            if |words[|words| - 1]| == 1 then merged[..|merged| - 1] + [merged[|merged| - 1] + last] else merged + [last]
  {
    assert (words + [last])[..|words|] == words;
  }

  lemma SamplesAreOverAlphabet()
    ensures OverAlphabet(["foo", "x", "bar"]) && OverAlphabet(["x", "bar", "x", "bar", "xbar"])
  {
    assert AllLowerLetters(["foo", "x", "bar"]);
    assert AllLowerLetters(["x", "bar", "x", "bar", "xbar"]);
    OverAlphabetIsLower(["foo", "x", "bar"]);
    OverAlphabetIsLower(["x", "bar", "x", "bar", "xbar"]);
    hide OverAlphabet;
  }

  lemma CamelOfThree(one: string, two: string, three: string)
    requires one != "" && two != "" && three != ""
    ensures Camel([one, two, three]) == one + Capitalize(two) + Capitalize(three)
  {
    assert [one, two][..1] == [one];
    assert Camel([one, two]) == one + Capitalize(two);
    assert [one, two, three][..2] == [one, two];
  }

  /** A single-letter word inside is fused with the word after it. */
  lemma SingleLetterHumpIsFused()
    ensures Camel(["foo", "x", "bar"]) == "fooXBar"
    ensures Morphemes("fooXBar") == {"foo", "xbar"}
  {
    var words := ["foo", "x", "bar"];
    SamplesAreOverAlphabet();
    CamelOfThree("foo", "x", "bar");
    assert Capitalize("x") == "X" && Capitalize("bar") == "Bar";
    assert "foo" + "X" + "Bar" == "fooXBar";
    assert "x" + "bar" == "xbar" && words == ["foo", "x"] + ["bar"];
    hide Camel, Capitalize, Merged, Morphemes, Words, OverAlphabet;
    MergedOfTwo("foo", "x");
    MergedAppend(["foo", "x"], "bar");
    CamelWords(words);
    WordsAreMorphemes("fooXBar");
  }

  lemma MergedRepetition(short: string, long: string)
    requires |short| == 1 && |long| > 1
    ensures Merged([short, long, short, long, short + long]) == [short, long, short + long, short + long]
  {
    var two, three := [short, long], [short, long, short];
    var four := three + [long];
    assert three == two + [short] && four + [short + long] == [short, long, short, long, short + long];
    MergedOfTwo(short, long);
    MergedAppend(two, short);
    MergedAppend(three, long);
    MergedAppend(four, short + long);
  }

  /** Repeated words can hide the loss: all words are recovered although an inner one is fused. */
  lemma FusedWordCanRecur()
    ensures var words := ["x", "bar", "x", "bar", "xbar"];
            !NoShortInside(words) && Morphemes(Camel(words)) == Elements(words)
  {
    var words := ["x", "bar", "x", "bar", "xbar"];
    SamplesAreOverAlphabet();
    assert |words[2]| == 1;
    assert "x" + "bar" == "xbar";
    hide Merged, Camel, Morphemes, Words, OverAlphabet;
    MergedRepetition("x", "bar");
    CamelRoundTrip(words);
  }
}
