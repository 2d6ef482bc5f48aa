/** Text helpers: letter case, and acl_mystrtok by contract: the maximal runs of characters that are no delimiters. */
module Tokens {

  function LowerCase(c: char): char {
    if 'A' <= c <= 'Z' then c + 32 as char else c
  }

  function Lower(s: string): (r: string)
    ensures |r| == |s|
  {
    seq(|s|, i requires 0 <= i < |s| => LowerCase(s[i]))
  }

  /** The same character, or the two cases of one letter. */
  predicate SameLetter(a: char, b: char) {
    a == b || ('A' <= a <= 'Z' && b as int == a as int + 32) || ('A' <= b <= 'Z' && a as int == b as int + 32)
  }

  predicate IgnoringCase(a: string, b: string) {
    |a| == |b| && forall i :: 0 <= i < |a| ==> SameLetter(a[i], b[i])
  }

  /** Comparing in lower case is comparing without regard to case. */
  lemma LowerIff(a: string, b: string)
    ensures Lower(a) == Lower(b) <==> IgnoringCase(a, b)
  {
    if |a| == |b| {
      forall i | 0 <= i < |a| ensures Lower(a)[i] == Lower(b)[i] <==> SameLetter(a[i], b[i]) {
      }
    }
  }

  predicate DelimiterFree(s: string, delims: string) {
    forall i :: 0 <= i < |s| ==> s[i] !in delims
  }

  /** Words that a splitter can recognise: none is empty or has a delimiter in it. */
  predicate AreWords(words: seq<string>, delims: string) {
    forall i :: 0 <= i < |words| ==> words[i] != [] && DelimiterFree(words[i], delims)
  }

  /** The length of the longest delimiter-free prefix. */
  function Span(s: string, delims: string): (n: nat)
    ensures n <= |s| && DelimiterFree(s[..n], delims)
    ensures n < |s| ==> s[n] in delims
    ensures s != [] && s[0] !in delims ==> n > 0
  {
    if s == [] || s[0] in delims then 0 else 1 + Span(s[1..], delims)
  }

  function Split(s: string, delims: string): seq<string>
    decreases |s|
  {
    if s == [] then []
    else if s[0] in delims then Split(s[1..], delims)
    else [s[..Span(s, delims)]] + Split(s[Span(s, delims)..], delims)
  }

  /** Words with a separator between neighbours. */
  function Join(words: seq<string>, sep: char): string {
    if words == [] then []
    else if |words| == 1 then words[0]
    else words[0] + [sep] + Join(words[1..], sep)
  }

  lemma {:induction false} SpanOfWord(word: string, rest: string, delims: string)
    requires DelimiterFree(word, delims) && (rest != [] ==> rest[0] in delims)
    ensures Span(word + rest, delims) == |word|
  {
    if word == [] {
      assert word + rest == rest;
    } else {
      assert (word + rest)[1..] == word[1..] + rest;
      SpanOfWord(word[1..], rest, delims);
    }
  }

  /** Splitting undoes joining, for words a splitter can recognise. */
  lemma {:induction false} SplitJoin(words: seq<string>, sep: char, delims: string)
    requires sep in delims && AreWords(words, delims)
    ensures Split(Join(words, sep), delims) == words
  {
    if words != [] {
      var word, rest := words[0], words[1..];
      if |words| == 1 {
        SpanOfWord(word, [], delims);
        assert word + [] == word && word[..|word|] == word && word[|word|..] == [];
      } else {
        var tail := [sep] + Join(rest, sep);
        var s := word + tail;
        assert Join(words, sep) == s;
        SpanOfWord(word, tail, delims);
        assert s[0] == word[0] && s[..|word|] == word && s[|word|..] == tail;
        assert tail[1..] == Join(rest, sep);
        assert Split(tail, delims) == Split(Join(rest, sep), delims);
        SplitJoin(rest, sep, delims);
      }
    }
  }

  lemma SplitFirst(word: string, rest: string, delims: string)
    requires word != [] && DelimiterFree(word, delims) && (rest != [] ==> rest[0] in delims)
    ensures Split(word + rest, delims) == [word] + Split(rest, delims)
  {
    SpanOfWord(word, rest, delims);
    assert (word + rest)[0] == word[0] && (word + rest)[..|word|] == word && (word + rest)[|word|..] == rest;
  }

  lemma SplitSkip(d: char, rest: string, delims: string)
    requires d in delims
    ensures Split([d] + rest, delims) == Split(rest, delims)
  {
    assert ([d] + rest)[1..] == rest;
  }

  lemma SplitWord(word: string, delims: string)
    requires word != [] && DelimiterFree(word, delims)
    ensures Split(word, delims) == [word]
  {
    SplitFirst(word, [], delims);
    assert word + [] == word;
  }

  lemma {:induction false} SplitInTwo(a: string, tail: string, delims: string)
    requires tail != [] ==> tail[0] in delims
    ensures Split(a + tail, delims) == Split(a, delims) + Split(tail, delims)
    decreases |a|
  {
    if a == [] {
      assert a + tail == tail;
    } else {
      var n := if a[0] in delims then 1 else Span(a, delims);
      var first, rest := a[..n], a[n..];
      SplitInTwo(rest, tail, delims);
      assert a == first + rest;
      FirstPart(first, rest, tail, delims);
    }
  }

  lemma FirstPart(first: string, rest: string, tail: string, delims: string)
    requires tail != [] ==> tail[0] in delims
    requires Split(rest + tail, delims) == Split(rest, delims) + Split(tail, delims)
    requires first != [] && (if first[0] in delims then |first| == 1 else DelimiterFree(first, delims) && (rest != [] ==> rest[0] in delims))
    ensures Split(first + rest + tail, delims) == Split(first + rest, delims) + Split(tail, delims)
  {
    hide Split;
    assert first + rest + tail == first + (rest + tail);
    if first[0] in delims {
      assert first == [first[0]];
      SplitSkip(first[0], rest, delims);
      SplitSkip(first[0], rest + tail, delims);
    } else {
      SplitFirst(first, rest, delims);
      SplitFirst(first, rest + tail, delims);
      assert [first] + (Split(rest, delims) + Split(tail, delims)) == [first] + Split(rest, delims) + Split(tail, delims);
    }
  }

  /** A delimiter separates what is before it from what is behind it. */
  lemma SplitAtDelimiter(a: string, d: char, b: string, delims: string)
    requires d in delims
    ensures Split(a + ([d] + b), delims) == Split(a, delims) + Split(b, delims)
  {
    hide Split;
    SplitInTwo(a, [d] + b, delims);
    SplitSkip(d, b, delims);
  }

  /** Every token is a word. */
  lemma {:induction false} SplitGivesWords(s: string, delims: string)
    ensures AreWords(Split(s, delims), delims)
    decreases |s|
  {
    if s != [] {
      if s[0] in delims {
        SplitGivesWords(s[1..], delims);
      } else {
        SplitGivesWords(s[Span(s, delims)..], delims);
      }
    }
  }

  lemma {:induction false} JoinIsFree(words: seq<string>, sep: char, delims: string)
    requires sep !in delims && AreWords(words, delims)
    ensures DelimiterFree(Join(words, sep), delims)
    ensures words != [] ==> Join(words, sep) != []
    ensures |words| > 1 ==> sep in Join(words, sep)
  {
    if |words| > 1 {
      var s := Join(words, sep);
      JoinIsFree(words[1..], sep, delims);
      assert s == words[0] + [sep] + Join(words[1..], sep);
      assert s[|words[0]|] == sep;
    }
  }

  /** With a separator that the splitter does not know, the words come back as one. */
  lemma SplitUnknown(words: seq<string>, sep: char, delims: string)
    requires sep !in delims && AreWords(words, delims)
    ensures Split(Join(words, sep), delims) == if words == [] then [] else [Join(words, sep)]
  {
    if words != [] {
      var s := Join(words, sep);
      JoinIsFree(words, sep, delims);
      SpanOfWord(s, [], delims);
      assert s + [] == s && s[..|s|] == s && s[|s|..] == [];
    }
  }
}
