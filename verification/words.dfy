/**
 The word counter `get_word_count`: the number of matches of `\b\w+\b`,
 which are exactly the maximal runs of word characters.
 */
module Words {
  import opened Text

  /** The ASCII part of the regular expression class `\w`. */
  predicate IsWordChar(c: char) {
    var n := c as int;
    || (0x30 <= n <= 0x39)  // 0-9
    || (0x41 <= n <= 0x5A)  // A-Z
    || (0x61 <= n <= 0x7A)  // a-z
    || n == 0x5F            // _
  }

  /** The longest prefix of `s` made of word characters. */
  function TakeWord(s: string): (r: string)
    ensures |r| <= |s| && r == s[..|r|]
    ensures forall i :: 0 <= i < |r| ==> IsWordChar(r[i])
    ensures |r| == |s| || !IsWordChar(s[|r|])
  {
    if s != [] && IsWordChar(s[0]) then [s[0]] + TakeWord(s[1..]) else []
  }

  /** `s` without its longest prefix of non-word characters. */
  function SkipNonWord(s: string): (r: string)
    ensures |r| <= |s| && r == s[|s| - |r|..]
    ensures r == [] || IsWordChar(r[0])
    ensures forall i :: 0 <= i < |s| - |r| ==> !IsWordChar(s[i])
  {
    if s == [] || IsWordChar(s[0]) then s
    else
      var r := SkipNonWord(s[1..]);
      assert forall i :: 1 <= i < |s| - |r| ==> s[i] == s[1..][i - 1];
      r
  }

  /** A non-empty run of word characters. */
  predicate IsWord(w: string) {
    w != [] && forall i :: 0 <= i < |w| ==> IsWordChar(w[i])
  }

  /** `re.findall(r"\b\w+\b", s)`: the match at a run start is greedy, so it
      takes the whole run, and the scan resumes after it. */
  function FindWords(s: string): (ws: seq<string>)
    ensures |ws| <= |s|
    decreases |s|
  {
    var t := SkipNonWord(s);
    if t == [] then []
    else
      var w := TakeWord(t);
      [w] + FindWords(t[|w|..])
  }

  /** Every match is a non-empty run of word characters. */
  lemma {:induction false} FindWordsAreWords(s: string)
    ensures forall k :: 0 <= k < |FindWords(s)| ==> IsWord(FindWords(s)[k])
    decreases |s|
  {
    var t := SkipNonWord(s);
    if t != [] {
      var w := TakeWord(t);
      assert IsWord(w);
      var rest := FindWords(t[|w|..]);
      FindWordsAreWords(t[|w|..]);
      assert FindWords(s) == [w] + rest;
      forall k | 0 <= k < |FindWords(s)|
        ensures IsWord(FindWords(s)[k])
      {
        if k > 0 {
          assert FindWords(s)[k] == rest[k - 1];
        }
      }
    }
  }

  /** `get_word_count(text)`. */
  function WordCount(s: string): (n: nat)
    ensures n <= |s|
  {
    |FindWords(s)|
  }

  /** A text has no words exactly when it has no word character. */
  lemma WordCountZeroIff(s: string)
    ensures WordCount(s) == 0 <==> (forall i :: 0 <= i < |s| ==> !IsWordChar(s[i]))
  {
    var t := SkipNonWord(s);
    if t != [] {
      assert IsWordChar(s[|s| - |t|]);
    }
  }

  /** Reference definition: scanning left to right, count every word character
      whose predecessor is not a word character (the start of a maximal run).
      `afterWord` says whether the character before `s` was a word character. */
  function RunStarts(s: string, afterWord: bool): nat
  {
    if s == [] then 0
    else (if IsWordChar(s[0]) && !afterWord then 1 else 0) + RunStarts(s[1..], IsWordChar(s[0]))
  }

  function RunCount(s: string): nat
  {
    RunStarts(s, false)
  }

  /** Whether the last character scanned is a word character. */
  function EndsInWord(s: string, afterWord: bool): bool
  {
    if s == [] then afterWord else IsWordChar(s[|s| - 1])
  }

  lemma {:induction false} RunStartsSplit(a: string, b: string, afterWord: bool)
    ensures RunStarts(a + b, afterWord) == RunStarts(a, afterWord) + RunStarts(b, EndsInWord(a, afterWord))
  {
    if a == [] {
      assert a + b == b;
    } else {
      assert (a + b)[1..] == a[1..] + b;
      RunStartsSplit(a[1..], b, IsWordChar(a[0]));
    }
  }

  lemma {:induction false} RunStartsNoWord(s: string, afterWord: bool)
    requires forall i :: 0 <= i < |s| ==> !IsWordChar(s[i])
    ensures RunStarts(s, afterWord) == 0
  {
    if s != [] {
      RunStartsNoWord(s[1..], false);
    }
  }

  lemma {:induction false} RunStartsInWord(w: string, afterWord: bool)
    requires w != []
    requires forall i :: 0 <= i < |w| ==> IsWordChar(w[i])
    ensures RunStarts(w, afterWord) == if afterWord then 0 else 1
  {
    if |w| > 1 {
      RunStartsInWord(w[1..], true);
    }
  }

  /** Before a non-word character (or at the end) the flag does not matter. */
  lemma RunStartsFlagIrrelevant(s: string)
    requires s == [] || !IsWordChar(s[0])
    ensures RunStarts(s, true) == RunStarts(s, false)
  {
  }

  lemma RunCountSkipsNonWord(s: string)
    ensures RunCount(s) == RunCount(SkipNonWord(s))
  {
    var t := SkipNonWord(s);
    var p := s[..|s| - |t|];
    assert s == p + t;
    RunStartsSplit(p, t, false);
    RunStartsNoWord(p, false);
  }

  lemma RunCountOfLeadingWord(t: string)
    requires t != [] && IsWordChar(t[0])
    ensures RunCount(t) == 1 + RunCount(t[|TakeWord(t)|..])
  {
    var w := TakeWord(t);
    var rest := t[|w|..];
    assert t == w + rest;
    RunStartsSplit(w, rest, false);
    RunStartsInWord(w, false);
    RunStartsFlagIrrelevant(rest);
  }

  /** The findall matches are exactly the maximal runs of word characters. */
  lemma {:induction false} WordCountIsRunCount(s: string)
    ensures WordCount(s) == RunCount(s)
    decreases |s|
  {
    RunCountSkipsNonWord(s);
    var t := SkipNonWord(s);
    if t != [] {
      RunCountOfLeadingWord(t);
      WordCountIsRunCount(t[|TakeWord(t)|..]);
    }
  }

  /** Joining two texts with one non-word separator adds their word counts. */
  lemma WordCountJoin(a: string, sep: char, b: string)
    requires !IsWordChar(sep)
    ensures WordCount(a + [sep] + b) == WordCount(a) + WordCount(b)
  {
    var tail := [sep] + b;
    assert a + [sep] + b == a + tail;
    WordCountIsRunCount(a + tail);
    WordCountIsRunCount(a);
    WordCountIsRunCount(b);
    RunStartsSplit(a, tail, false);
    assert tail[1..] == b;
    assert RunStarts(tail, EndsInWord(a, false)) == RunStarts(b, false);
  }

  /** Whitespace is never a word character, so collapsing and trimming it
      leaves the word count unchanged. */
  lemma {:induction false} CollapseKeepsRunStarts(s: string, afterWord: bool)
    ensures RunStarts(CollapseSpaces(s), afterWord) == RunStarts(s, afterWord)
    decreases |s|
  {
    if s == [] {
    } else if IsSpace(s[0]) {
      var t := TrimStart(s);
      var p := s[..|s| - |t|];
      assert s == p + t;
      RunStartsSplit(p, t, afterWord);
      RunStartsNoWord(p, afterWord);
      CollapseKeepsRunStarts(t, false);
      RunStartsSplit(" ", CollapseSpaces(t), afterWord);
    } else {
      CollapseKeepsRunStarts(s[1..], IsWordChar(s[0]));
      RunStartsSplit([s[0]], CollapseSpaces(s[1..]), afterWord);
    }
  }

  lemma TrimStartKeepsRunCount(s: string)
    ensures RunCount(TrimStart(s)) == RunCount(s)
  {
    var t := TrimStart(s);
    var p := s[..|s| - |t|];
    assert s == p + t;
    RunStartsSplit(p, t, false);
    RunStartsNoWord(p, false);
  }

  lemma TrimEndKeepsRunCount(s: string)
    ensures RunCount(TrimEnd(s)) == RunCount(s)
  {
    var u := TrimEnd(s);
    var q := s[|u|..];
    assert s == u + q;
    RunStartsSplit(u, q, false);
    RunStartsNoWord(q, EndsInWord(u, false));
  }

  lemma NormalizeKeepsWordCount(s: string)
    ensures WordCount(NormalizeWhitespace(s)) == WordCount(s)
  {
    CollapseKeepsRunStarts(s, false);
    TrimStartKeepsRunCount(CollapseSpaces(s));
    TrimEndKeepsRunCount(TrimStart(CollapseSpaces(s)));
    WordCountIsRunCount(s);
    WordCountIsRunCount(NormalizeWhitespace(s));
  }
}
