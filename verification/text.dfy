/**
 Character classes and the whitespace post-processing applied to every page's
 extracted text: `re.sub(r"\s+", " ", text)` followed by `text.strip()`.
 */
module Text {
  import opened Seqs

  /** Python's whitespace set for `str`: it is what both the regular expression
      class `\s` and `str.strip()` treat as whitespace. */
  predicate IsSpace(c: char) {
    var n := c as int;
    || (0x09 <= n <= 0x0D)
    || (0x1C <= n <= 0x20)
    || n == 0x85
    || n == 0xA0
    || n == 0x1680
    || (0x2000 <= n <= 0x200A)
    || n == 0x2028
    || n == 0x2029
    || n == 0x202F
    || n == 0x205F
    || n == 0x3000
  }

  /** The characters of `s` that are not whitespace, in order. */
  function Visible(s: string): string
  {
    if s == [] then []
    else if IsSpace(s[0]) then Visible(s[1..])
    else [s[0]] + Visible(s[1..])
  }

  lemma {:induction false} VisibleConcat(a: string, b: string)
    ensures Visible(a + b) == Visible(a) + Visible(b)
  {
    if a == [] {
      assert a + b == b;
    } else {
      assert (a + b)[1..] == a[1..] + b;
      VisibleConcat(a[1..], b);
    }
  }

  lemma {:induction false} VisibleAllSpace(s: string)
    requires forall i :: 0 <= i < |s| ==> IsSpace(s[i])
    ensures Visible(s) == []
  {
    if s != [] {
      VisibleAllSpace(s[1..]);
    }
  }

  /** Whitespace only in the form of single `' '` characters. */
  predicate SingleSpaced(s: string) {
    && (forall i :: 0 <= i < |s| && IsSpace(s[i]) ==> s[i] == ' ')
    && (forall i :: 0 <= i < |s| - 1 ==> !(IsSpace(s[i]) && IsSpace(s[i + 1])))
  }

  /** The shape of a post-processed page text: single-spaced and trimmed. */
  predicate IsNormalized(s: string) {
    && SingleSpaced(s)
    && (s == [] || (!IsSpace(s[0]) && !IsSpace(s[|s| - 1])))
  }

  /** `s.lstrip()`: drops the longest all-whitespace prefix. */
  function TrimStart(s: string): (r: string)
    ensures |r| <= |s| && r == s[|s| - |r|..]
    ensures r == [] || !IsSpace(r[0])
    ensures forall i :: 0 <= i < |s| - |r| ==> IsSpace(s[i])
  {
    if s != [] && IsSpace(s[0]) then TrimStart(s[1..]) else s
  }

  /** `s.rstrip()`: drops the longest all-whitespace suffix. */
  function TrimEnd(s: string): (r: string)
    ensures |r| <= |s| && r == s[..|r|]
    ensures r == [] || !IsSpace(r[|r| - 1])
    ensures forall i :: |r| <= i < |s| ==> IsSpace(s[i])
  {
    if s != [] && IsSpace(s[|s| - 1]) then TrimEnd(s[..|s| - 1]) else s
  }

  /** `re.sub(r"\s+", " ", s)`: every maximal whitespace run becomes one space. */
  function CollapseSpaces(s: string): (r: string)
    ensures |r| <= |s|
    ensures r == [] <==> s == []
    ensures r != [] ==> (IsSpace(r[0]) <==> IsSpace(s[0]))
    ensures SingleSpaced(r)
    decreases |s|
  {
    if s == [] then []
    else if IsSpace(s[0]) then " " + CollapseSpaces(TrimStart(s))
    else [s[0]] + CollapseSpaces(s[1..])
  }

  lemma {:induction false} CollapseKeepsVisible(s: string)
    ensures Visible(CollapseSpaces(s)) == Visible(s)
    decreases |s|
  {
    if s == [] {
    } else if IsSpace(s[0]) {
      var t := TrimStart(s);
      CollapseKeepsVisible(t);
      VisibleConcat(" ", CollapseSpaces(t));
      TrimStartKeepsVisible(s);
    } else {
      CollapseKeepsVisible(s[1..]);
      VisibleConcat([s[0]], CollapseSpaces(s[1..]));
    }
  }

  lemma TrimStartKeepsVisible(s: string)
    ensures Visible(TrimStart(s)) == Visible(s)
  {
    var t := TrimStart(s);
    var p := s[..|s| - |t|];
    assert s == p + t;
    VisibleConcat(p, t);
    VisibleAllSpace(p);
  }

  lemma TrimEndKeepsVisible(s: string)
    ensures Visible(TrimEnd(s)) == Visible(s)
  {
    var u := TrimEnd(s);
    var q := s[|u|..];
    assert s == u + q;
    VisibleConcat(u, q);
    VisibleAllSpace(q);
  }

  /** Trimming a single-spaced text removes at most one space at each end,
      so the result is still single-spaced. */
  lemma TrimKeepsSingleSpaced(s: string)
    requires SingleSpaced(s)
    ensures SingleSpaced(TrimEnd(TrimStart(s)))
  {
    var t := TrimStart(s);
    SliceSingleSpaced(s, |s| - |t|, |s|);
    var u := TrimEnd(t);
    SliceSingleSpaced(t, 0, |u|);
  }

  lemma SliceSingleSpaced(s: string, lo: nat, hi: nat)
    requires SingleSpaced(s) && lo <= hi <= |s|
    ensures SingleSpaced(s[lo..hi])
  {
    var u := s[lo..hi];
    forall i | 0 <= i < |u| - 1
      ensures !(IsSpace(u[i]) && IsSpace(u[i + 1]))
    {
      assert u[i] == s[lo + i] && u[i + 1] == s[lo + i + 1];
    }
  }

  /** `re.sub(r"\s+", " ", text).strip()`: collapse, then strip. */
  function NormalizeWhitespace(s: string): (r: string)
    ensures IsNormalized(r)
    ensures Visible(r) == Visible(s)
    ensures r == [] <==> (forall i :: 0 <= i < |s| ==> IsSpace(s[i]))
  {
    var c := CollapseSpaces(s);
    var r := TrimEnd(TrimStart(c));
    NormalizeFacts(s, c, r);
    r
  }

  lemma NormalizeFacts(s: string, c: string, r: string)
    requires c == CollapseSpaces(s) && r == TrimEnd(TrimStart(c))
    ensures IsNormalized(r)
    ensures Visible(r) == Visible(s)
    ensures r == [] <==> (forall i :: 0 <= i < |s| ==> IsSpace(s[i]))
  {
    TrimKeepsSingleSpaced(c);
    CollapseKeepsVisible(s);
    TrimStartKeepsVisible(c);
    TrimEndKeepsVisible(TrimStart(c));
    assert Visible(r) == Visible(s);
    AllSpaceIffInvisible(s);
    AllSpaceIffInvisible(r);
    if r != [] {
      assert !IsSpace(r[0]);
    }
  }

  lemma {:induction false} AllSpaceIffInvisible(s: string)
    ensures Visible(s) == [] <==> (forall i :: 0 <= i < |s| ==> IsSpace(s[i]))
  {
    if s != [] {
      AllSpaceIffInvisible(s[1..]);
      if IsSpace(s[0]) {
        assert forall i :: 1 <= i < |s| ==> s[i] == s[1..][i - 1];
      }
    }
  }

  lemma {:induction false} CollapseSingleSpaced(s: string)
    requires SingleSpaced(s)
    ensures CollapseSpaces(s) == s
    decreases |s|
  {
    if s == [] {
    } else if IsSpace(s[0]) {
      assert s[0] == ' ';
      assert TrimStart(s) == s[1..] by {
        assert |s| == 1 || !IsSpace(s[1]);
        assert TrimStart(s) == TrimStart(s[1..]);
      }
      CollapseSingleSpaced(s[1..]);
      assert s == " " + s[1..];
    } else {
      CollapseSingleSpaced(s[1..]);
      assert s == [s[0]] + s[1..];
    }
  }

  /** The normalized texts are exactly the fixpoints of NormalizeWhitespace,
      hence post-processing whitespace twice changes nothing. */
  lemma NormalizedIffFixpoint(s: string)
    ensures NormalizeWhitespace(s) == s <==> IsNormalized(s)
  {
    if IsNormalized(s) {
      CollapseSingleSpaced(s);
    }
  }

  lemma NormalizeIdempotent(s: string)
    ensures NormalizeWhitespace(NormalizeWhitespace(s)) == NormalizeWhitespace(s)
  {
    NormalizedIffFixpoint(NormalizeWhitespace(s));
  }

  /** The longest prefix of `s` without whitespace. */
  function TakeToken(s: string): (w: string)
    ensures |w| <= |s| && w == s[..|w|]
    ensures forall i :: 0 <= i < |w| ==> !IsSpace(w[i])
    ensures |w| == |s| || IsSpace(s[|w|])
  {
    if s == [] || IsSpace(s[0]) then [] else [s[0]] + TakeToken(s[1..])
  }

  /** A non-empty run of non-whitespace characters. */
  predicate IsToken(w: string) {
    w != [] && forall i :: 0 <= i < |w| ==> !IsSpace(w[i])
  }

  /** `s.split()`: the maximal runs of non-whitespace characters, in order. */
  function Tokens(s: string): seq<string>
    decreases |s|
  {
    var t := TrimStart(s);
    if t == [] then []
    else
      var w := TakeToken(t);
      assert w != [];
      [w] + Tokens(t[|w|..])
  }

  /** Every piece `Tokens` yields is a non-empty run without whitespace. */
  lemma {:induction false} TokensAreTokens(s: string)
    ensures forall i :: 0 <= i < |Tokens(s)| ==> IsToken(Tokens(s)[i])
    decreases |s|
  {
    var t := TrimStart(s);
    TokensTrimStart(s);
    if t != [] {
      var w := TakeToken(t);
      var rest := t[|w|..];
      FirstToken(t);
      TokensAreTokens(rest);
      ConsTokens(w, Tokens(rest));
    }
  }

  lemma FirstToken(t: string)
    requires t != [] && !IsSpace(t[0])
    ensures IsToken(TakeToken(t))
    ensures |t[|TakeToken(t)|..]| < |t|
    ensures Tokens(t) == [TakeToken(t)] + Tokens(t[|TakeToken(t)|..])
  {
    TokensCons(t);
  }

  lemma ConsTokens(w: string, ws: seq<string>)
    requires IsToken(w)
    requires forall i :: 0 <= i < |ws| ==> IsToken(ws[i])
    ensures forall i :: 0 <= i < |[w] + ws| ==> IsToken(([w] + ws)[i])
  {
    forall i | 0 <= i < |[w] + ws|
      ensures IsToken(([w] + ws)[i])
    {
      if i > 0 {
        assert ([w] + ws)[i] == ws[i - 1];
      }
    }
  }

  /** Splitting a space-joined list of tokens gives the list back. */
  lemma {:induction false} TokensOfJoin(ws: seq<string>)
    requires forall i :: 0 <= i < |ws| ==> IsToken(ws[i])
    ensures Tokens(Join(' ', ws)) == ws
  {
    if ws != [] {
      HeadTail(ws);
      if |ws| == 1 {
        SingleTokenCase(ws[0]);
      } else {
        TailTokens(ws);
        TokensOfJoin(ws[1..]);
        JoinedTokenCase(ws[0], ws[1..]);
      }
    }
  }

  lemma TailTokens(ws: seq<string>)
    requires ws != []
    requires forall i :: 0 <= i < |ws| ==> IsToken(ws[i])
    ensures forall i :: 0 <= i < |ws[1..]| ==> IsToken(ws[1..][i])
  {
    forall i | 0 <= i < |ws[1..]|
      ensures IsToken(ws[1..][i])
    {
      assert ws[1..][i] == ws[i + 1];
    }
  }

  lemma SingleTokenCase(w: string)
    requires IsToken(w)
    ensures Tokens(Join(' ', [w])) == [w]
  {
    TakeTokenPrefix(w, []);
    ConcatEmpty(w, []);
    TokensCons(w);
    assert w[|w|..] == [];
  }

  lemma JoinedTokenCase(w: string, rest: seq<string>)
    requires IsToken(w) && rest != [] && IsToken(rest[0])
    ensures Tokens(Join(' ', [w] + rest)) == [w] + Tokens(Join(' ', rest))
  {
    var j := Join(' ', rest);
    JoinHead(' ', rest);
    var x := " " + j;
    assert ([w] + rest)[0] == w && ([w] + rest)[1..] == rest;
    ConcatAssoc(w, " ", j);
    assert Join(' ', [w] + rest) == w + x;
    TakeTokenPrefix(w, x);
    TokensCons(w + x);
    SliceAfterPrefix(w, x);
    ConcatTail(" ", j);
    TrimStartIdle(j);
    TokensTrimStart(x);
  }

  lemma {:induction false} TakeTokenPrefix(w: string, x: string)
    requires forall i :: 0 <= i < |w| ==> !IsSpace(w[i])
    requires x == [] || IsSpace(x[0])
    ensures TakeToken(w + x) == w
    decreases |w|
  {
    if w == [] {
      assert w + x == x;
    } else {
      ConcatTail(w, x);
      TakeTokenPrefix(w[1..], x);
      assert [w[0]] + w[1..] == w;
    }
  }

  lemma JoinHead(sep: char, parts: seq<string>)
    requires parts != [] && parts[0] != []
    ensures Join(sep, parts) != [] && Join(sep, parts)[0] == parts[0][0]
  {
  }

  /** The whitespace post-processing is `" ".join(s.split())`: the tokens of
      the text with exactly one space between neighbours and none at the ends. */
  lemma NormalizeIsJoinedTokens(s: string)
    ensures NormalizeWhitespace(s) == Join(' ', Tokens(s))
  {
    var t := TrimStart(s);
    TrimStartCollapse(s);
    TrimEndCollapseTokens(t);
    TokensTrimStart(s);
  }

  lemma TrimStartIdle(s: string)
    requires s == [] || !IsSpace(s[0])
    ensures TrimStart(s) == s
  {
  }

  lemma TrimStartCollapse(s: string)
    ensures TrimStart(CollapseSpaces(s)) == CollapseSpaces(TrimStart(s))
  {
    if s != [] && IsSpace(s[0]) {
      var c := CollapseSpaces(TrimStart(s));
      assert CollapseSpaces(s) == " " + c;
      assert (" " + c)[1..] == c;
      TrimStartIdle(c);
    }
  }

  lemma TokensTrimStart(s: string)
    ensures Tokens(TrimStart(s)) == Tokens(s)
  {
    TrimStartIdle(TrimStart(s));
  }

  lemma {:induction false} TrimEndCollapseTokens(t: string)
    requires t == [] || !IsSpace(t[0])
    ensures TrimEnd(CollapseSpaces(t)) == Join(' ', Tokens(t))
    decreases |t|
  {
    if t != [] {
      var w := TakeToken(t);
      var rest := t[|w|..];
      TokenThenRest(t);
      if rest == [] {
        LastTokenCase(w, rest);
      } else {
        var u := TrimStart(rest);
        SpaceThenRest(rest);
        if u == [] {
          TrailingSpaceCase(w, u);
        } else {
          TrimEndCollapseTokens(u);
          MoreTokensCase(w, u);
        }
      }
    }
  }

  lemma MoreTokensCase(w: string, u: string)
    requires u != [] && !IsSpace(u[0])
    requires TrimEnd(CollapseSpaces(u)) == Join(' ', Tokens(u))
    ensures TrimEnd(w + (" " + CollapseSpaces(u))) == Join(' ', [w] + Tokens(u))
  {
    TokensCons(u);
    JoinStep(w, CollapseSpaces(u), Tokens(u));
  }

  lemma LastTokenCase(w: string, rest: string)
    requires w != [] && !IsSpace(w[|w| - 1]) && rest == []
    ensures TrimEnd(w + CollapseSpaces(rest)) == Join(' ', [w] + Tokens(rest))
  {
    ConcatEmpty(w, CollapseSpaces(rest));
    TrimEndIdle(w);
    ConcatEmpty([w], Tokens(rest));
  }

  lemma TrailingSpaceCase(w: string, u: string)
    requires w != [] && !IsSpace(w[|w| - 1]) && u == []
    ensures TrimEnd(w + (" " + CollapseSpaces(u))) == Join(' ', [w] + Tokens(u))
  {
    ConcatEmpty(" ", CollapseSpaces(u));
    TrimEndSpaceAfter(w);
    ConcatEmpty([w], Tokens(u));
  }

  /** A text that starts with a token collapses and splits as that token
      followed by the rest. */
  lemma TokenThenRest(t: string)
    requires t != [] && !IsSpace(t[0])
    ensures var w := TakeToken(t);
      var rest := t[|w|..];
      && w != [] && !IsSpace(w[|w| - 1])
      && (rest == [] || IsSpace(rest[0]))
      && CollapseSpaces(t) == w + CollapseSpaces(rest)
      && Tokens(t) == [w] + Tokens(rest)
  {
    var w := TakeToken(t);
    TokensCons(t);
    SliceRecombine(t, |w|);
    CollapsePlain(w, t[|w|..]);
  }

  /** A text that starts with whitespace collapses to one space followed by
      the rest, and has the rest's tokens. */
  lemma SpaceThenRest(rest: string)
    requires rest != [] && IsSpace(rest[0])
    ensures var u := TrimStart(rest);
      && |u| < |rest|
      && (u == [] || !IsSpace(u[0]))
      && CollapseSpaces(rest) == " " + CollapseSpaces(u)
      && Tokens(rest) == Tokens(u)
  {
    TokensTrimStart(rest);
  }

  lemma TokensCons(t: string)
    requires t != [] && !IsSpace(t[0])
    ensures TakeToken(t) != []
    ensures Tokens(t) == [TakeToken(t)] + Tokens(t[|TakeToken(t)|..])
  {
    TrimStartIdle(t);
  }

  lemma TrimEndIdle(w: string)
    requires w == [] || !IsSpace(w[|w| - 1])
    ensures TrimEnd(w) == w
  {
  }

  lemma TrimEndSpaceAfter(w: string)
    requires w != [] && !IsSpace(w[|w| - 1])
    ensures TrimEnd(w + " ") == w
  {
    ConcatInit(w, " ");
    assert " "[..0] == [] && w + [] == w;
    TrimEndIdle(w);
  }

  lemma JoinStep(w: string, c: string, ts: seq<string>)
    requires ts != [] && ts[0] != []
    requires TrimEnd(c) == Join(' ', ts)
    ensures TrimEnd(w + (" " + c)) == Join(' ', [w] + ts)
  {
    TrimEndAppend(w + " ", c);
    ConcatAssoc(w, " ", c);
    assert ([w] + ts)[0] == w && ([w] + ts)[1..] == ts;
  }

  /** A whitespace-free prefix passes through the collapse unchanged. */
  lemma {:induction false} CollapsePlain(w: string, r: string)
    requires forall i :: 0 <= i < |w| ==> !IsSpace(w[i])
    ensures CollapseSpaces(w + r) == w + CollapseSpaces(r)
    decreases |w|
  {
    if w == [] {
      assert w + r == r;
    } else {
      ConcatAssoc([w[0]], w[1..], CollapseSpaces(r));
      assert [w[0]] + w[1..] == w;
      var v := w + r;
      ConcatTail(w, r);
      assert CollapseSpaces(v) == [w[0]] + CollapseSpaces(w[1..] + r);
      CollapsePlain(w[1..], r);
      assert [w[0]] + (w[1..] + CollapseSpaces(r)) == w + CollapseSpaces(r);
    }
  }

  lemma {:induction false} TrimEndAppend(a: string, b: string)
    requires TrimEnd(b) != []
    ensures TrimEnd(a + b) == a + TrimEnd(b)
    decreases |b|
  {
    if IsSpace(b[|b| - 1]) {
      ConcatInit(a, b);
      TrimEndAppend(a, b[..|b| - 1]);
    }
  }

  /** `re.sub(r"\s+", " ", s)` replaces every maximal whitespace run, wherever
      it sits, by exactly one `' '`, and the text on either side is collapsed
      independently. */
  lemma {:induction false} CollapseRun(a: string, w: string, b: string)
    requires a == [] || !IsSpace(a[|a| - 1])
    requires w != [] && forall i :: 0 <= i < |w| ==> IsSpace(w[i])
    requires b == [] || !IsSpace(b[0])
    ensures CollapseSpaces(a + w + b) == CollapseSpaces(a) + " " + CollapseSpaces(b)
    decreases |a|
  {
    if a == [] {
      RunThenText(w, b);
      ConcatAssoc(a, w, b);
      EmptyPrefix(a, w + b);
      assert CollapseSpaces(a) == [];
      EmptyPrefix(CollapseSpaces(a), " ");
    } else if !IsSpace(a[0]) {
      CollapseRun(a[1..], w, b);
      VisibleFirstCase(a, w, b);
    } else {
      var a' := TrimStart(a);
      assert a' != [] by {
        assert !IsSpace(a[|a| - 1]);
      }
      assert !IsSpace(a'[|a'| - 1]) by {
        assert a'[|a'| - 1] == a[|a| - 1];
      }
      CollapseRun(a', w, b);
      SpaceFirstCase(a, w, b);
    }
  }

  lemma RunThenText(w: string, b: string)
    requires w != [] && forall i :: 0 <= i < |w| ==> IsSpace(w[i])
    requires b == [] || !IsSpace(b[0])
    ensures CollapseSpaces(w + b) == " " + CollapseSpaces(b)
  {
    ConcatTail(w, b);
    TrimStartOfRun(w, b);
  }

  lemma VisibleFirstCase(a: string, w: string, b: string)
    requires a != [] && !IsSpace(a[0])
    requires CollapseSpaces(a[1..] + w + b) == CollapseSpaces(a[1..]) + " " + CollapseSpaces(b)
    ensures CollapseSpaces(a + w + b) == CollapseSpaces(a) + " " + CollapseSpaces(b)
  {
    ConcatAssoc(a, w, b);
    calc {
      CollapseSpaces(a + (w + b));
      { ConcatTail(a, w + b); }
      [a[0]] + CollapseSpaces(a[1..] + (w + b));
      { ConcatAssoc(a[1..], w, b); }
      [a[0]] + (CollapseSpaces(a[1..]) + " " + CollapseSpaces(b));
      { ConcatAssoc([a[0]], CollapseSpaces(a[1..]) + " ", CollapseSpaces(b)); }
      ([a[0]] + (CollapseSpaces(a[1..]) + " ")) + CollapseSpaces(b);
      { ConcatAssoc([a[0]], CollapseSpaces(a[1..]), " "); }
      ([a[0]] + CollapseSpaces(a[1..])) + " " + CollapseSpaces(b);
      { assert CollapseSpaces(a) == [a[0]] + CollapseSpaces(a[1..]); }
      CollapseSpaces(a) + " " + CollapseSpaces(b);
    }
  }

  lemma SpaceFirstCase(a: string, w: string, b: string)
    requires a != [] && IsSpace(a[0]) && TrimStart(a) != []
    requires CollapseSpaces(TrimStart(a) + w + b)
      == CollapseSpaces(TrimStart(a)) + " " + CollapseSpaces(b)
    ensures CollapseSpaces(a + w + b) == CollapseSpaces(a) + " " + CollapseSpaces(b)
  {
    var a' := TrimStart(a);
    ConcatAssoc(a, w, b);
    calc {
      CollapseSpaces(a + (w + b));
      { ConcatTail(a, w + b); }
      " " + CollapseSpaces(TrimStart(a + (w + b)));
      { TrimStartAppend(a, w + b); ConcatAssoc(a', w, b); }
      " " + CollapseSpaces(a' + w + b);
      " " + (CollapseSpaces(a') + " " + CollapseSpaces(b));
      { ConcatAssoc(" ", CollapseSpaces(a') + " ", CollapseSpaces(b)); }
      (" " + (CollapseSpaces(a') + " ")) + CollapseSpaces(b);
      { ConcatAssoc(" ", CollapseSpaces(a'), " "); }
      (" " + CollapseSpaces(a')) + " " + CollapseSpaces(b);
      { assert CollapseSpaces(a) == " " + CollapseSpaces(a'); }
      CollapseSpaces(a) + " " + CollapseSpaces(b);
    }
  }

  lemma {:induction false} TrimStartOfRun(w: string, b: string)
    requires forall i :: 0 <= i < |w| ==> IsSpace(w[i])
    requires b == [] || !IsSpace(b[0])
    ensures TrimStart(w + b) == b
    decreases |w|
  {
    if w == [] {
      assert w + b == b;
    } else {
      ConcatTail(w, b);
      TrimStartOfRun(w[1..], b);
    }
  }

  lemma {:induction false} TrimStartAppend(a: string, x: string)
    requires TrimStart(a) != []
    ensures TrimStart(a + x) == TrimStart(a) + x
    decreases |a|
  {
    if IsSpace(a[0]) {
      ConcatTail(a, x);
      TrimStartAppend(a[1..], x);
    }
  }

  /** `sep.join(parts)` for a one-character separator. */
  function Join(sep: char, parts: seq<string>): (r: string)
    ensures |r| == SumLengths(parts) + (if parts == [] then 0 else |parts| - 1)
    ensures r == [] <==> (parts == [] || parts == [[]])
  {
    if parts == [] then []
    else if |parts| == 1 then parts[0]
    else parts[0] + [sep] + Join(sep, parts[1..])
  }

  function SumLengths(parts: seq<string>): nat
  {
    if parts == [] then 0 else |parts[0]| + SumLengths(parts[1..])
  }

  /** `s.split(sep)` for a one-character separator: the pieces between
      separators, empty ones included, so never an empty list. */
  function Split(sep: char, s: string): (parts: seq<string>)
    ensures parts != []
    ensures forall i :: 0 <= i < |parts| ==> sep !in parts[i]
  {
    if s == [] then [[]]
    else
      var rest := Split(sep, s[1..]);
      if s[0] == sep then [[]] + rest
      else [[s[0]] + rest[0]] + rest[1..]
  }

  /** Splitting at the separator undoes the join when no part holds it. */
  lemma {:induction false} SplitJoin(sep: char, parts: seq<string>)
    requires parts != []
    requires forall i :: 0 <= i < |parts| ==> sep !in parts[i]
    ensures Split(sep, Join(sep, parts)) == parts
  {
    if |parts| == 1 {
      SplitPlain(sep, parts[0], []);
      assert parts[0] + [] == parts[0];
    } else {
      var rest := parts[1..];
      SplitJoin(sep, rest);
      var b := [sep] + Join(sep, rest);
      assert Join(sep, parts) == parts[0] + b;
      assert b[0] == sep && b[1..] == Join(sep, rest);
      assert Split(sep, b) == [[]] + rest;
      SplitPlain(sep, parts[0], b);
      assert Split(sep, b)[0] == [] && Split(sep, b)[1..] == rest;
      assert parts[0] + [] == parts[0];
      assert parts == [parts[0]] + rest;
    }
  }

  /** A separator-free prefix extends the first piece of what follows it. */
  lemma {:induction false} SplitPlain(sep: char, a: string, b: string)
    requires sep !in a
    ensures Split(sep, a + b) == [a + Split(sep, b)[0]] + Split(sep, b)[1..]
    decreases |a|
  {
    if a == [] {
      var sb := Split(sep, b);
      assert a + b == b && a + sb[0] == sb[0];
      assert sb == [sb[0]] + sb[1..];
    } else {
      var sb := Split(sep, b);
      assert (a + b)[0] == a[0] && (a + b)[1..] == a[1..] + b;
      SplitPlain(sep, a[1..], b);
      var rest := Split(sep, a[1..] + b);
      assert rest[0] == a[1..] + sb[0] && rest[1..] == sb[1..];
      assert Split(sep, a + b) == [[a[0]] + rest[0]] + rest[1..];
      assert [a[0]] + rest[0] == a + sb[0];
    }
  }

  /** Joining the pieces restores the text, for every text. */
  lemma {:induction false} JoinSplit(sep: char, s: string)
    ensures Join(sep, Split(sep, s)) == s
  {
    if s != [] {
      var rest := Split(sep, s[1..]);
      JoinSplit(sep, s[1..]);
      if s[0] == sep {
        assert ([[]] + rest)[1..] == rest;
        assert s == [sep] + s[1..];
      } else {
        JoinConsChar(sep, s[0], rest);
        assert s == [s[0]] + s[1..];
      }
    }
  }

  lemma JoinConsChar(sep: char, c: char, parts: seq<string>)
    requires parts != []
    ensures Join(sep, [[c] + parts[0]] + parts[1..]) == [c] + Join(sep, parts)
  {
    var q := [[c] + parts[0]] + parts[1..];
    if |parts| > 1 {
      assert q[1..] == parts[1..];
    }
  }

  /** `"\n".join(lines)`, as the OCR engine wrapper builds a page text. */
  function JoinLines(lines: seq<string>): (r: string)
    ensures r == [] <==> (lines == [] || lines == [[]])
  {
    Join('\n', lines)
  }
}
