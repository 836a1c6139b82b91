/**
What the scanner generated from `src/parser/scanner.l` is for: cutting a text into tokens, each the
longest prefix some rule matches, under the earliest such rule.
*/
module MaximalMunch {
  import opened Bytes
  import opened ScannerTables
  import opened ScannerStates
  import opened ScannerRules
  import opened ScannerMeaning

  /** The longest matching prefix of at most `n` bytes; 0 if there is none. */
  function LongestFrom(w: seq<Byte>, n: nat): (l: nat)
    requires n <= |w|
    ensures l <= n && (l > 0 ==> EarliestRule(w[..l]) != 0)
    ensures forall k :: l < k <= n ==> EarliestRule(w[..k]) == 0
    decreases n, w
  {
    if n == 0 then 0 else if EarliestRule(w[..n]) != 0 then n else LongestFrom(w, n - 1)
  }

  function Longest(w: seq<Byte>): (l: nat)
    ensures l <= |w| && (w != [] ==> 0 < l && EarliestRule(w[..l]) != 0)
    ensures forall k :: l < k <= |w| ==> EarliestRule(w[..k]) == 0
  {
    if w != [] then
      RuleOfByte(w[0]);
      assert w[..1] == [w[0]];
      LongestFrom(w, |w|)
    else 0
  }

  lemma LongestIs(w: seq<Byte>, l: nat)
    requires 0 < l <= |w| && EarliestRule(w[..l]) != 0
    requires forall k :: l < k <= |w| ==> EarliestRule(w[..k]) == 0
    ensures Longest(w) == l
  {
    hide EarliestRule, Matches;
  }

  /** Once the automaton jams, or the text ends, the best match so far is the longest there is. */
  lemma LongestIsKnown(w: seq<Byte>, j: nat)
    requires 0 < j <= |w| && (j == |w| || StateAfter(w[..j + 1]) == 165)
    ensures Longest(w) == LongestFrom(w, j) > 0
  {
    hide EarliestRule, Matches, StateAfter;
    RuleOfByte(w[0]);
    assert w[..1] == [w[0]];
    forall k | j < k <= |w| ensures EarliestRule(w[..k]) == 0 {
      JamIsDead(w[..j + 1], w[j + 1..k]);
      assert w[..j + 1] + w[j + 1..k] == w[..k];
    }
    LongestIs(w, LongestFrom(w, j));
  }

  // -------------------------------------------------------------- tokens

  datatype Token = Token(rule: int, lexeme: seq<Byte>)

  function Lex(w: seq<Byte>): (ts: seq<Token>)
    decreases |w|
  {
    if w == [] then []
    else
      var l := Longest(w);
      [Token(EarliestRule(w[..l]), w[..l])] + Lex(w[l..])
  }

  function Concat(ts: seq<Token>): (w: seq<Byte>) {
    if ts == [] then [] else ts[0].lexeme + Concat(ts[1..])
  }

  /** The text is cut without loss. */
  lemma {:induction false} LexLosesNothing(w: seq<Byte>)
    ensures Concat(Lex(w)) == w
    decreases |w|
  {
    if w != [] {
      LexLosesNothing(w[Longest(w)..]);
      assert Lex(w)[1..] == Lex(w[Longest(w)..]);
    }
  }

  /** A token of a text: nonempty, matched by its rule, by no earlier rule, and no longer prefix matches any. */
  ghost predicate IsNextToken(t: Token, w: seq<Byte>) {
    && 0 < |t.lexeme| && t.lexeme <= w
    && 1 <= t.rule <= 19 && Matches(t.rule, t.lexeme)
    && (forall q :: 1 <= q < t.rule ==> !Matches(q, t.lexeme))
    && (forall k, q :: |t.lexeme| < k <= |w| && 1 <= q <= 19 ==> !Matches(q, w[..k]))
  }

  ghost predicate IsMaximalMunch(ts: seq<Token>, w: seq<Byte>)
    decreases |ts|
  {
    if ts == [] then w == []
    else IsNextToken(ts[0], w) && IsMaximalMunch(ts[1..], w[|ts[0].lexeme|..])
  }

  lemma NextTokenIsUnique(t: Token, w: seq<Byte>)
    requires IsNextToken(t, w)
    ensures t == Token(EarliestRule(w[..Longest(w)]), w[..Longest(w)])
  {
    hide Matches;
    var l := |t.lexeme|;
    assert w[..l] == t.lexeme;
    RuleIsEarliest(t.lexeme, t.rule);
    LongestIs(w, l);
  }

  /** `Lex` is a maximal munch of its text, and the only one. */
  lemma {:induction false} LexIsTheMaximalMunch(w: seq<Byte>, ts: seq<Token>)
    ensures ts == Lex(w) <==> IsMaximalMunch(ts, w)
    decreases |w| + |ts|
  {
    hide Matches;
    if w == [] {
    } else if ts == [] {
    } else {
      var l := Longest(w);
      var t := Token(EarliestRule(w[..l]), w[..l]);
      assert IsNextToken(t, w);
      LexIsTheMaximalMunch(w[l..], ts[1..]);
      if IsNextToken(ts[0], w) { NextTokenIsUnique(ts[0], w); }
      assert ts == [ts[0]] + ts[1..];
      assert Lex(w)[0] == t && Lex(w)[1..] == Lex(w[l..]);
    }
  }

  // -------------------------------------------------------------- lines

  /** How often the newline byte occurs. */
  lemma {:induction false} NewlinesAreOccurrences(w: seq<Byte>)
    ensures Newlines(w) == multiset(w)[NEWLINE]
  {
    if w != [] {
      NewlinesAreOccurrences(w[..|w| - 1]);
      assert w == w[..|w| - 1] + [w[|w| - 1]];
    }
  }

  function Newlines(w: seq<Byte>): (n: nat)
  {
    if w == [] then 0 else Newlines(w[..|w| - 1]) + if w[|w| - 1] == NEWLINE then 1 else 0
  }

  /** `yy_rule_can_match_eol`. */
  predicate CanMatchNewline(rule: int) { rule == 16 || rule == 18 }

  lemma {:induction false} NoNewlines(w: seq<Byte>)
    requires NEWLINE !in w
    ensures Newlines(w) == 0
  {
    if w != [] { NoNewlines(w[..|w| - 1]); }
  }

  lemma {:induction false} NewlinesConcat(v: seq<Byte>, w: seq<Byte>)
    ensures Newlines(v + w) == Newlines(v) + Newlines(w)
    decreases |w|
  {
    if w == [] {
      assert v + w == v;
    } else {
      NewlinesConcat(v, w[..|w| - 1]);
      assert (v + w)[..|v + w| - 1] == v + w[..|w| - 1];
    }
  }

  /** A lexeme has a newline only under a rule that counts them. */
  lemma NewlinesAreCounted(w: seq<Byte>)
    requires EarliestRule(w) != 0 && !CanMatchNewline(EarliestRule(w))
    ensures Newlines(w) == 0
  {
    hide EarliestRule, Text, Keyword, StateAfter;
    var r := EarliestRule(w);
    if r <= 10 { KeywordIsLongIdent(r); }
    NoNewlines(w);
  }

  /** These are exactly the rules under which a lexeme can have a newline. */
  lemma CanMatchNewlineIff(rule: int)
    requires 1 <= rule <= 19
    ensures CanMatchNewline(rule) <==> exists w: seq<Byte> :: EarliestRule(w) == rule && NEWLINE in w
  {
    hide EarliestRule, Text, Keyword, StateAfter, Newlines;
    if rule == 16 {
      var body: seq<Byte> := [NEWLINE];
      assert body[1..] == [] && IsBody(body);
      var w: seq<Byte> := [QUOTE, NEWLINE, QUOTE];
      assert w[..2] == [QUOTE, NEWLINE] && w[..2][1..] == body;
      RuleOfLong(w);
      assert EarliestRule(w) == rule && w[1] == NEWLINE;
    } else if rule == 18 {
      RuleOfByte(NEWLINE);
      assert EarliestRule([NEWLINE]) == rule && NEWLINE in [NEWLINE];
    } else {
      forall w: seq<Byte> | EarliestRule(w) == rule ensures NEWLINE !in w {
        if !CanMatchNewline(rule) {
          NewlinesAreCounted(w);
          NewlinesAreOccurrences(w);
        }
      }
    }
  }

  /** The sum the scanner adds to its line number over a list of tokens. */
  function LinesCounted(ts: seq<Token>): (n: nat) {
    if ts == [] then 0
    else (if CanMatchNewline(ts[0].rule) then Newlines(ts[0].lexeme) else 0) + LinesCounted(ts[1..])
  }

  lemma LexStep(w: seq<Byte>)
    requires w != []
    ensures var l := Longest(w); Lex(w) == [Token(EarliestRule(w[..l]), w[..l])] + Lex(w[l..])
  {
    hide EarliestRule, Matches, Longest;
  }

  lemma LinesOfFirst(t: Token, ts: seq<Token>)
    ensures LinesCounted([t] + ts) == (if CanMatchNewline(t.rule) then Newlines(t.lexeme) else 0) + LinesCounted(ts)
  {
    assert ([t] + ts)[1..] == ts;
  }

  /** Counting in the rules that can match a newline counts every newline of the text. */
  lemma {:induction false} EveryLineIsCounted(w: seq<Byte>)
    ensures LinesCounted(Lex(w)) == Newlines(w)
    decreases |w|
  {
    if w == [] {
      NoNewlines([]);
    } else {
      hide EarliestRule, Matches, Longest, Newlines, Lex, LinesCounted;
      var l := Longest(w);
      LexStep(w);
      LinesOfFirst(Token(EarliestRule(w[..l]), w[..l]), Lex(w[l..]));
      EveryLineIsCounted(w[l..]);
      if !CanMatchNewline(EarliestRule(w[..l])) { NewlinesAreCounted(w[..l]); }
      NewlinesConcat(w[..l], w[l..]);
      assert w[..l] + w[l..] == w;
    }
  }

  // -------------------------------------------------------------- where tokens end

  /** `v` ends where the next byte, if any, cannot carry it on. */
  predicate EndsBefore(v: seq<Byte>, y: seq<Byte>)
    requires |v| > 0
  {
    y == [] || (
      && (IsDigit(v[0]) ==> !IsDigit(y[0]))
      && (IsLetter(v[0]) ==> !IsIdentByte(y[0]))
      && (IsBlank(v[0]) ==> !IsBlank(y[0]))
      && (v[0] == QUOTE ==> IsString(v)))
  }

  /** A matching text that ends where it must is the first token of whatever starts with it. */
  lemma FirstToken(v: seq<Byte>, y: seq<Byte>)
    requires |v| > 0 && EarliestRule(v) != 0 && EndsBefore(v, y)
    ensures Lex(v + y) == [Token(EarliestRule(v), v)] + Lex(y)
  {
    hide EarliestRule, Matches, IsString, StateAfter;
    var w := v + y;
    assert w[..|v|] == v && w[|v|..] == y;
    forall k | |v| < k <= |w| ensures EarliestRule(w[..k]) == 0 {
      if v[0] == QUOTE {
        forall x: seq<Byte> ensures !IsString(v + [y[0]] + x) { StringIsClosed(v, y[0], x); }
      }
      DeadIf(v, y[0]);
      var x := y[1..k - |v|];
      assert v + [y[0]] + x == w[..k];
      assert Dead(v + [y[0]]);
    }
    LongestIs(w, |v|);
  }

  /** A keyword is recognised exactly when it is the entire identifier. */
  lemma KeywordIsWholeIdentifier(v: seq<Byte>, y: seq<Byte>, rule: int)
    requires IsIdent(v) && (y == [] || !IsIdentByte(y[0])) && 1 <= rule <= 10
    ensures Lex(v + y)[0] == Token(rule, v) <==> v == Text(Keyword(rule))
    ensures v !in (set r | 1 <= r <= 10 :: Text(Keyword(r))) ==> Lex(v + y)[0] == Token(15, v)
  {
    hide EarliestRule, StateAfter, Text, Keyword, KeywordState;
    RuleIsEarliest(v, 15);
    FirstToken(v, y);
    if v == Text(Keyword(rule)) {
      RuleIsEarliest(v, rule);
      var r := EarliestRule(v);
      KeywordIsLongIdent(rule);
      KeywordIsLongIdent(r);
      KeywordStateIsFirst(KeywordState(r), rule);
      KeywordStateIsFirst(KeywordState(r), r);
    }
  }

  // -------------------------------------------------------------- what the caller sees

  /** Blanks and newlines are matched and dropped. */
  predicate Skipped(rule: int) { rule == 17 || rule == 18 }

  function Visible(ts: seq<Token>): (vs: seq<Token>) {
    if ts == [] then []
    else (if Skipped(ts[0].rule) then [] else [ts[0]]) + Visible(ts[1..])
  }

  /** Blanks and newlines. */
  predicate IsGap(w: seq<Byte>) { forall i :: 0 <= i < |w| ==> IsBlank(w[i]) || w[i] == NEWLINE }

  /** The matches that are dropped are a run of blanks, or one newline. */
  lemma SkippedIsGap(w: seq<Byte>)
    requires w != [] && EarliestRule(w) != 0
    ensures Skipped(EarliestRule(w)) <==> IsBlanks(w) || w == [NEWLINE]
    ensures Skipped(EarliestRule(w)) <==> IsGap(w)
  {
    hide EarliestRule, IsString;
    if |w| == 1 {
      assert w == [w[0]];
      RuleOfByte(w[0]);
      assert IsGap(w) <==> IsBlank(w[0]) || w[0] == NEWLINE;
      assert IsBlanks(w) <==> IsBlank(w[0]);
    } else {
      RuleOfLong(w);
      LongIsOneKind(w);
      GapKinds(w);
    }
  }

  /** Of the longer matched texts only strings can hold a newline. */
  lemma GapKinds(w: seq<Byte>)
    requires |w| > 1 && (IsNumber(w) || IsString(w) || IsBlanks(w) || IsIdent(w))
    ensures IsGap(w) <==> IsBlanks(w)
  {
    hide IsBody;
  }

  /** Every token of a text has the earliest rule of its lexeme, which is not empty. */
  lemma {:induction false} LexIsRuled(w: seq<Byte>, i: nat)
    requires i < |Lex(w)|
    ensures var t := Lex(w)[i]; t.lexeme != [] && t.rule == EarliestRule(t.lexeme) != 0
    decreases |w|
  {
    hide EarliestRule, Matches;
    var l := Longest(w);
    if i > 0 {
      assert Lex(w)[i] == Lex(w[l..])[i - 1];
      LexIsRuled(w[l..], i - 1);
    }
  }

  /** How many of the first `k` tokens are runs of blanks or newlines. */
  function GapsBefore(ts: seq<Token>, k: nat): (n: nat)
    requires k <= |ts|
    ensures n <= k
    decreases k
  {
    if k == 0 then 0 else GapsBefore(ts, k - 1) + if IsGapToken(ts[k - 1]) then 1 else 0
  }

  lemma {:induction false} GapsOfTail(ts: seq<Token>, k: nat)
    requires 0 < k <= |ts|
    ensures GapsBefore(ts, k) == GapsBefore(ts, 1) + GapsBefore(ts[1..], k - 1)
    decreases k
  {
    if k > 1 { GapsOfTail(ts, k - 1); }
  }

  predicate IsGapToken(t: Token) { IsBlanks(t.lexeme) || t.lexeme == [NEWLINE] }

  /** Token `i`, if it is no gap, is in `vs` at its place among the tokens that are not, and `vs` has no others. */
  ghost predicate Keeps(ts: seq<Token>, vs: seq<Token>, i: nat)
    requires i <= |ts|
  {
    && |vs| == |ts| - GapsBefore(ts, |ts|)
    && (i < |ts| && !IsGapToken(ts[i]) ==>
          var j := i - GapsBefore(ts, i);
          j < |vs| && vs[j] == ts[i])
  }

  lemma KeepsFirst(ts: seq<Token>, vs: seq<Token>, i: nat)
    requires i < |ts| && Keeps(ts[1..], vs, if i > 0 then i - 1 else 0)
    ensures Keeps(ts, (if IsGapToken(ts[0]) then [] else [ts[0]]) + vs, i)
  {
    hide IsBlanks;
    assert GapsBefore(ts, 1) == GapsBefore(ts, 0) + if IsGapToken(ts[0]) then 1 else 0;
    GapsOfTail(ts, |ts|);
    if i > 0 {
      GapsOfTail(ts, i);
      assert ts[1..][i - 1] == ts[i];
    }
    hide GapsBefore, IsGapToken;
  }

  /**
  What the caller sees of a text are its tokens without the runs of blanks and the newlines: every
  other token, at its place among them, and no more.
  */
  lemma VisibleAreTheOthers(w: seq<Byte>, i: nat)
    requires i < |Lex(w)|
    ensures var ts, vs := Lex(w), Visible(Lex(w));
            && |vs| == |ts| - GapsBefore(ts, |ts|)
            && (!IsBlanks(ts[i].lexeme) && ts[i].lexeme != [NEWLINE] ==>
                  var j := i - GapsBefore(ts, i);
                  j < |vs| && vs[j] == ts[i])
  {
    KeepsAll(w, i);
  }

  lemma {:induction false} KeepsAll(w: seq<Byte>, i: nat)
    requires i < |Lex(w)|
    ensures Keeps(Lex(w), Visible(Lex(w)), i)
    decreases |w|
  {
    assert w != [];
    var l, ts := Longest(w), Lex(w);
    VisibleOfFirst(w);
    if ts[1..] == [] {
      NothingVisible();
    } else {
      KeepsAll(w[l..], if i > 0 then i - 1 else 0);
    }
    hide *;
    KeepsFirst(ts, Visible(ts[1..]), i);
  }

  lemma NothingVisible()
    ensures Visible([]) == [] && Keeps([], [], 0)
  {
  }

  lemma VisibleOfFirst(w: seq<Byte>)
    requires w != []
    ensures var ts, rest := Lex(w), Lex(w[Longest(w)..]);
            && ts != [] && ts[1..] == rest
            && Visible(ts) == (if IsGapToken(ts[0]) then [] else [ts[0]]) + Visible(rest)
  {
    hide EarliestRule, Matches, Longest, IsBlanks;
    LexStep(w);
    LexIsRuled(w, 0);
    SkippedIsGap(Lex(w)[0].lexeme);
  }

  const TOKEN_ERROR := -1
  const TOKEN_IDENT := 100
  const TOKEN_NUMBER := 101
  const TOKEN_COMMA := 102
  const TOKEN_SEMICOLON := 103
  const TOKEN_SYMBOL := 104
  const TOKEN_STRING := 105

  /** The value the action of a rule returns; a keyword's is an identifier's. */
  function TokenCode(rule: int): (code: int)
    ensures code != 0
  {
    match rule
    case 11 => TOKEN_NUMBER
    case 12 => TOKEN_COMMA
    case 13 => TOKEN_SEMICOLON
    case 14 => TOKEN_SYMBOL
    case 16 => TOKEN_STRING
    case 19 => TOKEN_ERROR
    case _ => TOKEN_IDENT
  }

  /** What the code of a token the caller sees says about its text: the values of `l_tokens.h`. */
  lemma CodeTellsText(w: seq<Byte>)
    requires w != [] && EarliestRule(w) != 0 && !IsBlanks(w) && w != [NEWLINE]
    ensures var code := TokenCode(EarliestRule(w));
            && (code == 100 <==> IsIdent(w))
            && (code == 101 <==> IsNumber(w))
            && (code == 102 <==> w == [',' as int])
            && (code == 103 <==> w == [';' as int])
            && (code == 104 <==> w == ['-' as int])
            && (code == 105 <==> IsString(w))
            && (code in {100, 101, 102, 103, 104, 105} || code == -1)
  {
    SkippedIsGap(w);
    hide EarliestRule, IsString;
    if |w| == 1 {
      assert w == [w[0]];
      RuleOfByte(w[0]);
      ShortIsNoString(w);
    } else {
      RuleOfLong(w);
      LongIsOneKind(w);
    }
  }

  lemma ShortIsNoString(w: seq<Byte>)
    ensures |w| == 1 ==> !IsString(w)
  {
  }

  lemma LongIsOneKind(w: seq<Byte>)
    requires |w| > 1
    ensures IsString(w) ==> w[0] == QUOTE
  {
  }

  /** The tokens of a text are its first token, unless skipped, and those of what follows. */
  lemma VisibleStep(w: seq<Byte>)
    requires w != []
    ensures var l := Longest(w);
            var r := EarliestRule(w[..l]);
            Visible(Lex(w)) == (if Skipped(r) then [] else [Token(r, w[..l])]) + Visible(Lex(w[l..]))
  {
    hide EarliestRule, Matches, Longest;
    var l := Longest(w);
    assert Lex(w)[1..] == Lex(w[l..]);
  }

  /** A matched text that ends where it must and is not blank is what the caller sees first. */
  lemma OtherTextIsSeen(v: seq<Byte>, y: seq<Byte>)
    requires |v| > 0 && EarliestRule(v) != 0 && !IsBlanks(v) && v != [NEWLINE] && EndsBefore(v, y)
    ensures Visible(Lex(v + y)) == [Token(EarliestRule(v), v)] + Visible(Lex(y))
  {
    SkippedIsGap(v);
    FirstToken(v, y);
    hide EarliestRule, Matches, Lex, IsString, IsBlanks, EndsBefore;
  }

  /** Identifiers, the three marks, and a byte no rule of the language is for. */
  lemma LoneTextIsSeen(v: seq<Byte>, y: seq<Byte>)
    requires |v| > 0 && EndsBefore(v, y)
    ensures IsIdent(v) ==>
              && (EarliestRule(v) == 15 || (1 <= EarliestRule(v) <= 10 && v == Text(Keyword(EarliestRule(v)))))
              && Visible(Lex(v + y)) == [Token(EarliestRule(v), v)] + Visible(Lex(y))
    ensures v == [',' as int] ==> Visible(Lex(v + y)) == [Token(12, v)] + Visible(Lex(y))
    ensures v == [';' as int] ==> Visible(Lex(v + y)) == [Token(13, v)] + Visible(Lex(y))
    ensures v == ['-' as int] ==> Visible(Lex(v + y)) == [Token(14, v)] + Visible(Lex(y))
    ensures |v| == 1 && !IsIdentByte(v[0]) && !IsBlank(v[0]) && v[0] !in [NEWLINE, ',' as int, ';' as int, '-' as int]
            ==> Visible(Lex(v + y)) == [Token(19, v)] + Visible(Lex(y))
  {
    hide EarliestRule, Matches, Lex, Visible, IsString, EndsBefore, Text, Keyword;
    if |v| == 1 {
      RuleOfByte(v[0]);
      assert v == [v[0]];
    }
    if IsIdent(v) {
      IdentRule(v);
      OtherTextIsSeen(v, y);
    } else if |v| == 1 && !IsBlank(v[0]) && v[0] != NEWLINE {
      OtherTextIsSeen(v, y);
    }
  }

  lemma IdentRule(v: seq<Byte>)
    requires IsIdent(v)
    ensures EarliestRule(v) == 15 || (1 <= EarliestRule(v) <= 10 && v == Text(Keyword(EarliestRule(v))))
    ensures !IsBlanks(v) && v != [NEWLINE]
  {
    hide EarliestRule, Text, Keyword;
    if |v| == 1 {
      RuleOfByte(v[0]);
      assert v == [v[0]];
    } else {
      RuleOfLong(v);
    }
  }

  /** A quote that no string starts with is a byte like any other. */
  lemma OpenQuoteIsSeen(y: seq<Byte>)
    requires forall k :: 0 <= k <= |y| ==> !IsString([QUOTE] + y[..k])
    ensures Visible(Lex([QUOTE] + y)) == [Token(19, [QUOTE])] + Visible(Lex(y))
  {
    hide EarliestRule, Matches, IsString;
    var w := [QUOTE] + y;
    RuleOfByte(QUOTE);
    assert w[..1] == [QUOTE] && w[1..] == y;
    forall k | 1 < k <= |w| ensures EarliestRule(w[..k]) == 0 {
      assert w[..k] == [QUOTE] + y[..k - 1];
      RuleOfLong(w[..k]);
      assert w[..k][0] == QUOTE;
    }
    LongestIs(w, 1);
    VisibleStep(w);
  }
}
