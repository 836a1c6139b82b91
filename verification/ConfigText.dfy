/**
Configuration text: statements `KEYWORD value;` with any layout, and what the scanner makes of them.
*/
module ConfigText {
  import opened Bytes
  import opened ScannerStates
  import opened ScannerRules
  import opened ScannerMeaning
  import opened MaximalMunch

  datatype Value = Number(n: nat) | Quoted(s: seq<Byte>)

  type KeywordRule = k: int | 1 <= k <= 10 witness 1

  datatype Statement = Statement(keyword: KeywordRule, value: Value)

  /** A statement and the blanks and newlines after its keyword, value and semicolon. */
  datatype Layout = Layout(statement: Statement, gap0: seq<Byte>, gap1: seq<Byte>, gap2: seq<Byte>)

  predicate IsLaidOut(p: Layout) { p.gap0 != [] && IsGap(p.gap0) && IsGap(p.gap1) && IsGap(p.gap2) }

  type LaidOut = p: Layout | IsLaidOut(p) witness Layout(Statement(1, Number(0)), [NEWLINE], [], [])

  // -------------------------------------------------------------- numbers

  function Digits(n: nat): (w: seq<Byte>)
    ensures IsNumber(w)
  {
    var d: Byte := '0' as int + n % 10;
    if n < 10 then [d] else Digits(n / 10) + [d]
  }

  /** The value of a run of digits. */
  function Decimal(w: seq<Byte>): (n: nat) {
    if w == [] then 0
    else
      var b := w[|w| - 1];
      10 * Decimal(w[..|w| - 1]) + if IsDigit(b) then b - '0' as int else 0
  }

  lemma {:induction false} DecimalOfDigits(n: nat)
    ensures Decimal(Digits(n)) == n
  {
    var w := Digits(n);
    if n < 10 {
      assert w[..0] == [];
    } else {
      DecimalOfDigits(n / 10);
      assert w[..|w| - 1] == Digits(n / 10);
    }
  }

  /** Leading zeros do not change it. */
  lemma {:induction false} DecimalSkipsZeros(w: seq<Byte>)
    ensures Decimal(['0' as int] + w) == Decimal(w)
    decreases |w|
  {
    var v := ['0' as int] + w;
    if w == [] {
      assert v[..0] == [];
    } else {
      DecimalSkipsZeros(w[..|w| - 1]);
      assert v[..|v| - 1] == ['0' as int] + w[..|w| - 1];
    }
  }

  // -------------------------------------------------------------- strings

  /** Backslashes before quotes and backslashes. */
  function Escape(s: seq<Byte>): (v: seq<Byte>)
    ensures |v| >= |s|
  {
    if s == [] then []
    else (if s[0] == QUOTE || s[0] == BACKSLASH then [BACKSLASH, s[0]] else [s[0]]) + Escape(s[1..])
  }

  function Unescape(v: seq<Byte>): (s: seq<Byte>)
    decreases |v|
  {
    if v == [] then []
    else if v[0] == BACKSLASH && |v| > 1 then [v[1]] + Unescape(v[2..])
    else [v[0]] + Unescape(v[1..])
  }

  lemma {:induction false} UnescapeOfEscape(s: seq<Byte>)
    ensures Unescape(Escape(s)) == s && IsBody(Escape(s))
  {
    if s != [] {
      var v := Escape(s);
      UnescapeOfEscape(s[1..]);
      if s[0] == QUOTE || s[0] == BACKSLASH {
        assert v[2..] == Escape(s[1..]);
      } else {
        assert v[1..] == Escape(s[1..]);
      }
    }
  }

  /** Escaping changes a text exactly when it has a quote or a backslash. */
  lemma {:induction false} EscapeIsIdentity(s: seq<Byte>)
    ensures Escape(s) == s <==> QUOTE !in s && BACKSLASH !in s
  {
    if s != [] {
      EscapeIsIdentity(s[1..]);
      if s[0] != QUOTE && s[0] != BACKSLASH {
        assert Escape(s)[1..] == Escape(s[1..]);
        assert s == [s[0]] + s[1..];
      } else {
        assert |Escape(s)| > |s|;
      }
    }
  }

  function StringText(s: seq<Byte>): (w: seq<Byte>)
    ensures IsString(w) && w[0] == QUOTE
  {
    UnescapeOfEscape(s);
    var v := [QUOTE] + Escape(s);
    assert v[1..] == Escape(s) && (v + [QUOTE])[..|v|] == v;
    v + [QUOTE]
  }

  // -------------------------------------------------------------- printing

  function ValueText(v: Value): (w: seq<Byte>)
    ensures |w| > 0
    ensures if v.Number? then IsNumber(w) else IsString(w) && w[0] == QUOTE
  {
    if v.Number? then Digits(v.n) else StringText(v.s)
  }

  const SEMICOLON: seq<Byte> := [';' as int]

  function Print(ps: seq<LaidOut>): (w: seq<Byte>)
  {
    if ps == [] then []
    else
      var p := ps[0];
      Text(Keyword(p.statement.keyword)) + (p.gap0 + (ValueText(p.statement.value)
      + (p.gap1 + (SEMICOLON + (p.gap2 + Print(ps[1..]))))))
  }

  function Tokens(s: Statement): (ts: seq<Token>)
  {
    [Token(s.keyword, Text(Keyword(s.keyword))),
     Token(if s.value.Number? then 11 else 16, ValueText(s.value)),
     Token(13, SEMICOLON)]
  }

  function AllTokens(ps: seq<LaidOut>): (ts: seq<Token>)
  {
    if ps == [] then [] else Tokens(ps[0].statement) + AllTokens(ps[1..])
  }

  // -------------------------------------------------------------- scanning the print

  lemma RuleOfNumber(w: seq<Byte>)
    requires IsNumber(w)
    ensures EarliestRule(w) == 11
  {
    hide EarliestRule;
    if |w| == 1 {
      assert w == [w[0]];
      RuleOfByte(w[0]);
    } else {
      RuleOfLong(w);
    }
  }

  lemma RuleOfBlanks(w: seq<Byte>)
    requires IsBlanks(w)
    ensures EarliestRule(w) == 17
  {
    hide EarliestRule;
    if |w| == 1 {
      assert w == [w[0]];
      RuleOfByte(w[0]);
    } else {
      RuleOfLong(w);
    }
  }

  lemma RuleOfKeyword(rule: int)
    requires 1 <= rule <= 10
    ensures EarliestRule(Text(Keyword(rule))) == rule
  {
    hide EarliestRule, StateAfter, Text, Keyword, KeywordState, Path;
    var w := Text(Keyword(rule));
    KeywordIsLongIdent(rule);
    AcceptIsEarliestRule(w);
  }

  /** The blanks a text starts with. */
  function BlankRun(y: seq<Byte>): (k: nat)
    ensures k <= |y| && (k < |y| ==> !IsBlank(y[k]))
    ensures forall i :: 0 <= i < k ==> IsBlank(y[i])
  {
    if y == [] || !IsBlank(y[0]) then 0 else 1 + BlankRun(y[1..])
  }

  lemma BlanksAreDropped(v: seq<Byte>, y: seq<Byte>)
    requires IsBlanks(v) && (y == [] || !IsBlank(y[0]))
    ensures Visible(Lex(v + y)) == Visible(Lex(y))
  {
    hide EarliestRule, Matches, Lex, IsString;
    RuleOfBlanks(v);
    FirstToken(v, y);
    var ts := Lex(v + y);
    assert ts[1..] == Lex(y);
  }

  lemma GapByteIsDropped(b: Byte, y: seq<Byte>)
    requires IsBlank(b) || b == NEWLINE
    ensures Visible(Lex([b] + y)) == Visible(Lex(y))
  {
    hide EarliestRule, Matches, Lex, IsString;
    if IsBlank(b) {
      var k := BlankRun(y);
      BlanksAreDropped([b] + y[..k], y[k..]);
      assert [b] + y[..k] + y[k..] == [b] + y;
      if k > 0 {
        BlanksAreDropped(y[..k], y[k..]);
        assert y[..k] + y[k..] == y;
      } else {
        assert y[0..] == y;
      }
    } else {
      RuleOfByte(b);
      FirstToken([b], y);
      var ts := Lex([b] + y);
      assert ts[1..] == Lex(y);
    }
  }

  lemma {:induction false} GapIsDropped(gap: seq<Byte>, y: seq<Byte>)
    requires IsGap(gap)
    ensures Visible(Lex(gap + y)) == Visible(Lex(y))
  {
    hide Lex, Visible;
    if gap == [] {
      assert gap + y == y;
    } else {
      GapIsDropped(gap[1..], y);
      GapByteIsDropped(gap[0], gap[1..] + y);
      assert [gap[0]] + (gap[1..] + y) == gap + y;
    }
  }

  /** One statement, before any text. */
  lemma StatementTokens(p: LaidOut, y: seq<Byte>)
    ensures Visible(Lex(Text(Keyword(p.statement.keyword)) + (p.gap0 + (ValueText(p.statement.value)
                        + (p.gap1 + (SEMICOLON + (p.gap2 + y)))))))
            == Tokens(p.statement) + Visible(Lex(y))
  {
    hide EarliestRule, Matches, Lex, Visible, Text, Keyword, KeywordState, StateAfter, ValueText, IsBody;
    var k, v := p.statement.keyword, p.statement.value;
    var y3 := p.gap2 + y;
    var y2 := p.gap1 + (SEMICOLON + y3);
    var y1 := p.gap0 + (ValueText(v) + y2);
    RuleOfKeyword(k);
    KeywordIsLongIdent(k);
    OtherTextIsSeen(Text(Keyword(k)), y1);
    GapIsDropped(p.gap0, ValueText(v) + y2);
    if v.Number? {
      RuleOfNumber(ValueText(v));
    } else {
      RuleOfLong(ValueText(v));
    }
    assert y2[0] == if p.gap1 == [] then ';' as int else p.gap1[0];
    assert !IsBlank(ValueText(v)[0]) && ValueText(v)[0] != NEWLINE;
    OtherTextIsSeen(ValueText(v), y2);
    GapIsDropped(p.gap1, SEMICOLON + y3);
    RuleOfByte(';' as int);
    assert SEMICOLON[0] == ';' as int;
    OtherTextIsSeen(SEMICOLON, y3);
    GapIsDropped(p.gap2, y);
  }

  /** Scanning a print gives back the statements' tokens, whatever the layout and the strings. */
  lemma {:induction false} PrintThenScan(ps: seq<LaidOut>)
    ensures Visible(Lex(Print(ps))) == AllTokens(ps)
  {
    if ps != [] {
      PrintThenScan(ps[1..]);
      StatementTokens(ps[0], Print(ps[1..]));
    }
  }

  /** What the tokens of a statement say: the statement can be read back from them. */
  lemma TokensDetermineStatement(s: Statement)
    ensures var ts := Tokens(s);
            && ts[0].rule == s.keyword
            && s.value == if ts[1].rule == 11 then Number(Decimal(ts[1].lexeme))
                          else Quoted(Unescape(ts[1].lexeme[1..|ts[1].lexeme| - 1]))
  {
    if s.value.Number? {
      DecimalOfDigits(s.value.n);
    } else {
      UnescapeOfEscape(s.value.s);
      var w := StringText(s.value.s);
      assert w[1..|w| - 1] == Escape(s.value.s);
    }
  }
}
