/**
The tables implement the rules: after any bytes, the state reached accepts exactly the earliest
rule that matches all of them, and the jam state means that no continuation can match any rule.
*/
module ScannerMeaning {
  import opened Bytes
  import opened ScannerTables
  import opened ScannerStates
  import opened ScannerRules

  /** No rule matches `w` or anything that starts with it. */
  ghost predicate Dead(w: seq<Byte>) { forall v: seq<Byte> :: EarliestRule(w + v) == 0 }

  /** What it means to be in a state, in terms of the rules. */
  ghost predicate Means(s: int, w: seq<Byte>) {
    if s == 1 then w == []
    else if s == 4 then |w| == 1 && (ClassOf(w[0]) == 1 || ClassOf(w[0]) == 32 || ClassOf(w[0]) == 33)
    else if s == 5 then |w| == 1 && IsBlanks(w)
    else if s == 18 then |w| > 1 && IsBlanks(w)
    else if s == 6 then w == [NEWLINE]
    else if s == 7 then w == [QUOTE]
    else if s == 8 then w == [',' as int]
    else if s == 9 then w == ['-' as int]
    else if s == 11 then w == [';' as int]
    else if s == 10 then |w| == 1 && IsNumber(w)
    else if s == 22 then |w| > 1 && IsNumber(w)
    else if s == 12 then |w| == 1 && IsIdent(w)
    else if s == 23 then |w| > 1 && IsIdent(w)
    else if s == 19 then |w| > 1 && IsOpenString(w)
    else if s == 21 then |w| > 1 && IsOpenString(w[..|w| - 1]) && w[|w| - 1] == BACKSLASH
    else if s == 20 then IsString(w)
    else if s == 165 then Dead(w)
    else InTrie(s) && w == Path(s)
  }

  // -------------------------------------------------------------- which rule matches

  lemma KeywordIsLongIdent(rule: int)
    requires 1 <= rule <= 10
    ensures IsIdent(Text(Keyword(rule))) && |Text(Keyword(rule))| > 1
    ensures StateAfter(Text(Keyword(rule))) == KeywordState(rule)
  {
    hide Path, Parent, PathClass;
    KeywordPath(rule);
    PathState(KeywordState(rule));
  }

  lemma RuleIsEarliest(w: seq<Byte>, q: int)
    requires 1 <= q <= 19 && Matches(q, w)
    ensures 0 < EarliestRule(w) <= q
  {
    hide Matches;
  }

  /** The rules for a single byte. */
  lemma RuleOfByte(b: Byte)
    ensures EarliestRule([b]) ==
            if IsDigit(b) then 11 else if b == ',' as int then 12 else if b == ';' as int then 13
            else if b == '-' as int then 14 else if IsLetter(b) then 15 else if IsBlank(b) then 17
            else if b == NEWLINE then 18 else 19
  {
    hide Text, Keyword, StateAfter;
    var w := [b];
    forall q | 1 <= q <= 10 ensures !Matches(q, w) { KeywordIsLongIdent(q); }
    assert w[0] == b;
    assert IsNumber(w) ==> IsDigit(w[0]);
    assert Matches(11, w) <==> IsDigit(b);
    assert Matches(12, w) <==> b == ',' as int;
    assert Matches(13, w) <==> b == ';' as int;
    assert Matches(14, w) <==> b == '-' as int;
    assert Matches(15, w) <==> IsLetter(b);
    assert Matches(17, w) <==> IsBlank(b);
    assert Matches(18, w) <==> b == NEWLINE;
    assert Matches(19, w) <==> b != NEWLINE;
    assert !Matches(16, w);
  }

  /** The rules for longer texts: the first byte tells numbers, identifiers, blanks and strings apart. */
  lemma RuleOfLong(w: seq<Byte>)
    requires |w| > 1
    ensures IsNumber(w) ==> EarliestRule(w) == 11
    ensures IsString(w) ==> EarliestRule(w) == 16
    ensures IsBlanks(w) ==> EarliestRule(w) == 17
    ensures IsIdent(w) ==>
              EarliestRule(w) == 15 || (1 <= EarliestRule(w) <= 10 && w == Text(Keyword(EarliestRule(w))))
    ensures !IsNumber(w) && !IsString(w) && !IsBlanks(w) && !IsIdent(w) ==> EarliestRule(w) == 0
  {
    hide Text, Keyword, StateAfter, IsBody;
    forall q | 1 <= q <= 10 ensures Matches(q, w) ==> IsIdent(w) { KeywordIsLongIdent(q); }
    assert Matches(11, w) <==> IsNumber(w);
    assert Matches(15, w) <==> IsIdent(w);
    assert Matches(16, w) <==> IsString(w);
    assert Matches(17, w) <==> IsBlanks(w);
    var r := EarliestRule(w);
  }

  lemma KeywordStateIsFirst(s: int, rule: int)
    requires TokenState(s) && 1 <= rule <= 10
    ensures Accept(s) == rule <==> s == KeywordState(rule)
  {
    AcceptOf(s);
  }

  /** An identifier is a keyword exactly when its state is that keyword's. */
  lemma RuleOfIdent(w: seq<Byte>)
    requires IsIdent(w) && (InTrie(StateAfter(w)) ==> w == Path(StateAfter(w)))
    requires Accept(StateAfter(w)) == 15 || 1 <= Accept(StateAfter(w)) <= 10
    ensures EarliestRule(w) == Accept(StateAfter(w))
  {
    hide StateAfter, Text, Keyword, KeywordState, Path, Accept;
    if |w| == 1 {
      RuleOfByte(w[0]);
      assert w == [w[0]];
    } else {
      RuleOfLong(w);
    }
    var s, r := StateAfter(w), EarliestRule(w);
    if r != 15 {
      KeywordIsLongIdent(r);
      KeywordStateIsFirst(s, r);
    } else if Accept(s) != 15 {
      KeywordStateIsFirst(s, Accept(s));
      KeywordPath(Accept(s));
      RuleIsEarliest(w, Accept(s));
    }
  }

  // -------------------------------------------------------------- dead ends

  /** A text that goes wrong at its second byte or later can never be completed to a match. */
  lemma DeadIf(w: seq<Byte>, b: Byte)
    requires |w| > 0
    requires IsDigit(w[0]) ==> !IsDigit(b)
    requires IsLetter(w[0]) ==> !IsIdentByte(b)
    requires IsBlank(w[0]) ==> !IsBlank(b)
    requires w[0] == QUOTE ==> forall y: seq<Byte> :: !IsString(w + [b] + y)
    ensures Dead(w + [b])
  {
    hide EarliestRule, IsString, Text, Keyword;
    forall v: seq<Byte> ensures EarliestRule(w + [b] + v) == 0 {
      var u := w + [b] + v;
      assert u[0] == w[0] && u[|w|] == b;
      StringQuote(u);
      RuleOfLong(u);
    }
  }

  lemma StringQuote(u: seq<Byte>)
    requires |u| > 1
    ensures IsString(u) ==> u[0] == QUOTE
  {
  }

  /** Nothing that runs on over the closing quote of a string is a string. */
  lemma StringIsClosed(w: seq<Byte>, b: Byte, y: seq<Byte>)
    requires IsString(w)
    ensures !IsString(w + [b] + y)
  {
    var v, u := w[1..|w| - 1], w + [b] + y;
    assert w[..|w| - 1][1..] == v;
    BodyStops(v, ([b] + y)[..|y|]);
    assert u[..|u| - 1][1..] == v + [QUOTE] + ([b] + y)[..|y|];
  }

  lemma EscapedNewlineIsNoString(w: seq<Byte>, y: seq<Byte>)
    requires |w| > 1 && IsOpenString(w[..|w| - 1]) && w[|w| - 1] == BACKSLASH
    ensures !IsString(w + [NEWLINE] + y)
  {
    var v, u := w[1..|w| - 1], w + [NEWLINE] + y;
    assert w[..|w| - 1][1..] == v;
    if y != [] {
      BodyStops(v, y[..|y| - 1]);
      assert u[..|u| - 1][1..] == v + [BACKSLASH, NEWLINE] + y[..|y| - 1];
    }
  }

  // -------------------------------------------------------------- every step keeps the meaning

  lemma FirstLetter(t: int)
    requires 13 <= t <= 17
    ensures Parent(t) == 1 && FirstState(PathClass(t)) == t
    ensures PathClass(t) == if t == 13 then 11 else if t == 14 then 21 else t + 10
  {
  }

  lemma StepFromStart(w: seq<Byte>, b: Byte)
    requires w == []
    ensures Means(Next(1, ClassOf(b)), w + [b])
  {
    hide Chk, Nxt, Base, Ec, Parent, PathClass, ClassByte, ClassOf;
    ClassMeaning(b);
    ClassIsByte(b);
    var t := FirstState(ClassOf(b));
    if InTrie(t) {
      FirstLetter(t);
      TrieStep(t);
    }
    assert w + [b] == [b];
  }

  lemma StepInRun(s: int, w: seq<Byte>, b: Byte)
    requires s == 5 || s == 18 || s == 10 || s == 22 || s == 12 || s == 23
    requires Means(s, w)
    ensures Means(Next(s, ClassOf(b)), w + [b])
  {
    hide ClassOf, Dead, IsString;
    ClassMeaning(b);
    if Next(s, ClassOf(b)) == 165 {
      DeadIf(w, b);
    }
  }

  lemma StepInTrie(s: int, w: seq<Byte>, b: Byte)
    requires InTrie(s) && w == Path(s)
    ensures Means(Next(s, ClassOf(b)), w + [b])
  {
    hide Chk, Nxt, Base, Ec, Parent, PathClass, ClassByte, Dead, IsString, ClassOf;
    var c := ClassOf(b);
    ClassMeaning(b);
    if Chk(Base(s) + c) == s {
      var t := Nxt(Base(s) + c);
      TrieEntry(s, c);
      TrieStep(t);
      ClassIsByte(b);
    } else if !IdentClass(c) {
      DeadIf(w, b);
    }
  }

  lemma OpeningQuote()
    ensures IsBody([]) && IsBody([QUOTE][1..])
  {
    assert [QUOTE][1..] == [];
  }

  lemma StepInString(s: int, w: seq<Byte>, b: Byte)
    requires s == 7 || s == 19 || s == 21
    requires Means(s, w)
    ensures Means(Next(s, ClassOf(b)), w + [b])
  {
    hide ClassOf, Dead, IsBody, EarliestRule;
    ClassMeaning(b);
    var u := w + [b];
    if s == 21 {
      var v := w[1..|w| - 1];
      assert w[..|w| - 1][1..] == v;
      if b == NEWLINE {
        forall y: seq<Byte> ensures !IsString(u + y) { EscapedNewlineIsNoString(w, y); }
        DeadIf(w, b);
      } else {
        BodySnoc(v, b);
        assert u[1..] == v + [BACKSLASH, b];
      }
    } else {
      OpeningQuote();
      BodySnoc(w[1..], b);
      assert u[1..] == w[1..] + [b] && u[..|u| - 1] == w;
    }
  }

  lemma StepPastEnd(s: int, w: seq<Byte>, b: Byte)
    requires s == 4 || s == 6 || s == 8 || s == 9 || s == 11 || s == 20 || s == 165
    requires Means(s, w)
    ensures Dead(w + [b])
  {
    hide Ec, EarliestRule, IsBody;
    if s == 165 {
      forall v: seq<Byte> ensures EarliestRule(w + [b] + v) == 0 {
        assert w + [b] + v == w + ([b] + v);
      }
    } else {
      ClassMeaning(w[0]);
      if s == 20 {
        forall y: seq<Byte> ensures !IsString(w + [b] + y) { StringIsClosed(w, b, y); }
      }
      DeadIf(w, b);
    }
  }

  /** After any bytes, the state means what it says. */
  lemma {:induction false} StateMeans(w: seq<Byte>)
    ensures Means(StateAfter(w), w)
    decreases |w|
  {
    hide Means, Next, ClassOf;
    if w == [] {
      EmptyMeans();
    } else {
      var v, b := w[..|w| - 1], w[|w| - 1];
      var s := StateAfter(v);
      StateMeans(v);
      StateAfterSnoc(v, b);
      assert w == v + [b];
      Step(s, v, b);
    }
  }

  lemma EmptyMeans()
    ensures Means(1, [])
  {
  }

  lemma Step(s: int, w: seq<Byte>, b: Byte)
    requires TokenState(s) && Means(s, w)
    ensures TokenState(Next(s, ClassOf(b))) && Means(Next(s, ClassOf(b)), w + [b])
  {
    hide ClassOf, Dead, Path, EarliestRule, IsBody;
    NextIsTokenState(s, ClassOf(b));
    if s == 1 { StepFromStart(w, b); }
    else if s == 7 || s == 19 || s == 21 { StepInString(s, w, b); }
    else if InTrie(s) { StepInTrie(s, w, b); }
    else if s == 5 || s == 18 || s == 10 || s == 22 || s == 12 || s == 23 { StepInRun(s, w, b); }
    else { StepPastEnd(s, w, b); }
  }

  // -------------------------------------------------------------- the tables implement the rules

  lemma OpenStringIsNoRule(w: seq<Byte>)
    requires |w| > 1
    requires IsOpenString(w) || (IsOpenString(w[..|w| - 1]) && w[|w| - 1] == BACKSLASH)
    ensures EarliestRule(w) == 0
  {
    hide EarliestRule, Text, Keyword;
    RuleOfLong(w);
    if IsString(w) {
      var v := w[1..|w| - 1];
      assert w[..|w| - 1][1..] == v;
      assert w[1..] == v + [QUOTE] + [];
      BodyStops(v, []);
    }
  }

  /** The rule a state accepts is the earliest rule that matches the bytes read, 0 if none does. */
  lemma AcceptIsEarliestRule(w: seq<Byte>)
    requires w != []
    ensures Accept(StateAfter(w)) == EarliestRule(w)
  {
    hide StateAfter, EarliestRule, Accept, Path, IsBody, ClassOf;
    var s := StateAfter(w);
    StateMeans(w);
    AcceptOf(s);
    if s == 165 {
      assert w + [] == w;
    } else if s == 19 || s == 21 {
      OpenStringIsNoRule(w);
    } else if InTrie(s) || s == 12 || s == 23 {
      RuleOfIdent(w);
    } else if |w| == 1 {
      assert w == [w[0]];
      ClassMeaning(w[0]);
      RuleOfByte(w[0]);
    } else {
      RuleOfLong(w);
    }
  }

  /** Once the automaton jams, no continuation of the text matches a rule. */
  lemma JamIsDead(w: seq<Byte>, v: seq<Byte>)
    requires StateAfter(w) == 165
    ensures EarliestRule(w + v) == 0
  {
    hide StateAfter, EarliestRule;
    StateMeans(w);
  }
}
