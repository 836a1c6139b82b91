/**
The token language of `src/parser/scanner.l`, and the proof that the tables implement it.
*/
module ScannerRules {
  import opened Bytes
  import opened ScannerTables
  import opened ScannerStates

  // -------------------------------------------------------------- the rules

  /** The bytes of a text in ASCII. */
  function Text(s: string): (w: seq<Byte>)
    ensures |w| == |s|
  {
    seq(|s|, i requires 0 <= i < |s| => if s[i] as int < 128 then s[i] as int else 0)
  }

  function Keyword(rule: int): (s: string)
    requires 1 <= rule <= 10
  {
    match rule
    case 1 => "SESSION_" + "SIZE"
    case 2 => "SLEEP_TIME"
    case 3 => "CIRCLE_" + "BUFFER_SIZE"
    case 4 => "MAX_PORTS"
    case 5 => "REAL_TIME_" + "DEAD_LINE"
    case 6 => "REAL_TIME_" + "USER_" + "DEFINED"
    case 7 => "TRUNK_" + "ACCEPT_URI"
    case 8 => "TRUNK_" + "DISPATCH_" + "URI"
    case 9 => "SCHEDULER_" + "PREEMPTIVE_" + "DEADLINE"
    case _ => "RB_LOG_" + "LEVEL"
  }

  predicate IsNumber(w: seq<Byte>) { |w| > 0 && forall i :: 0 <= i < |w| ==> IsDigit(w[i]) }

  predicate IsIdent(w: seq<Byte>) { |w| > 0 && IsLetter(w[0]) && forall i :: 0 <= i < |w| ==> IsIdentByte(w[i]) }

  predicate IsBlanks(w: seq<Byte>) { |w| > 0 && forall i :: 0 <= i < |w| ==> IsBlank(w[i]) }

  /** Plain bytes, and backslashes each followed by a byte that is not a newline. */
  predicate IsBody(v: seq<Byte>)
    decreases |v|
  {
    v == []
    || (v[0] != QUOTE && v[0] != BACKSLASH && IsBody(v[1..]))
    || (|v| >= 2 && v[0] == BACKSLASH && v[1] != NEWLINE && IsBody(v[2..]))
  }

  predicate IsOpenString(w: seq<Byte>) { |w| > 0 && w[0] == QUOTE && IsBody(w[1..]) }

  predicate IsString(w: seq<Byte>) { |w| >= 2 && IsOpenString(w[..|w| - 1]) && w[|w| - 1] == QUOTE }

  /** Rule `rule` of the rules section, in order, matches the whole of `w`. */
  predicate Matches(rule: int, w: seq<Byte>)
    requires 1 <= rule <= 19
  {
    match rule
    case 11 => IsNumber(w)
    case 12 => w == [',' as int]
    case 13 => w == [';' as int]
    case 14 => w == ['-' as int]
    case 15 => IsIdent(w)
    case 16 => IsString(w)
    case 17 => IsBlanks(w)
    case 18 => w == [NEWLINE]
    case 19 => |w| == 1 && w[0] != NEWLINE
    case _ => w == Text(Keyword(rule))
  }

  /** The first rule from `rule` on that matches, 0 if none does. */
  function FirstRule(w: seq<Byte>, rule: int): (r: int)
    requires 1 <= rule <= 20
    ensures r == 0 || (rule <= r <= 19 && Matches(r, w))
    ensures forall q :: rule <= q <= 19 && Matches(q, w) ==> 0 < r <= q
    decreases 20 - rule, w
  {
    if rule == 20 then 0 else if Matches(rule, w) then rule else FirstRule(w, rule + 1)
  }

  function EarliestRule(w: seq<Byte>): (r: int)
    ensures r == 0 || (1 <= r <= 19 && Matches(r, w))
    ensures forall q :: 1 <= q <= 19 && Matches(q, w) ==> 0 < r <= q
  {
    FirstRule(w, 1)
  }

  // -------------------------------------------------------------- strings

  lemma {:induction false} BodySnoc(v: seq<Byte>, b: Byte)
    requires IsBody(v)
    ensures b != QUOTE && b != BACKSLASH ==> IsBody(v + [b])
    ensures b != NEWLINE ==> IsBody(v + [BACKSLASH, b])
    decreases |v|
  {
    if v == [] {
      assert v + [b] == [b] && [b][1..] == [];
      assert v + [BACKSLASH, b] == [BACKSLASH, b] && [BACKSLASH, b][2..] == [];
    } else {
      var k := if v[0] == BACKSLASH then 2 else 1;
      BodySnoc(v[k..], b);
      assert (v + [b])[k..] == v[k..] + [b];
      assert (v + [BACKSLASH, b])[k..] == v[k..] + [BACKSLASH, b];
    }
  }

  /** A body cannot run on over an unescaped quote or an escaped newline. */
  lemma {:induction false} BodyStops(v: seq<Byte>, y: seq<Byte>)
    requires IsBody(v)
    ensures !IsBody(v + [QUOTE] + y) && !IsBody(v + [BACKSLASH, NEWLINE] + y) && !IsBody(v + [BACKSLASH])
    decreases |v|
  {
    if v != [] {
      var k := if v[0] == BACKSLASH then 2 else 1;
      BodyStops(v[k..], y);
      assert (v + [QUOTE] + y)[k..] == v[k..] + [QUOTE] + y;
      assert (v + [BACKSLASH, NEWLINE] + y)[k..] == v[k..] + [BACKSLASH, NEWLINE] + y;
      assert (v + [BACKSLASH])[k..] == v[k..] + [BACKSLASH];
    }
  }

  // -------------------------------------------------------------- the automaton

  /** The state after the bytes of `w`, walking the tables from the start state. */
  function StateAfter(w: seq<Byte>): (s: int)
    ensures TokenState(s) && (s == 1 <==> w == [])
    decreases |w|
  {
    if w == [] then 1
    else
      var s, c := StateAfter(w[..|w| - 1]), ClassOf(w[|w| - 1]);
      WalkIsNext(s, c);
      NextIsTokenState(s, c);
      Walk(s, c)
  }

  lemma StateAfterSnoc(w: seq<Byte>, b: Byte)
    ensures StateAfter(w + [b]) == Walk(StateAfter(w), ClassOf(b)) == Next(StateAfter(w), ClassOf(b))
  {
    assert (w + [b])[..|w|] == w;
    WalkIsNext(StateAfter(w), ClassOf(b));
  }

  /** The bytes that lead from the start to a keyword state. */
  function Path(t: int): (w: seq<Byte>)
    requires t == 1 || InTrie(t)
    ensures if t == 1 then w == [] else IsIdent(w)
    decreases t
  {
    if t == 1 then []
    else
      TrieStep(t);
      ClassMeaning(Letter(t));
      Path(Parent(t)) + [Letter(t)]
  }

  /** The letter of a keyword state leads there from its parent. */
  lemma NextOfParent(t: int)
    requires InTrie(t)
    ensures TokenState(Parent(t)) && Next(Parent(t), ClassOf(Letter(t))) == t
  {
    hide Chk, Nxt, Base, Ec, Parent, PathClass, ClassByte, FirstState;
    TrieStep(t);
    if Parent(t) == 1 { StartEntries(PathClass(t)); }
  }

  lemma {:induction false} PathState(t: int)
    requires t == 1 || InTrie(t)
    ensures StateAfter(Path(t)) == t
    decreases t
  {
    hide Chk, Nxt, Base, Ec, Parent, PathClass, ClassByte, StateAfter, Walk, Next, ClassOf;
    if t != 1 {
      TrieStep(t);
      PathState(Parent(t));
      NextOfParent(t);
      StateAfterSnoc(Path(Parent(t)), Letter(t));
    }
  }

  // -------------------------------------------------------------- keywords

  function KeywordState(rule: int): (t: int)
    requires 1 <= rule <= 10
    ensures InTrie(t) && Accept(t) == rule
  {
    match rule
    case 1 => 112 case 2 => 96 case 3 => 144 case 4 => 83 case 5 => 149
    case 6 => 156 case 7 => 137 case 8 => 148 case 9 => 164 case _ => 108
  }

  /** The first `n` letters of `w` lead from state `p` to state `t`. */
  predicate Spells(p: int, t: int, w: string, n: nat)
    requires n <= |w|
    decreases n, w
  {
    if n == 0 then t == p
    else InTrie(t) && Letter(t) == w[n - 1] as int && Spells(p, Parent(t), w, n - 1)
  }

  lemma SpellsNext(p: int, u: int, t: int, w: string, n: nat)
    requires n < |w| && Spells(p, u, w, n)
    requires InTrie(t) && Parent(t) == u && Letter(t) == w[n] as int
    ensures Spells(p, t, w, n + 1)
  {
  }

  lemma {:induction false} SpellsPath(p: int, t: int, w: string, n: nat)
    requires n <= |w| && Spells(p, t, w, n) && (p == 1 || InTrie(p))
    ensures (t == 1 || InTrie(t)) && Path(t) == Path(p) + Text(w[..n])
    decreases n
  {
    hide Chk, Nxt, Base, Parent, PathClass, ClassByte;
    if n > 0 {
      TrieStep(t);
      SpellsPath(p, Parent(t), w, n - 1);
      assert Text(w[..n]) == Text(w[..n - 1]) + [w[n - 1] as int];
    } else {
      assert Text(w[..0]) == [];
    }
  }

  lemma SpellSession(w: string)
    requires w == "SESSION_"
    ensures InTrie(78) && Path(78) == Path(1) + Text(w)
  {
    assert Spells(1, 1, w, 0);
    hide Spells, Path, Text, Chk, Nxt, Base, Ec, Def;
    SpellsNext(1, 1, 16, w, 0); SpellsNext(1, 16, 29, w, 1); SpellsNext(1, 29, 37, w, 2);
    SpellsNext(1, 37, 45, w, 3); SpellsNext(1, 45, 53, w, 4); SpellsNext(1, 53, 61, w, 5);
    SpellsNext(1, 61, 69, w, 6); SpellsNext(1, 69, 78, w, 7);
    SpellsPath(1, 78, w, 8);
    assert w[..8] == w;
  }

  lemma SpellSize(w: string)
    requires w == "SIZE"
    ensures InTrie(78) && InTrie(112) && Path(112) == Path(78) + Text(w)
  {
    assert Spells(78, 78, w, 0);
    hide Spells, Path, Text, Chk, Nxt, Base, Ec, Def;
    SpellsNext(78, 78, 87, w, 0); SpellsNext(78, 87, 95, w, 1); SpellsNext(78, 95, 104, w, 2);
    SpellsNext(78, 104, 112, w, 3);
    SpellsPath(78, 112, w, 4);
    assert w[..4] == w;
  }

  lemma SpellSleepTime(w: string)
    requires w == "SLEEP_TIME"
    ensures InTrie(96) && Path(96) == Path(1) + Text(w)
  {
    assert Spells(1, 1, w, 0);
    hide Spells, Path, Text, Chk, Nxt, Base, Ec, Def;
    SpellsNext(1, 1, 16, w, 0); SpellsNext(1, 16, 30, w, 1); SpellsNext(1, 30, 38, w, 2);
    SpellsNext(1, 38, 46, w, 3); SpellsNext(1, 46, 54, w, 4); SpellsNext(1, 54, 62, w, 5);
    SpellsNext(1, 62, 70, w, 6); SpellsNext(1, 70, 79, w, 7); SpellsNext(1, 79, 88, w, 8);
    SpellsNext(1, 88, 96, w, 9);
    SpellsPath(1, 96, w, 10);
    assert w[..10] == w;
  }

  lemma SpellCircle(w: string)
    requires w == "CIRCLE_"
    ensures InTrie(64) && Path(64) == Path(1) + Text(w)
  {
    assert Spells(1, 1, w, 0);
    hide Spells, Path, Text, Chk, Nxt, Base, Ec, Def;
    SpellsNext(1, 1, 13, w, 0); SpellsNext(1, 13, 24, w, 1); SpellsNext(1, 24, 32, w, 2);
    SpellsNext(1, 32, 40, w, 3); SpellsNext(1, 40, 48, w, 4); SpellsNext(1, 48, 56, w, 5);
    SpellsNext(1, 56, 64, w, 6);
    SpellsPath(1, 64, w, 7);
    assert w[..7] == w;
  }

  lemma SpellBufferSize(w: string)
    requires w == "BUFFER_SIZE"
    ensures InTrie(64) && InTrie(144) && Path(144) == Path(64) + Text(w)
  {
    assert Spells(64, 64, w, 0);
    hide Spells, Path, Text, Chk, Nxt, Base, Ec, Def;
    SpellsNext(64, 64, 73, w, 0); SpellsNext(64, 73, 82, w, 1); SpellsNext(64, 82, 91, w, 2);
    SpellsNext(64, 91, 99, w, 3); SpellsNext(64, 99, 107, w, 4); SpellsNext(64, 107, 115, w, 5);
    SpellsNext(64, 115, 121, w, 6); SpellsNext(64, 121, 127, w, 7); SpellsNext(64, 127, 133, w, 8);
    SpellsNext(64, 133, 139, w, 9); SpellsNext(64, 139, 144, w, 10);
    SpellsPath(64, 144, w, 11);
    assert w[..11] == w;
  }

  lemma SpellMaxPorts(w: string)
    requires w == "MAX_PORTS"
    ensures InTrie(83) && Path(83) == Path(1) + Text(w)
  {
    assert Spells(1, 1, w, 0);
    hide Spells, Path, Text, Chk, Nxt, Base, Ec, Def;
    SpellsNext(1, 1, 14, w, 0); SpellsNext(1, 14, 25, w, 1); SpellsNext(1, 25, 33, w, 2);
    SpellsNext(1, 33, 41, w, 3); SpellsNext(1, 41, 49, w, 4); SpellsNext(1, 49, 57, w, 5);
    SpellsNext(1, 57, 65, w, 6); SpellsNext(1, 65, 74, w, 7); SpellsNext(1, 74, 83, w, 8);
    SpellsPath(1, 83, w, 9);
    assert w[..9] == w;
  }

  lemma SpellRealTime(w: string)
    requires w == "REAL_TIME_"
    ensures InTrie(93) && Path(93) == Path(1) + Text(w)
  {
    assert Spells(1, 1, w, 0);
    hide Spells, Path, Text, Chk, Nxt, Base, Ec, Def;
    SpellsNext(1, 1, 15, w, 0); SpellsNext(1, 15, 27, w, 1); SpellsNext(1, 27, 35, w, 2);
    SpellsNext(1, 35, 43, w, 3); SpellsNext(1, 43, 51, w, 4); SpellsNext(1, 51, 59, w, 5);
    SpellsNext(1, 59, 67, w, 6); SpellsNext(1, 67, 76, w, 7); SpellsNext(1, 76, 85, w, 8);
    SpellsNext(1, 85, 93, w, 9);
    SpellsPath(1, 93, w, 10);
    assert w[..10] == w;
  }

  lemma SpellDeadLine(w: string)
    requires w == "DEAD_LINE"
    ensures InTrie(93) && InTrie(149) && Path(149) == Path(93) + Text(w)
  {
    assert Spells(93, 93, w, 0);
    hide Spells, Path, Text, Chk, Nxt, Base, Ec, Def;
    SpellsNext(93, 93, 101, w, 0); SpellsNext(93, 101, 109, w, 1); SpellsNext(93, 109, 116, w, 2);
    SpellsNext(93, 116, 122, w, 3); SpellsNext(93, 122, 128, w, 4); SpellsNext(93, 128, 134, w, 5);
    SpellsNext(93, 134, 140, w, 6); SpellsNext(93, 140, 145, w, 7); SpellsNext(93, 145, 149, w, 8);
    SpellsPath(93, 149, w, 9);
    assert w[..9] == w;
  }

  lemma SpellUser(w: string)
    requires w == "USER_"
    ensures InTrie(93) && InTrie(129) && Path(129) == Path(93) + Text(w)
  {
    assert Spells(93, 93, w, 0);
    hide Spells, Path, Text, Chk, Nxt, Base, Ec, Def;
    SpellsNext(93, 93, 102, w, 0); SpellsNext(93, 102, 110, w, 1); SpellsNext(93, 110, 117, w, 2);
    SpellsNext(93, 117, 123, w, 3); SpellsNext(93, 123, 129, w, 4);
    SpellsPath(93, 129, w, 5);
    assert w[..5] == w;
  }

  lemma SpellDefined(w: string)
    requires w == "DEFINED"
    ensures InTrie(129) && InTrie(156) && Path(156) == Path(129) + Text(w)
  {
    assert Spells(129, 129, w, 0);
    hide Spells, Path, Text, Chk, Nxt, Base, Ec, Def;
    SpellsNext(129, 129, 135, w, 0); SpellsNext(129, 135, 141, w, 1); SpellsNext(129, 141, 146, w, 2);
    SpellsNext(129, 146, 150, w, 3); SpellsNext(129, 150, 152, w, 4); SpellsNext(129, 152, 154, w, 5);
    SpellsNext(129, 154, 156, w, 6);
    SpellsPath(129, 156, w, 7);
    assert w[..7] == w;
  }

  lemma SpellTrunk(w: string)
    requires w == "TRUNK_"
    ensures InTrie(63) && Path(63) == Path(1) + Text(w)
  {
    assert Spells(1, 1, w, 0);
    hide Spells, Path, Text, Chk, Nxt, Base, Ec, Def;
    SpellsNext(1, 1, 17, w, 0); SpellsNext(1, 17, 31, w, 1); SpellsNext(1, 31, 39, w, 2);
    SpellsNext(1, 39, 47, w, 3); SpellsNext(1, 47, 55, w, 4); SpellsNext(1, 55, 63, w, 5);
    SpellsPath(1, 63, w, 6);
    assert w[..6] == w;
  }

  lemma SpellAcceptUri(w: string)
    requires w == "ACCEPT_URI"
    ensures InTrie(63) && InTrie(137) && Path(137) == Path(63) + Text(w)
  {
    assert Spells(63, 63, w, 0);
    hide Spells, Path, Text, Chk, Nxt, Base, Ec, Def;
    SpellsNext(63, 63, 71, w, 0); SpellsNext(63, 71, 80, w, 1); SpellsNext(63, 80, 89, w, 2);
    SpellsNext(63, 89, 97, w, 3); SpellsNext(63, 97, 105, w, 4); SpellsNext(63, 105, 113, w, 5);
    SpellsNext(63, 113, 119, w, 6); SpellsNext(63, 119, 125, w, 7); SpellsNext(63, 125, 131, w, 8);
    SpellsNext(63, 131, 137, w, 9);
    SpellsPath(63, 137, w, 10);
    assert w[..10] == w;
  }

  lemma SpellDispatch(w: string)
    requires w == "DISPATCH_"
    ensures InTrie(63) && InTrie(132) && Path(132) == Path(63) + Text(w)
  {
    assert Spells(63, 63, w, 0);
    hide Spells, Path, Text, Chk, Nxt, Base, Ec, Def;
    SpellsNext(63, 63, 72, w, 0); SpellsNext(63, 72, 81, w, 1); SpellsNext(63, 81, 90, w, 2);
    SpellsNext(63, 90, 98, w, 3); SpellsNext(63, 98, 106, w, 4); SpellsNext(63, 106, 114, w, 5);
    SpellsNext(63, 114, 120, w, 6); SpellsNext(63, 120, 126, w, 7); SpellsNext(63, 126, 132, w, 8);
    SpellsPath(63, 132, w, 9);
    assert w[..9] == w;
  }

  lemma SpellUri(w: string)
    requires w == "URI"
    ensures InTrie(132) && InTrie(148) && Path(148) == Path(132) + Text(w)
  {
    assert Spells(132, 132, w, 0);
    hide Spells, Path, Text, Chk, Nxt, Base, Ec, Def;
    SpellsNext(132, 132, 138, w, 0); SpellsNext(132, 138, 143, w, 1); SpellsNext(132, 143, 148, w, 2);
    SpellsPath(132, 148, w, 3);
    assert w[..3] == w;
  }

  lemma SpellScheduler(w: string)
    requires w == "SCHEDULER_"
    ensures InTrie(94) && Path(94) == Path(1) + Text(w)
  {
    assert Spells(1, 1, w, 0);
    hide Spells, Path, Text, Chk, Nxt, Base, Ec, Def;
    SpellsNext(1, 1, 16, w, 0); SpellsNext(1, 16, 28, w, 1); SpellsNext(1, 28, 36, w, 2);
    SpellsNext(1, 36, 44, w, 3); SpellsNext(1, 44, 52, w, 4); SpellsNext(1, 52, 60, w, 5);
    SpellsNext(1, 60, 68, w, 6); SpellsNext(1, 68, 77, w, 7); SpellsNext(1, 77, 86, w, 8);
    SpellsNext(1, 86, 94, w, 9);
    SpellsPath(1, 94, w, 10);
    assert w[..10] == w;
  }

  lemma SpellPreemptive(w: string)
    requires w == "PREEMPTIVE_"
    ensures InTrie(94) && InTrie(155) && Path(155) == Path(94) + Text(w)
  {
    assert Spells(94, 94, w, 0);
    hide Spells, Path, Text, Chk, Nxt, Base, Ec, Def;
    SpellsNext(94, 94, 103, w, 0); SpellsNext(94, 103, 111, w, 1); SpellsNext(94, 111, 118, w, 2);
    SpellsNext(94, 118, 124, w, 3); SpellsNext(94, 124, 130, w, 4); SpellsNext(94, 130, 136, w, 5);
    SpellsNext(94, 136, 142, w, 6); SpellsNext(94, 142, 147, w, 7); SpellsNext(94, 147, 151, w, 8);
    SpellsNext(94, 151, 153, w, 9); SpellsNext(94, 153, 155, w, 10);
    SpellsPath(94, 155, w, 11);
    assert w[..11] == w;
  }

  lemma SpellDeadline(w: string)
    requires w == "DEADLINE"
    ensures InTrie(155) && InTrie(164) && Path(164) == Path(155) + Text(w)
  {
    assert Spells(155, 155, w, 0);
    hide Spells, Path, Text, Chk, Nxt, Base, Ec, Def;
    SpellsNext(155, 155, 157, w, 0); SpellsNext(155, 157, 158, w, 1); SpellsNext(155, 158, 159, w, 2);
    SpellsNext(155, 159, 160, w, 3); SpellsNext(155, 160, 161, w, 4); SpellsNext(155, 161, 162, w, 5);
    SpellsNext(155, 162, 163, w, 6); SpellsNext(155, 163, 164, w, 7);
    SpellsPath(155, 164, w, 8);
    assert w[..8] == w;
  }

  lemma SpellRbLog(w: string)
    requires w == "RB_LOG_"
    ensures InTrie(66) && Path(66) == Path(1) + Text(w)
  {
    assert Spells(1, 1, w, 0);
    hide Spells, Path, Text, Chk, Nxt, Base, Ec, Def;
    SpellsNext(1, 1, 15, w, 0); SpellsNext(1, 15, 26, w, 1); SpellsNext(1, 26, 34, w, 2);
    SpellsNext(1, 34, 42, w, 3); SpellsNext(1, 42, 50, w, 4); SpellsNext(1, 50, 58, w, 5);
    SpellsNext(1, 58, 66, w, 6);
    SpellsPath(1, 66, w, 7);
    assert w[..7] == w;
  }

  lemma SpellLevel(w: string)
    requires w == "LEVEL"
    ensures InTrie(66) && InTrie(108) && Path(108) == Path(66) + Text(w)
  {
    assert Spells(66, 66, w, 0);
    hide Spells, Path, Text, Chk, Nxt, Base, Ec, Def;
    SpellsNext(66, 66, 75, w, 0); SpellsNext(66, 75, 84, w, 1); SpellsNext(66, 84, 92, w, 2);
    SpellsNext(66, 92, 100, w, 3); SpellsNext(66, 100, 108, w, 4);
    SpellsPath(66, 108, w, 5);
    assert w[..5] == w;
  }

  lemma TextConcat(v: string, w: string)
    ensures Text(v + w) == Text(v) + Text(w)
  {
  }

  lemma TextConcat3(u: string, v: string, w: string)
    ensures Text(u + v + w) == Text(u) + Text(v) + Text(w)
  {
  }

  lemma PathSessionSize()
    ensures InTrie(112) && Path(112) == Text("SESSION_" + "SIZE")
  {
    hide Path, Text, Parent, PathClass;
    SpellSession("SESSION_"); SpellSize("SIZE");
    TextConcat("SESSION_", "SIZE");
  }

  lemma PathSleepTime()
    ensures InTrie(96) && Path(96) == Text("SLEEP_TIME")
  {
    hide Path, Text, Parent, PathClass;
    SpellSleepTime("SLEEP_TIME");
  }

  lemma PathCircleBufferSize()
    ensures InTrie(144) && Path(144) == Text("CIRCLE_" + "BUFFER_SIZE")
  {
    hide Path, Text, Parent, PathClass;
    SpellCircle("CIRCLE_"); SpellBufferSize("BUFFER_SIZE");
    TextConcat("CIRCLE_", "BUFFER_SIZE");
  }

  lemma PathMaxPorts()
    ensures InTrie(83) && Path(83) == Text("MAX_PORTS")
  {
    hide Path, Text, Parent, PathClass;
    SpellMaxPorts("MAX_PORTS");
  }

  lemma PathRealTimeDeadLine()
    ensures InTrie(149) && Path(149) == Text("REAL_TIME_" + "DEAD_LINE")
  {
    hide Path, Text, Parent, PathClass;
    SpellRealTime("REAL_TIME_"); SpellDeadLine("DEAD_LINE");
    TextConcat("REAL_TIME_", "DEAD_LINE");
  }

  lemma PathRealTimeUserDefined()
    ensures InTrie(156) && Path(156) == Text("REAL_TIME_" + "USER_" + "DEFINED")
  {
    hide Path, Text, Parent, PathClass;
    SpellRealTime("REAL_TIME_"); SpellUser("USER_"); SpellDefined("DEFINED");
    TextConcat3("REAL_TIME_", "USER_", "DEFINED");
  }

  lemma PathTrunkAcceptUri()
    ensures InTrie(137) && Path(137) == Text("TRUNK_" + "ACCEPT_URI")
  {
    hide Path, Text, Parent, PathClass;
    SpellTrunk("TRUNK_"); SpellAcceptUri("ACCEPT_URI");
    TextConcat("TRUNK_", "ACCEPT_URI");
  }

  lemma PathTrunkDispatchUri()
    ensures InTrie(148) && Path(148) == Text("TRUNK_" + "DISPATCH_" + "URI")
  {
    hide Path, Text, Parent, PathClass;
    SpellTrunk("TRUNK_"); SpellDispatch("DISPATCH_"); SpellUri("URI");
    TextConcat3("TRUNK_", "DISPATCH_", "URI");
  }

  lemma PathSchedulerPreemptiveDeadline()
    ensures InTrie(164) && Path(164) == Text("SCHEDULER_" + "PREEMPTIVE_" + "DEADLINE")
  {
    hide Path, Text, Parent, PathClass;
    SpellScheduler("SCHEDULER_"); SpellPreemptive("PREEMPTIVE_"); SpellDeadline("DEADLINE");
    TextConcat3("SCHEDULER_", "PREEMPTIVE_", "DEADLINE");
  }

  lemma PathRbLogLevel()
    ensures InTrie(108) && Path(108) == Text("RB_LOG_" + "LEVEL")
  {
    hide Path, Text, Parent, PathClass;
    SpellRbLog("RB_LOG_"); SpellLevel("LEVEL");
    TextConcat("RB_LOG_", "LEVEL");
  }

  /** The path to a keyword's state spells the keyword. */
  lemma KeywordPath(rule: int)
    requires 1 <= rule <= 10
    ensures Path(KeywordState(rule)) == Text(Keyword(rule))
  {
    hide Path, Text, Parent, PathClass;
    match rule
    case 1 => PathSessionSize();
    case 2 => PathSleepTime();
    case 3 => PathCircleBufferSize();
    case 4 => PathMaxPorts();
    case 5 => PathRealTimeDeadLine();
    case 6 => PathRealTimeUserDefined();
    case 7 => PathTrunkAcceptUri();
    case 8 => PathTrunkDispatchUri();
    case 9 => PathSchedulerPreemptiveDeadline();
    case _ => PathRbLogLevel();
  }
}
