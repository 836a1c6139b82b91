/**
The configuration console, `src/parser/console.c`, over the scanner: what the tokens of a file
set, and what becomes of a printed configuration.
*/
module Console {
  import opened Bytes
  import opened ScannerStates
  import opened ScannerRules
  import opened MaximalMunch
  import opened BufferedScanner
  import opened ConfigText

  const URI_SIZE := 0x40
  const TWO16 := 0x1_0000
  const TWO32 := 0x1_0000_0000
  const TWO64 := 0x1_0000_0000_0000_0000

  /** `struct cfg_server_server`. */
  datatype Config = Config(
    schedulerPreemptiveDeadline: nat,
    realTimeDeadLine: nat,
    realTimeUserDefined: nat,
    circleBufferSize: nat,
    sleepTime: nat,
    sessionSize: nat,
    maxPorts: nat,
    logLevel: nat,
    acceptUri: seq<Byte>,
    dispatchUri: seq<Byte>)

  /** `current_setting`: the keyword seen last, by its rule, or 0. */
  datatype State = State(cfg: Config, setting: int)

  // -------------------------------------------------------------- values

  /** The bytes before the first NUL. */
  function CString(s: seq<Byte>): (r: seq<Byte>)
    ensures r <= s && 0 !in r && (r == s || s[|r|] == 0)
  {
    if s == [] || s[0] == 0 then [] else [s[0]] + CString(s[1..])
  }

  lemma {:induction false} CStringOf(r: seq<Byte>, s: seq<Byte>)
    requires r <= s && 0 !in r && (r == s || s[|r|] == 0)
    ensures CString(s) == r
  {
    if r != [] {
      CStringOf(r[1..], s[1..]);
      assert r == [s[0]] + r[1..];
    }
  }

  /** `unquote_string`: the bytes between the quotes, as far as they fit, over the old contents. */
  function Unquote(dest: seq<Byte>, input: seq<Byte>): (r: seq<Byte>)
    requires |dest| > 0
    ensures |r| == |dest| && 0 in r
  {
    var s := CString(input);
    if |s| >= 2 && s[0] == QUOTE && s[|s| - 1] == QUOTE then
      var n := if |s| - 2 >= |dest| then |dest| - 1 else |s| - 2;
      var t := s[1..1 + n] + [0] + dest[n + 1..];
      assert t[n] == 0;
      t
    else
      var n := if |s| >= |dest| then |dest| - 1 else |s|;
      var t := s[..n] + seq(|dest| - n, i => 0);
      assert t[n] == 0;
      t
  }

  /** `strtoull`, which stops at the largest value. */
  function Strtoull(v: nat): (r: nat) { if v < TWO64 then v else TWO64 - 1 }

  /** `atoi` cast to an unsigned type of `size` values, no more than an `int` has. */
  function Atoi(v: nat, size: nat): (r: nat)
    requires size > 0
    ensures r < size && (v < size <= TWO32 ==> r == v)
  {
    var w := if v < TWO64 / 2 then v else TWO64 / 2 - 1;
    if w < size then w else w % size
  }

  // -------------------------------------------------------------- handle_token

  function SetNumber(cfg: Config, setting: int, v: nat): (r: Config) {
    match setting
    case 1 => cfg.(sessionSize := Atoi(v, TWO16))
    case 2 => cfg.(sleepTime := Atoi(v, TWO16))
    case 3 => cfg.(circleBufferSize := Atoi(v, TWO32))
    case 4 => cfg.(maxPorts := Atoi(v, TWO16))
    case 5 => cfg.(realTimeDeadLine := Strtoull(v))
    case 6 => cfg.(realTimeUserDefined := Strtoull(v))
    case 9 => cfg.(schedulerPreemptiveDeadline := Strtoull(v))
    case 10 => cfg.(logLevel := Atoi(v, 0x100))
    case _ => cfg
  }

  function SetString(cfg: Config, setting: int, text: seq<Byte>): (r: Config)
    requires HasUris(cfg)
    ensures HasUris(r)
  {
    match setting
    case 7 => cfg.(acceptUri := Unquote(cfg.acceptUri, text))
    case 8 => cfg.(dispatchUri := Unquote(cfg.dispatchUri, text))
    case _ => cfg
  }

  predicate HasUris(cfg: Config) { |cfg.acceptUri| == URI_SIZE && |cfg.dispatchUri| == URI_SIZE }

  function Handle(s: State, t: Token): (r: State)
    requires HasUris(s.cfg)
    ensures HasUris(r.cfg)
  {
    if 1 <= t.rule <= 10 then s.(setting := t.rule)
    else if t.rule == 11 then State(SetNumber(s.cfg, s.setting, Decimal(t.lexeme)), 0)
    else if t.rule == 16 then State(SetString(s.cfg, s.setting, t.lexeme), 0)
    else s
  }

  function HandleAll(s: State, ts: seq<Token>): (r: State)
    requires HasUris(s.cfg)
    ensures HasUris(r.cfg)
    decreases |ts|
  {
    if ts == [] then s else HandleAll(Handle(s, ts[0]), ts[1..])
  }

  // -------------------------------------------------------------- what a token leaves alone

  /** A number is cut to the width of its field, from the largest `long` if it is beyond that. */
  lemma AtoiIs(v: nat, size: nat)
    requires size == 0x100 || size == 0x1_0000 || size == 0x1_0000_0000
    ensures Atoi(v, size) == if v < 0x8000_0000_0000_0000 then v % size else size - 1
  {
    var w := if v < 0x8000_0000_0000_0000 then v else 0x7FFF_FFFF_FFFF_FFFF;
    if size == 0x100 {
      assert Atoi(v, 0x100) == w % 0x100;
    } else if size == 0x1_0000 {
      assert Atoi(v, 0x1_0000) == w % 0x1_0000;
    } else {
      assert Atoi(v, 0x1_0000_0000) == w % 0x1_0000_0000;
    }
    hide Atoi;
  }

  /** A number after a keyword changes the setting of that keyword and no other; after a URI's, or none, nothing. */
  lemma NumberSetsOne(cfg: Config, setting: int, v: nat)
    ensures var r := SetNumber(cfg, setting, v);
            var long := if v < 0x1_0000_0000_0000_0000 then v else 0xFFFF_FFFF_FFFF_FFFF;
            && (setting == 1 ==> r == cfg.(sessionSize := Atoi(v, 0x1_0000)))
            && (setting == 2 ==> r == cfg.(sleepTime := Atoi(v, 0x1_0000)))
            && (setting == 3 ==> r == cfg.(circleBufferSize := Atoi(v, 0x1_0000_0000)))
            && (setting == 4 ==> r == cfg.(maxPorts := Atoi(v, 0x1_0000)))
            && (setting == 5 ==> r == cfg.(realTimeDeadLine := long))
            && (setting == 6 ==> r == cfg.(realTimeUserDefined := long))
            && (setting == 9 ==> r == cfg.(schedulerPreemptiveDeadline := long))
            && (setting == 10 ==> r == cfg.(logLevel := Atoi(v, 0x100)))
            && (setting !in {1, 2, 3, 4, 5, 6, 9, 10} ==> r == cfg)
  {
  }

  /** A string after a URI's keyword changes that URI and nothing else; after another, or none, nothing. */
  lemma StringSetsOne(cfg: Config, setting: int, text: seq<Byte>)
    requires HasUris(cfg)
    ensures var r := SetString(cfg, setting, text);
            && (setting == 7 ==> r == cfg.(acceptUri := r.acceptUri))
            && (setting == 8 ==> r == cfg.(dispatchUri := r.dispatchUri))
            && (setting != 7 && setting != 8 ==> r == cfg)
  {
  }

  /** A value of the wrong kind for its keyword sets nothing, and uses the keyword up. */
  lemma WrongKindSetsNothing(s: State, t: Token)
    requires HasUris(s.cfg)
    requires (t.rule == 11 && s.setting in {0, 7, 8}) || (t.rule == 16 && s.setting !in {7, 8})
    ensures Handle(s, t) == State(s.cfg, 0)
  {
  }

  /** Neither do marks, other identifiers and stray bytes set anything, and the keyword stays. */
  lemma OtherTokensSetNothing(s: State, t: Token)
    requires HasUris(s.cfg) && t.rule !in {1, 2, 3, 4, 5, 6, 7, 8, 9, 10, 11, 16}
    ensures Handle(s, t) == s
  {
  }

  // -------------------------------------------------------------- what a configuration text means

  /** A statement sets one value, whatever was set before. */
  function Assign(cfg: Config, s: Statement): (r: Config)
    requires HasUris(cfg)
    ensures HasUris(r)
  {
    if s.value.Number? then SetNumber(cfg, s.keyword, s.value.n) else SetString(cfg, s.keyword, StringText(s.value.s))
  }

  function AssignAll(cfg: Config, ps: seq<LaidOut>): (r: Config)
    requires HasUris(cfg)
    ensures HasUris(r)
    decreases |ps|
  {
    if ps == [] then cfg else AssignAll(Assign(cfg, ps[0].statement), ps[1..])
  }

  lemma HandleNone(s: State)
    requires HasUris(s.cfg)
    ensures HandleAll(s, []) == s
  {
  }

  lemma HandleFirst(s: State, t: Token, ts: seq<Token>)
    requires HasUris(s.cfg)
    ensures HandleAll(s, [t] + ts) == HandleAll(Handle(s, t), ts)
  {
    assert ([t] + ts)[1..] == ts;
  }

  lemma StatementTakesEffect(s: State, p: Statement, ts: seq<Token>)
    requires HasUris(s.cfg)
    ensures HandleAll(s, Tokens(p) + ts) == HandleAll(State(Assign(s.cfg, p), 0), ts)
  {
    hide Text, Keyword, ValueText, StringText, HandleAll, SetNumber, SetString;
    var us := Tokens(p);
    assert us + ts == [us[0]] + ([us[1]] + ([us[2]] + ts));
    var s1 := Handle(s, us[0]);
    var s2 := Handle(s1, us[1]);
    HandleFirst(s, us[0], [us[1]] + ([us[2]] + ts));
    HandleFirst(s1, us[1], [us[2]] + ts);
    HandleFirst(s2, us[2], ts);
    ValueTextOf(p.value);
    if p.value.Number? { DecimalOfDigits(p.value.n); }
  }

  lemma ValueTextOf(v: Value)
    ensures if v.Number? then ValueText(v) == Digits(v.n) else ValueText(v) == StringText(v.s)
  {
  }

  /** Reading a text printed in any layout carries out its statements in order. */
  lemma {:induction false} StatementsTakeEffect(s: State, ps: seq<LaidOut>)
    requires HasUris(s.cfg)
    ensures HandleAll(s, Visible(Lex(Print(ps))))
            == State(AssignAll(s.cfg, ps), if ps == [] then s.setting else 0)
    decreases |ps|
  {
    PrintThenScan(ps);
    if ps != [] {
      PrintThenScan(ps[1..]);
      StatementTakesEffect(s, ps[0].statement, AllTokens(ps[1..]));
      StatementsTakeEffect(State(Assign(s.cfg, ps[0].statement), 0), ps[1..]);
    }
  }

  // -------------------------------------------------------------- the round trip of a URI

  lemma UnquoteOf(dest: seq<Byte>, v: seq<Byte>)
    requires |dest| > 0 && 0 !in v
    ensures var n := if |v| >= |dest| then |dest| - 1 else |v|;
            Unquote(dest, [QUOTE] + v + [QUOTE]) == v[..n] + [0] + dest[n + 1..]
  {
    var w := [QUOTE] + v + [QUOTE];
    var n := if |v| >= |dest| then |dest| - 1 else |v|;
    CStringOf(w, w);
    assert w[1..1 + n] == v[..n];
  }

  /**
  For every input: what `unquote_string` stores is the text before the first NUL, without the quotes if
  it is in quotes, and as far as it fits.  What stood behind stays after a quoted text, and is
  cleared after any other.
  */
  lemma UnquoteIs(dest: seq<Byte>, input: seq<Byte>)
    requires |dest| > 0
    ensures var s, r := CString(input), Unquote(dest, input);
            var quoted := |s| >= 2 && s[0] == QUOTE && s[|s| - 1] == QUOTE;
            var inner := if quoted then s[1..|s| - 1] else s;
            var n := if |inner| < |dest| then |inner| else |dest| - 1;
            && CString(r) == inner[..n]
            && forall k :: n < k < |dest| ==> r[k] == if quoted then dest[k] else 0
  {
    hide CString;
    var s := CString(input);
    var quoted := |s| >= 2 && s[0] == QUOTE && s[|s| - 1] == QUOTE;
    var inner := if quoted then s[1..|s| - 1] else s;
    var n := if |inner| < |dest| then |inner| else |dest| - 1;
    var behind := if quoted then dest[n + 1..] else seq(|dest| - n - 1, i => 0);
    UnquotePieces(dest, input, inner, n, behind);
    hide Unquote;
    NoNulInside(s, quoted, n);
    TextThenNul(inner[..n], behind);
  }

  lemma NoNulInside(s: seq<Byte>, quoted: bool, n: nat)
    requires 0 !in s && (quoted ==> |s| >= 2)
    requires n <= |if quoted then s[1..|s| - 1] else s|
    ensures 0 !in (if quoted then s[1..|s| - 1] else s)[..n]
  {
  }

  lemma TextThenNul(v: seq<Byte>, behind: seq<Byte>)
    requires 0 !in v
    ensures var r := v + [0] + behind;
            CString(r) == v && forall k :: |v| < k < |r| ==> r[k] == behind[k - |v| - 1]
  {
    CStringOf(v, v + [0] + behind);
  }

  lemma UnquotePieces(dest: seq<Byte>, input: seq<Byte>, inner: seq<Byte>, n: nat, behind: seq<Byte>)
    requires |dest| > 0 && n == if |inner| < |dest| then |inner| else |dest| - 1
    requires var s := CString(input);
             if |s| >= 2 && s[0] == QUOTE && s[|s| - 1] == QUOTE
             then inner == s[1..|s| - 1] && behind == dest[n + 1..]
             else inner == s && behind == seq(|dest| - n - 1, i => 0)
    ensures Unquote(dest, input) == inner[..n] + [0] + behind
  {
    hide CString;
    var s := CString(input);
    if |s| >= 2 && s[0] == QUOTE && s[|s| - 1] == QUOTE {
      assert s[1..1 + n] == inner[..n];
    } else {
      assert seq(|dest| - n, i => 0) == [0] + behind;
    }
  }

  lemma StringTextIs(s: seq<Byte>)
    ensures StringText(s) == [QUOTE] + Escape(s) + [QUOTE]
  {
  }

  /** What the console stores for a quoted URI: its escaped form, as far as it fits. */
  lemma StoredUri(dest: seq<Byte>, s: seq<Byte>)
    requires |dest| > 0 && 0 !in s
    ensures var v := Escape(s);
            CString(Unquote(dest, StringText(s))) == if |v| < |dest| then v else v[..|dest| - 1]
  {
    hide Unquote, CString, Escape, StringText;
    var v := Escape(s);
    StringTextIs(s);
    EscapeHasNoNul(s);
    UnquoteOf(dest, v);
    var n := if |v| >= |dest| then |dest| - 1 else |v|;
    CStringOf(v[..n], v[..n] + [0] + dest[n + 1..]);
  }

  lemma {:induction false} EscapeHasNoNul(s: seq<Byte>)
    requires 0 !in s
    ensures 0 !in Escape(s)
  {
    if s != [] { EscapeHasNoNul(s[1..]); }
  }

  /** No quotes, and no backslash that anything but backslashes follows. */
  predicate TrailingBackslashes(s: seq<Byte>) {
    QUOTE !in s && forall i, j :: 0 <= i < j < |s| && s[i] == BACKSLASH ==> s[j] == BACKSLASH
  }

  /** Escaping leaves the beginning of a text as it is exactly when its backslashes all trail. */
  lemma {:induction false} EscapePrefix(s: seq<Byte>)
    ensures Escape(s)[..|s|] == s <==> TrailingBackslashes(s)
  {
    if s != [] {
      var v, t := Escape(s), s[1..];
      EscapePrefix(t);
      if s[0] == QUOTE {
        assert v[0] == BACKSLASH;
        assert s[0] in s;
      } else if s[0] == BACKSLASH {
        BackslashPrefix(s);
      } else {
        assert v[1..] == Escape(t);
        assert v[..|s|] == [s[0]] + Escape(t)[..|t|] && s == [s[0]] + t;
        if TrailingBackslashes(s) { assert forall i :: 0 <= i < |t| ==> t[i] == s[i + 1]; }
      }
    }
  }

  /** After a first backslash, each escaped byte must be the byte before it. */
  lemma BackslashPrefix(s: seq<Byte>)
    requires s != [] && s[0] == BACKSLASH
    ensures Escape(s)[..|s|] == s <==> TrailingBackslashes(s)
  {
    var v := Escape(s);
    if v[..|s|] == s {
      AllBackslashes(s, |s|);
    }
    if TrailingBackslashes(s) {
      assert forall j :: 0 <= j < |s| ==> s[j] == BACKSLASH;
      EscapedBackslashes(s);
      assert v[..|s|] == s;
    }
  }

  lemma {:induction false} EscapedBackslashes(s: seq<Byte>)
    requires forall j :: 0 <= j < |s| ==> s[j] == BACKSLASH
    ensures forall j :: 0 <= j < |Escape(s)| ==> Escape(s)[j] == BACKSLASH
  {
    if s != [] { EscapedBackslashes(s[1..]); }
  }

  /** The escape of `k` backslashes is twice as long, so a text that starts like its escape has one more. */
  lemma {:induction false} AllBackslashes(s: seq<Byte>, k: nat)
    requires s != [] && s[0] == BACKSLASH && Escape(s)[..|s|] == s && k <= |s|
    ensures forall j :: 0 <= j < k ==> s[j] == BACKSLASH
    decreases k
  {
    if k > 1 {
      AllBackslashes(s, k - 1);
      EscapeOfRun(s, k - 1);
      assert Escape(s)[k - 1] == Escape(s)[..|s|][k - 1] == s[k - 1];
    }
  }

  lemma {:induction false} EscapeOfRun(s: seq<Byte>, k: nat)
    requires 0 < k <= |s| && forall j :: 0 <= j < k ==> s[j] == BACKSLASH
    ensures |Escape(s)| >= 2 * k && forall j :: 0 <= j < 2 * k ==> Escape(s)[j] == BACKSLASH
    decreases k
  {
    if k > 1 {
      EscapeOfRun(s[1..], k - 1);
      assert Escape(s) == [BACKSLASH, BACKSLASH] + Escape(s[1..]);
    }
  }

  /** The URIs that come back: those that fit without escapes, or that lose just the escapes where they are cut. */
  predicate Survives(s: seq<Byte>, size: nat)
    requires size > 0
  {
    || (QUOTE !in s && BACKSLASH !in s && |s| < size)
    || (TrailingBackslashes(s) && |s| == size - 1)
  }

  /** The console strips quotes but not escapes: every URI is stored as it was exactly when it survives. */
  lemma UriSurvivesIff(dest: seq<Byte>, s: seq<Byte>)
    requires |dest| > 0 && 0 !in s
    ensures CString(Unquote(dest, StringText(s))) == s <==> Survives(s, |dest|)
  {
    hide CString, Unquote, StringText, Escape, TrailingBackslashes;
    var v := Escape(s);
    StoredUri(dest, s);
    EscapeIsIdentity(s);
    EscapePrefix(s);
    if |v| < |dest| {
      if |s| == |dest| - 1 { assert v[..|s|] == v; }
    } else if v == s {
    } else if |s| == |dest| - 1 {
      assert v[..|dest| - 1] == v[..|s|];
    }
  }

  // -------------------------------------------------------------- the round trip of a configuration

  /** Every value in the range of its field, and URIs that survive. */
  predicate InRange(c: Config) {
    && c.schedulerPreemptiveDeadline < 0x1_0000_0000_0000_0000
    && c.realTimeDeadLine < 0x1_0000_0000_0000_0000 && c.realTimeUserDefined < 0x1_0000_0000_0000_0000
    && c.circleBufferSize < 0x1_0000_0000 && c.sleepTime < 0x1_0000 && c.sessionSize < 0x1_0000
    && c.maxPorts < 0x1_0000 && c.logLevel < 0x100
    && HasUris(c) && SoundUri(c.acceptUri) && SoundUri(c.dispatchUri)
  }

  predicate SoundUri(uri: seq<Byte>) {
    Survives(CString(uri), 0x40)
  }

  /** The statements of `etc/dmmr_orbit.conf`, in its order. */
  function Setting(c: Config, i: nat): (p: Statement) {
    match i
    case 0 => Statement(9, Number(c.schedulerPreemptiveDeadline))
    case 1 => Statement(2, Number(c.sleepTime))
    case 2 => Statement(1, Number(c.sessionSize))
    case 3 => Statement(3, Number(c.circleBufferSize))
    case 4 => Statement(4, Number(c.maxPorts))
    case 5 => Statement(5, Number(c.realTimeDeadLine))
    case 6 => Statement(6, Number(c.realTimeUserDefined))
    case 7 => Statement(7, Quoted(CString(c.acceptUri)))
    case 8 => Statement(8, Quoted(CString(c.dispatchUri)))
    case _ => Statement(10, Number(c.logLevel))
  }

  /** A configuration file with all settings, one on a line. */
  function Lines(c: Config): (ps: seq<LaidOut>) {
    seq(10, (i: nat) => Layout(Setting(c, i), [' ' as int], [], [NEWLINE]))
  }

  /** The same settings; what follows the end of a URI does not matter. */
  predicate Same(c: Config, d: Config) {
    && c.(acceptUri := [], dispatchUri := []) == d.(acceptUri := [], dispatchUri := [])
    && CString(c.acceptUri) == CString(d.acceptUri) && CString(c.dispatchUri) == CString(d.dispatchUri)
  }

  /** The first `i` settings of `Lines` are what the console makes of their values. */
  predicate Settled(d: Config, c: Config, i: nat) {
    && HasUris(d)
    && (i > 0 ==> d.schedulerPreemptiveDeadline == Strtoull(c.schedulerPreemptiveDeadline))
    && (i > 1 ==> d.sleepTime == Atoi(c.sleepTime, TWO16))
    && (i > 2 ==> d.sessionSize == Atoi(c.sessionSize, TWO16))
    && (i > 3 ==> d.circleBufferSize == Atoi(c.circleBufferSize, TWO32))
    && (i > 4 ==> d.maxPorts == Atoi(c.maxPorts, TWO16))
    && (i > 5 ==> d.realTimeDeadLine == Strtoull(c.realTimeDeadLine))
    && (i > 6 ==> d.realTimeUserDefined == Strtoull(c.realTimeUserDefined))
    && (i > 7 ==> (CString(d.acceptUri) == CString(c.acceptUri) <==> SoundUri(c.acceptUri)))
    && (i > 8 ==> (CString(d.dispatchUri) == CString(c.dispatchUri) <==> SoundUri(c.dispatchUri)))
    && (i > 9 ==> d.logLevel == Atoi(c.logLevel, 0x100))
  }

  lemma SettingSettles(d: Config, c: Config, i: nat)
    requires HasUris(c) && i < 10 && Settled(d, c, i)
    ensures Settled(Assign(d, Setting(c, i)), c, i + 1)
  {
    hide Unquote, CString, StringText, Survives, Atoi, Strtoull;
    if i == 7 {
      UriSurvivesIff(d.acceptUri, CString(c.acceptUri));
    } else if i == 8 {
      UriSurvivesIff(d.dispatchUri, CString(c.dispatchUri));
    }
  }

  /** Setting everything leaves nothing of what was set before. */
  lemma {:induction false} AllSettings(d: Config, c: Config, i: nat)
    requires HasUris(c) && HasUris(d) && i <= 10 && Settled(d, c, i)
    ensures Settled(AssignAll(d, Lines(c)[i..]), c, 10)
    decreases 10 - i
  {
    hide Assign, Setting, Settled, HasUris;
    if i < 10 {
      var ps := Lines(c)[i..];
      assert ps[1..] == Lines(c)[i + 1..];
      SettingSettles(d, c, i);
      AllSettings(Assign(d, Setting(c, i)), c, i + 1);
    }
  }

  /** What was settled is what was meant exactly for values in range. */
  lemma SettledIsSameIff(d: Config, c: Config)
    requires HasUris(c) && Settled(d, c, 10)
    ensures Same(d, c) <==> InRange(c)
  {
    hide CString, Survives, Unquote;
  }

  /**
  Printing a configuration and loading the text gives the configuration back, whatever was set
  before, if and only if every value is in the range of its field and both URIs survive.
  */
  lemma ConfigRoundTripIff(s: State, c: Config)
    requires HasUris(s.cfg) && HasUris(c)
    ensures Same(HandleAll(s, Visible(Lex(Print(Lines(c))))).cfg, c) <==> InRange(c)
  {
    hide AssignAll, HandleAll, Print, InRange, Settled;
    StatementsTakeEffect(s, Lines(c));
    StartSettled(s.cfg, c);
    AllSettings(s.cfg, c, 0);
    assert Lines(c)[0..] == Lines(c);
    SettledIsSameIff(AssignAll(s.cfg, Lines(c)), c);
  }

  lemma StartSettled(d: Config, c: Config)
    requires HasUris(d)
    ensures Settled(d, c, 0)
  {
  }

  // -------------------------------------------------------------- the console

  class Settings {
    var state: State

    constructor (cfg: Config)
      ensures state == State(cfg, 0)
    {
      state := State(cfg, 0);
    }

    /** `console_setup` forgets the keyword seen last. */
    method Clear()
      modifies this
      ensures state == old(state).(setting := 0)
    {
      state := state.(setting := 0);
    }

    method HandleToken(rule: int, text: seq<Byte>)
      requires HasUris(state.cfg)
      modifies this
      ensures state == Handle(old(state), Token(rule, text))
    {
      if 1 <= rule <= 10 {
        state := state.(setting := rule);
      } else if rule == 11 {
        state := state.(cfg := SetNumber(state.cfg, state.setting, Decimal(text)));
        state := state.(setting := 0);
      } else if rule == 16 {
        state := state.(cfg := SetString(state.cfg, state.setting, text));
        state := state.(setting := 0);
      }
    }

    lemma EndsValid(scanner: Scanner)
      ensures scanner.AtEnd() ==> scanner.Valid() && scanner.Remaining() == []
    {
    }

    /** `console_run`: every token up to the end of the file is handled, in order. */
    method Run(scanner: Scanner)
      requires HasUris(state.cfg) && scanner.Valid()
      modifies this, scanner, scanner.chBuf
      ensures scanner.AtEnd() && (scanner.chBuf == old(scanner.chBuf) || fresh(scanner.chBuf))
      ensures state == HandleAll(old(state), Visible(Lex(old(scanner.Remaining()))))
      ensures scanner.lineno == old(scanner.lineno) + Newlines(old(scanner.Remaining()))
    {
      hide Lex, Visible, Newlines, Handle, HandleAll, TokenCode;
      hide Scanner.Remaining, Scanner.Valid, Scanner.YyText;
      EndsValid(scanner);
      while true
        invariant scanner.Valid() && (scanner.chBuf == old(scanner.chBuf) || fresh(scanner.chBuf))
        invariant HasUris(state.cfg)
        invariant HandleAll(state, Visible(Lex(scanner.Remaining())))
                  == HandleAll(old(state), Visible(Lex(old(scanner.Remaining()))))
        invariant scanner.lineno + Newlines(scanner.Remaining())
                  == old(scanner.lineno) + Newlines(old(scanner.Remaining()))
        decreases |Visible(Lex(scanner.Remaining()))|
      {
        ghost var ts := Visible(Lex(scanner.Remaining()));
        var code, rule := scanner.Yylex();
        if code == 0 {
          TextEnd();
          HandleNone(state);
          return;
        }
        assert ts == [ts[0]] + ts[1..];
        HandleFirst(state, ts[0], ts[1..]);
        var text := scanner.TokenText();
        HandleToken(rule, text);
      }
    }
  }
}
