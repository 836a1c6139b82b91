/**
The scanner of `src/parser/scanner.c` as it runs: a table walk over a buffer that is shifted, grown
and refilled in the middle of a token, proved against maximal munch over the whole text.
*/
module BufferedScanner {
  import opened Bytes
  import opened ScannerTables
  import opened ScannerStates
  import opened ScannerRules
  import opened ScannerMeaning
  import opened MaximalMunch

  const END_OF_BUFFER := 21
  const END_OF_FILE := 22
  const READ_BUF_SIZE := 8192

  datatype Status = New | Normal | EofPending

  datatype Refill = EndOfFile | ContinueScan | LastMatch

  /** What follows the end-of-buffer action: more matching, an action, or the end. */
  datatype After = Rescan | Act | Stop

  // -------------------------------------------------------------- what the scanner remembers

  /** The best match among the first `j - 1` bytes of `w`, when there is one, is the one recorded. */
  ghost predicate Recorded(w: seq<Byte>, j: nat, start: nat, las: int, lac: nat)
    requires j <= |w|
  {
    j > 0 ==>
      var b := LongestFrom(w, j - 1);
      b > 0 ==> lac == start + b && las == StateAfter(w[..b])
  }

  lemma NothingRecorded(w: seq<Byte>, start: nat, las: int, lac: nat)
    ensures Recorded(w, 0, start, las, lac)
  {
  }

  /** Recording the state before a step keeps the record right. */
  lemma RecordStep(w: seq<Byte>, j: nat, start: nat, las: int, lac: nat)
    requires j < |w| && Recorded(w, j, start, las, lac)
    ensures var s := StateAfter(w[..j]);
            if Accept(s) != 0 then Recorded(w, j + 1, start, s, start + j)
            else Recorded(w, j + 1, start, las, lac)
  {
    hide StateAfter, EarliestRule, Matches, Accept;
    if j == 0 {
    } else {
      AcceptIsEarliestRule(w[..j]);
    }
  }

  lemma StateStep(w: seq<Byte>, j: nat)
    requires j < |w|
    ensures StateAfter(w[..j + 1]) == Walk(StateAfter(w[..j]), ClassOf(w[j]))
  {
    hide StateAfter, Walk, Next;
    assert w[..j + 1] == w[..j] + [w[j]];
    StateAfterSnoc(w[..j], w[j]);
  }

  lemma FirstByteIsAccepted(b: Byte)
    ensures StateAfter([b]) != 165 && Accept(StateAfter([b])) != 0
  {
    hide Accept, Ec, ClassOf, EarliestRule;
    RuleOfByte(b);
    AcceptIsEarliestRule([b]);
    FinalStates(165, 1);
  }

  /** A match ends at a state with nowhere to go. */
  lemma FinalIsLongest(w: seq<Byte>, j: nat)
    requires 0 < j <= |w| && StateAfter(w[..j]) != 165 && Base(StateAfter(w[..j])) == 188
    ensures Longest(w) == j && Accept(StateAfter(w[..j])) != 0
  {
    hide Accept, Base, StateAfter, Ec, ClassOf, EarliestRule, Matches, Walk, Next, Longest;
    var s := StateAfter(w[..j]);
    FinalStates(s, 1);
    AcceptOf(s);
    AcceptIsEarliestRule(w[..j]);
    if j < |w| {
      StateStep(w, j);
      FinalStates(s, ClassOf(w[j]));
      WalkIsNext(s, ClassOf(w[j]));
    }
    LongestIsKnown(w, j);
  }

  /** After a jam, the record is of the longest match. */
  lemma JamIsRecorded(w: seq<Byte>, j: nat, start: nat, las: int, lac: nat)
    requires 0 < j <= |w| && StateAfter(w[..j]) == 165 && Recorded(w, j, start, las, lac)
    ensures 0 < Longest(w) < j && lac == start + Longest(w) && las == StateAfter(w[..Longest(w)])
    ensures Accept(165) == 0
  {
    hide Accept, Base, StateAfter, Ec, ClassOf, EarliestRule, Matches, Walk, Next, Longest;
    FirstByteIsAccepted(w[0]);
    assert w[..1] == [w[0]];
    LongestIsKnown(w, j - 1);
    FinalStates(165, 1);
  }

  /** When nothing more can be matched after `j` bytes, the match is there or where the record says. */
  lemma StopDecides(w: seq<Byte>, j: nat, start: nat, las: int, lac: nat)
    requires 0 < j <= |w| && (j == |w| || StateAfter(w[..j + 1]) == 165)
    requires Recorded(w, j, start, las, lac) || (j < |w| && Recorded(w, j + 1, start, las, lac))
    ensures 0 < Longest(w) <= j
    ensures if Accept(StateAfter(w[..j])) != 0 then Longest(w) == j
            else lac == start + Longest(w) && las == StateAfter(w[..Longest(w)])
  {
    hide Accept, StateAfter, EarliestRule, Matches, Longest;
    LongestIsKnown(w, j);
    AcceptIsEarliestRule(w[..j]);
  }

  lemma SplitText(buf: seq<Byte>, bp: nat, cp: nat, n: nat, rest: seq<Byte>)
    requires bp <= cp <= n <= |buf|
    ensures var w := buf[bp..n] + rest;
            w[..cp - bp] == buf[bp..cp] && w[cp - bp..] == buf[cp..n] + rest
  {
  }

  lemma EndMarkFacts()
    ensures Base(3) != 188 && Base(165) == 188 && Accept(3) == END_OF_BUFFER && Accept(165) == 0 && Accept(1) == 0
    ensures Ec(0) == 0
  {
  }

  /** What one token takes off a text. */
  lemma TextStep(w: seq<Byte>)
    requires w != []
    ensures var l := Longest(w);
            var r := EarliestRule(w[..l]);
            && 1 <= r <= 19 && |w[l..]| < |w| && Newlines(w) == Newlines(w[..l]) + Newlines(w[l..])
            && Visible(Lex(w)) == (if Skipped(r) then [] else [Token(r, w[..l])]) + Visible(Lex(w[l..]))
  {
    hide EarliestRule, Matches, Longest, Newlines, Lex, Visible;
    var l := Longest(w);
    VisibleStep(w);
    NewlinesConcat(w[..l], w[l..]);
    assert w == w[..l] + w[l..];
  }

  lemma TextEnd()
    ensures Visible(Lex([])) == [] && Newlines([]) == 0
  {
  }

  /** The text `w` is blanks and newlines, and then `u`. */
  ghost predicate AfterGap(w: seq<Byte>, u: seq<Byte>) {
    exists k :: 0 <= k <= |w| && IsGap(w[..k]) && w[k..] == u
  }

  lemma GapStarts(w: seq<Byte>)
    ensures AfterGap(w, w)
  {
    assert w[..0] == [] && w[0..] == w;
  }

  lemma GapsJoin(a: seq<Byte>, b: seq<Byte>)
    requires IsGap(a) && IsGap(b)
    ensures IsGap(a + b)
  {
    hide IsBlank;
  }

  lemma TwoParts(w: seq<Byte>, k: nat, l: nat)
    requires k + l <= |w|
    ensures w[..k] + w[k..][..l] == w[..k + l] && w[k..][l..] == w[k + l..]
    ensures w[k..][..l] + w[k..][l..] == w[k..]
  {
  }

  lemma GapGoesOn(w: seq<Byte>, u: seq<Byte>, l: nat)
    requires AfterGap(w, u) && l <= |u|
    ensures IsGap(u[..l]) ==> AfterGap(w, u[l..])
    ensures AfterGap(w, u[..l] + u[l..])
  {
    hide IsGap;
    var k: nat :| k <= |w| && IsGap(w[..k]) && w[k..] == u;
    TwoParts(w, k, l);
    if IsGap(u[..l]) {
      GapsJoin(w[..k], u[..l]);
    }
  }

  lemma GapEnds(w: seq<Byte>)
    requires AfterGap(w, [])
    ensures IsGap(w)
  {
    var k :| 0 <= k <= |w| && IsGap(w[..k]) && w[k..] == [];
    assert w[..k] == w;
  }

  // -------------------------------------------------------------- one transition

  /** The inner loop that all three matchers share. */
  method Transition(s: RowState, c: Class) returns (t: int)
    ensures t == Walk(s, c)
  {
    hide Base, Chk, Def, Meta, Nxt;
    var state: RowState, k: Class := s, c;
    FallbackDescends(state, k);
    while Chk(Base(state) + k) != state
      invariant Walk(state, k) == Walk(s, c)
      decreases Rank(state)
    {
      FallbackDescends(state, k);
      JamEntries(k);
      state := Def(state);
      if state >= 166 { k := Meta(k); }
    }
    t := Nxt(Base(state) + k);
  }

  class Scanner {
    /** `yy_ch_buf`, the input buffer, with room for two end marks. */
    var chBuf: array<Byte>
    var bufSize: nat
    /** `yy_n_chars`, and the buffer's own copy of it. */
    var nChars: nat
    var bufNChars: nat
    var status: Status
    /** `yytext_ptr`, `yyleng` and `yy_c_buf_p`. */
    var textPtr: nat
    var leng: nat
    var cBufP: nat
    /** The byte that the end of `yytext` overwrote. */
    var hold: Byte
    var lastAcceptingState: int
    var lastAcceptingCpos: nat
    var lineno: nat
    /** What is left to read of the input file. */
    var rest: seq<Byte>

    // ------------------------------------------------------------ states of the buffer

    /** The buffer proper: the end marks are in place, and a pending end of file is real. */
    ghost predicate Loaded()
      reads this`chBuf, this`bufSize, this`nChars, this`bufNChars, this`status, this`rest, chBuf
    {
      && bufSize > 0 && chBuf.Length == bufSize + 2 && nChars <= bufSize
      && chBuf[nChars] == 0 && chBuf[nChars + 1] == 0
      && (status.EofPending? ==> rest == [])
      && (status.New? ==> bufNChars == nChars)
    }

    /** In the middle of a token that starts at `bp`: `w` is the text from there on, buffered and unread. */
    ghost predicate Scanning(bp: nat, w: seq<Byte>)
      reads this`chBuf, this`bufSize, this`nChars, this`bufNChars, this`status, this`rest, chBuf
    {
      Loaded() && bp <= nChars && w == chBuf[bp..nChars] + rest
    }

    lemma TextAt(bp: nat, w: seq<Byte>, j: nat)
      requires Scanning(bp, w) && bp + j < nChars
      ensures j < |w| && w[j] == chBuf[bp + j]
    {
      assert chBuf[bp..nChars][j] == chBuf[bp + j];
    }

    /** The same after `YY_DO_BEFORE_ACTION` has put `yy_hold_char` aside. */
    ghost predicate Held(bp: nat, w: seq<Byte>)
      reads this, chBuf
    {
      && bufSize > 0 && chBuf.Length == bufSize + 2 && nChars <= bufSize && bp <= nChars && cBufP < chBuf.Length
      && (status.EofPending? ==> rest == []) && (status.New? ==> bufNChars == nChars)
      && var buf := chBuf[..][cBufP := hold];
         buf[nChars] == 0 && buf[nChars + 1] == 0 && w == buf[bp..nChars] + rest
    }

    /** Between tokens one byte of the buffer is overwritten, and kept in `hold`. */
    ghost predicate Valid()
      reads this, chBuf
    {
      && bufSize > 0 && chBuf.Length == bufSize + 2 && cBufP <= nChars <= bufSize
      && (if cBufP == nChars then hold == 0 else chBuf[nChars] == 0) && chBuf[nChars + 1] == 0
      && (status.EofPending? ==> rest == [])
      && (status.New? ==> bufNChars == nChars)
    }

    /** The text still to be scanned. */
    ghost function Remaining(): (w: seq<Byte>)
      requires Valid()
      reads this, chBuf
    {
      (if cBufP == nChars then [] else [hold] + chBuf[cBufP + 1..nChars]) + rest
    }

    /** Everything read and scanned, and the buffer restarted. */
    ghost predicate AtEnd()
      reads this, chBuf
    {
      Valid() && Remaining() == [] && status.New?
    }

    /** `yytext`, which is terminated by a NUL. */
    ghost function YyText(): (w: seq<Byte>)
      requires Valid() && textPtr <= cBufP
      reads this, chBuf
    {
      chBuf[textPtr..cBufP]
    }

    /** `yy_create_buffer`, `yy_flush_buffer` and `yy_load_buffer_state`. */
    constructor (file: seq<Byte>, size: nat)
      requires size > 0
      ensures Valid() && Remaining() == file && lineno == 1 && status.New? && fresh(chBuf)
    {
      chBuf := new Byte[size + 2](_ => 0);
      bufSize := size;
      nChars, bufNChars := 0, 0;
      status := New;
      textPtr, leng, cBufP := 0, 0, 0;
      hold := 0;
      lastAcceptingState, lastAcceptingCpos := 0, 0;
      lineno := 1;
      rest := file;
    }

    /** Points `yyin` at another file once the last one has ended; the line number runs on. */
    method Reopen(file: seq<Byte>)
      requires AtEnd()
      modifies this`rest
      ensures Valid() && Remaining() == file
    {
      rest := file;
    }

    /** The value of `yytext` that an action sends on. */
    method TokenText() returns (text: seq<Byte>)
      requires Valid() && textPtr <= cBufP
      ensures text == YyText()
    {
      text := chBuf[textPtr..cBufP];
    }

    // ------------------------------------------------------------ yy_get_previous_state

    method GetPreviousState(ghost w: seq<Byte>) returns (state: int)
      requires Scanning(textPtr, w) && textPtr <= cBufP <= nChars
      modifies this`lastAcceptingState, this`lastAcceptingCpos
      ensures state == StateAfter(w[..cBufP - textPtr])
      ensures Recorded(w, cBufP - textPtr, textPtr, lastAcceptingState, lastAcceptingCpos)
    {
      hide StateAfter, Walk, Accept, LongestFrom, EarliestRule, Matches, Ec, Recorded, Next, InTrie;
      state := 1;
      var cp := textPtr;
      assert w[..0] == [];
      NothingRecorded(w, textPtr, lastAcceptingState, lastAcceptingCpos);
      while cp < cBufP
        invariant textPtr <= cp <= cBufP
        invariant state == StateAfter(w[..cp - textPtr])
        invariant Recorded(w, cp - textPtr, textPtr, lastAcceptingState, lastAcceptingCpos)
      {
        ghost var j := cp - textPtr;
        TextAt(textPtr, w, j);
        RecordStep(w, j, textPtr, lastAcceptingState, lastAcceptingCpos);
        StateStep(w, j);
        EcInRange(chBuf[cp]);
        var c := if chBuf[cp] != 0 then Ec(chBuf[cp]) else 1;
        if Accept(state) != 0 {
          lastAcceptingState := state;
          lastAcceptingCpos := cp;
        }
        state := Transition(state, c);
        cp := cp + 1;
      }
    }

    /** Goes back to `to`, and finds the state and the record there. */
    method Rewind(to: nat, ghost w: seq<Byte>) returns (state: int)
      requires Scanning(textPtr, w) && textPtr <= to <= nChars
      modifies this`cBufP, this`lastAcceptingState, this`lastAcceptingCpos
      ensures Scanning(textPtr, w) && cBufP == to && to - textPtr <= |w|
      ensures state == StateAfter(w[..to - textPtr])
      ensures Recorded(w, to - textPtr, textPtr, lastAcceptingState, lastAcceptingCpos)
    {
      hide StateAfter, Walk, Accept, LongestFrom, EarliestRule, Matches, Ec, Recorded, Next, InTrie;
      cBufP := to;
      state := GetPreviousState(w);
    }

    // ------------------------------------------------------------ yy_try_NUL_trans

    /** Steps over a NUL; 0 if that jams. */
    method TryNulTrans(state: int, ghost w: seq<Byte>) returns (next: int)
      requires Scanning(textPtr, w) && textPtr <= cBufP < nChars && chBuf[cBufP] == 0
      requires state == StateAfter(w[..cBufP - textPtr])
      requires Recorded(w, cBufP - textPtr, textPtr, lastAcceptingState, lastAcceptingCpos)
      modifies this`lastAcceptingState, this`lastAcceptingCpos
      ensures StateAfter(w[..cBufP - textPtr + 1]) == if next == 0 then 165 else next
      ensures next != 165
      ensures Recorded(w, cBufP - textPtr + 1, textPtr, lastAcceptingState, lastAcceptingCpos)
    {
      hide StateAfter, Walk, Accept, LongestFrom, EarliestRule, Matches, Ec, Recorded, Next, InTrie;
      ghost var j := cBufP - textPtr;
      TextAt(textPtr, w, j);
      RecordStep(w, j, textPtr, lastAcceptingState, lastAcceptingCpos);
      StateStep(w, j);
      if Accept(state) != 0 {
        lastAcceptingState := state;
        lastAcceptingCpos := cBufP;
      }
      next := Transition(state, 1);
      if next == 165 { next := 0; }
    }

    // ------------------------------------------------------------ yy_match

    /** What `yy_find_action` will settle on is the longest match of `w`, and lies in the buffer. */
    ghost predicate Decided(w: seq<Byte>, bp: nat, cp: nat, state: int)
      reads this`lastAcceptingState, this`lastAcceptingCpos, this`nChars
    {
      var l := Longest(w);
      && w != [] && bp + l <= nChars
      && (if Accept(state) != 0 then cp == bp + l && state == StateAfter(w[..l])
          else lastAcceptingCpos == bp + l && lastAcceptingState == StateAfter(w[..l]))
    }

    /** The walk has run over the NUL after the first `j` bytes of `w` into the end-of-buffer state. */
    ghost predicate AtMark(w: seq<Byte>, bp: nat, state: int, j: nat)
      requires Loaded()
      reads this, chBuf
    {
      && bp + j <= nChars && j <= |w| && chBuf[bp + j] == 0
      && state == 165 && lastAcceptingState == 3 && lastAcceptingCpos == bp + j + 1
      && StateAfter(w[..j]) != 165
    }

    /** A walk that can go no further has decided the match. */
    lemma MatchStops(w: seq<Byte>, bp: nat, cp: nat, state: int)
      requires Scanning(bp, w) && bp < cp <= nChars
      requires state == StateAfter(w[..cp - bp]) && Base(state) == 188
      requires Recorded(w, cp - bp, bp, lastAcceptingState, lastAcceptingCpos)
      ensures Decided(w, bp, cp, state)
    {
      hide StateAfter, Walk, Accept, LongestFrom, EarliestRule, Matches, Ec, Recorded, Next, InTrie, Base, Longest;
      if state == 165 {
        JamIsRecorded(w, cp - bp, bp, lastAcceptingState, lastAcceptingCpos);
      } else {
        FinalIsLongest(w, cp - bp);
      }
    }

    /** Where the walk is before it reads the byte at `cp`: on the text, or just past a NUL. */
    ghost predicate Walking(w: seq<Byte>, bp: nat, start: nat, cp: nat, state: int, marked: bool)
      reads this, chBuf
    {
      && Loaded() && bp <= start <= cp <= nChars + 1 && cp - bp <= |w| + 1
      && if marked then
           start < cp && chBuf[cp - 1] == 0 && state == 3 && StateAfter(w[..cp - 1 - bp]) != 165
         else
           && cp <= nChars && cp - bp <= |w| && state == StateAfter(w[..cp - bp]) != 165
           && Recorded(w, cp - bp, bp, lastAcceptingState, lastAcceptingCpos)
    }

    /** One turn of the loop at `yy_match`. */
    method MatchStep(bp: nat, start: nat, cp: nat, state0: int, ghost marked0: bool, ghost w: seq<Byte>)
      returns (state: int, ghost marked: bool)
      requires Scanning(bp, w) && Walking(w, bp, start, cp, state0, marked0)
      modifies this`lastAcceptingState, this`lastAcceptingCpos
      ensures Scanning(bp, w)
      ensures Base(state) != 188 ==> Walking(w, bp, start, cp + 1, state, marked)
      ensures Base(state) == 188 && marked ==> start < cp && AtMark(w, bp, state, cp - 1 - bp)
      ensures Base(state) == 188 && !marked ==> Decided(w, bp, cp + 1, state)
    {
      hide StateAfter, Walk, Accept, LongestFrom, EarliestRule, Matches, Ec, Recorded, Next, InTrie, Base, Longest;
      hide Decided, Scanning;
      ghost var was, wasAt := lastAcceptingState, lastAcceptingCpos;
      var c := Ec(chBuf[cp]);
      if Accept(state0) != 0 {
        lastAcceptingState := state0;
        lastAcceptingCpos := cp;
      }
      EcInRange(chBuf[cp]);
      EndMarkFacts();
      marked := marked0 || chBuf[cp] == 0;
      if marked0 {
        EndMark(1, c);
      } else if chBuf[cp] == 0 {
        EndMark(state0, c);
      } else {
        TextAt(bp, w, cp - bp);
        RecordStep(w, cp - bp, bp, was, wasAt);
        StateStep(w, cp - bp);
      }
      state := Transition(state0, c);
      if !marked && Base(state) == 188 { MatchStops(w, bp, cp + 1, state); }
    }

    /** The do-while loop at `yy_match`. */
    method Match(bp: nat, start: nat, first: int, ghost w: seq<Byte>)
      returns (cp: nat, state: int, ghost marked: bool)
      requires Scanning(bp, w) && bp <= start <= nChars
      requires first == StateAfter(w[..start - bp]) != 165
      requires Recorded(w, start - bp, bp, lastAcceptingState, lastAcceptingCpos)
      modifies this`lastAcceptingState, this`lastAcceptingCpos
      ensures Scanning(bp, w)
      ensures marked ==> cp >= bp + 2 && start <= cp - 2 && AtMark(w, bp, state, cp - 2 - bp)
      ensures !marked ==> Decided(w, bp, cp, state)
    {
      hide StateAfter, LongestFrom, EarliestRule, Matches, Recorded, Next, InTrie, Base, Longest, Decided, AtMark;
      cp, state, marked := start, first, false;
      LengthOfText(bp, w);
      var go := true;
      while go
        invariant Scanning(bp, w) && bp <= start <= cp <= nChars + 2
        invariant go ==> Walking(w, bp, start, cp, state, marked)
        invariant !go && marked ==> start + 2 <= cp && AtMark(w, bp, state, cp - 2 - bp)
        invariant !go && !marked ==> Decided(w, bp, cp, state)
        decreases nChars + 2 - cp, go
      {
        state, marked := MatchStep(bp, start, cp, state, marked, w);
        cp := cp + 1;
        go := Base(state) != 188;
      }
    }

    lemma LengthOfText(bp: nat, w: seq<Byte>)
      requires Scanning(bp, w)
      ensures nChars - bp <= |w|
    {
    }

    // ------------------------------------------------------------ yy_get_next_buffer

    /** Moves the bytes of the unfinished token to the start of the buffer. */
    method ShiftDown(count: nat)
      requires textPtr + count <= chBuf.Length
      modifies chBuf
      ensures chBuf[..count] == old(chBuf[textPtr..textPtr + count])
    {
      var i := 0;
      while i < count
        invariant 0 <= i <= count
        invariant forall k :: 0 <= k < i ==> chBuf[k] == old(chBuf[textPtr + k])
        invariant forall k :: i <= k < chBuf.Length ==> chBuf[k] == old(chBuf[k])
      {
        chBuf[i] := chBuf[textPtr + i];
        i := i + 1;
      }
    }

    /** Doubles the buffer until there is room after `kept` bytes. */
    method Grow(kept: nat) returns (numToRead: nat)
      requires bufSize > 0 && chBuf.Length == bufSize + 2 && kept <= bufSize
      modifies this`chBuf, this`bufSize
      ensures bufSize >= old(bufSize) && chBuf.Length == bufSize + 2
      ensures chBuf == old(chBuf) || fresh(chBuf)
      ensures numToRead > 0 && kept + numToRead + 1 == bufSize
      ensures chBuf[..kept] == old(chBuf[..kept])
    {
      var room: int := bufSize - kept - 1;
      while room <= 0
        invariant 0 < bufSize && old(bufSize) <= bufSize && chBuf.Length == bufSize + 2 && kept <= bufSize
        invariant room == bufSize - kept - 1
        invariant chBuf == old(chBuf) || fresh(chBuf)
        invariant chBuf[..kept] == old(chBuf[..kept])
        decreases kept + 1 - bufSize
      {
        bufSize := bufSize * 2;
        var bigger := new Byte[bufSize + 2];
        forall k | 0 <= k < chBuf.Length { bigger[k] := chBuf[k]; }
        assert bigger[..kept] == chBuf[..kept];
        chBuf := bigger;
        room := bufSize - kept - 1;
      }
      numToRead := room;
    }

    /** `YY_INPUT`: some of what is left of the file, at least one byte unless there is none. */
    method Input(offset: nat, max: nat) returns (n: nat)
      requires 0 < max && offset + max <= chBuf.Length
      modifies chBuf, this`rest
      ensures n <= max && n <= |old(rest)| && (n == 0 <==> old(rest) == [])
      ensures rest == old(rest)[n..] && chBuf[offset..offset + n] == old(rest)[..n]
      ensures chBuf[..offset] == old(chBuf[..offset])
    {
      if rest == [] {
        n := 0;
      } else {
        n :| 0 < n <= max && n <= |rest|;
        var i := 0;
        while i < n
          invariant 0 <= i <= n && rest == old(rest)
          invariant chBuf[offset..offset + i] == rest[..i]
          invariant chBuf[..offset] == old(chBuf[..offset])
        {
          chBuf[offset + i] := rest[i];
          assert chBuf[offset..offset + i + 1] == chBuf[offset..offset + i] + [rest[i]];
          i := i + 1;
        }
        rest := rest[n..];
      }
    }

    /** Reads after the `kept` bytes moved down, unless the end of the file is pending. */
    method Fill(kept: nat)
      requires bufSize > 0 && chBuf.Length == bufSize + 2 && kept <= bufSize
      requires status.EofPending? ==> rest == []
      modifies this`chBuf, this`bufSize, this`nChars, this`bufNChars, this`rest, chBuf
      ensures bufSize > 0 && chBuf.Length == bufSize + 2 && kept + nChars <= bufSize
      ensures chBuf == old(chBuf) || fresh(chBuf)
      ensures nChars == bufNChars <= |old(rest)| && (nChars == 0 <==> old(rest) == [])
      ensures rest == old(rest)[nChars..]
      ensures chBuf[..kept + nChars] == old(chBuf[..kept]) + old(rest)[..nChars]
    {
      if status.EofPending? {
        nChars, bufNChars := 0, 0;
      } else {
        var numToRead := Grow(kept);
        if numToRead > READ_BUF_SIZE { numToRead := READ_BUF_SIZE; }
        var n := Input(kept, numToRead);
        nChars, bufNChars := n, n;
        assert chBuf[..kept + n] == chBuf[..kept] + chBuf[kept..kept + n];
      }
    }

    /** Puts the end marks after the text. */
    method MarkEnd()
      requires chBuf.Length == bufSize + 2 && nChars <= bufSize
      modifies chBuf
      ensures chBuf[..nChars] == old(chBuf[..nChars]) && chBuf[nChars] == 0 && chBuf[nChars + 1] == 0
    {
      chBuf[nChars] := 0;
      chBuf[nChars + 1] := 0;
    }

    /** Says what the read means, and settles the buffer on `kept` bytes and those read. */
    method Settle(kept: nat, ghost text: seq<Byte>) returns (action: Refill)
      requires bufSize > 0 && chBuf.Length == bufSize + 2 && kept + nChars <= bufSize && nChars == bufNChars
      requires chBuf[..kept + nChars] == text && !status.New?
      requires nChars == 0 || status.EofPending? ==> rest == []
      modifies this`nChars, this`bufNChars, this`status, this`textPtr, this`cBufP, this`hold, chBuf
      ensures Scanning(0, text + rest) && textPtr == 0 && nChars == |text|
      ensures action.EndOfFile? <==> text == []
      ensures action.EndOfFile? ==> hold == 0 && cBufP == 0 && status.New?
      ensures action.LastMatch? ==> old(nChars) == 0
      ensures action.ContinueScan? ==> old(nChars) > 0
      ensures !action.EndOfFile? ==> !status.New?
    {
      if nChars == 0 {
        if kept == 0 {
          action := EndOfFile;
          Restart();
        } else {
          action := LastMatch;
          status := EofPending;
        }
      } else {
        action := ContinueScan;
      }
      // the branch that extends the buffer once more is never taken
      assert nChars + kept <= bufSize;
      nChars := nChars + kept;
      assert chBuf[..nChars] == text;
      MarkEnd();
      textPtr := 0;
      assert chBuf[0..nChars] == chBuf[..nChars];
    }

    /** Makes more of the text visible to the match, keeping the text itself. */
    method GetNextBuffer(ghost w: seq<Byte>) returns (action: Refill)
      requires Scanning(textPtr, w) && cBufP == nChars + 1 && !status.New?
      modifies this, chBuf
      ensures Scanning(0, w) && textPtr == 0 && (chBuf == old(chBuf) || fresh(chBuf))
      ensures nChars <= |w| && |rest| <= |old(rest)| && lineno == old(lineno)
      ensures action.EndOfFile? <==> w == []
      ensures action.EndOfFile? ==> hold == 0 && cBufP == 0 && status.New?
      ensures action.LastMatch? ==> nChars == |w|
      ensures action.ContinueScan? ==> |rest| < |old(rest)| && nChars > old(nChars - textPtr)
    {
      var toMove := cBufP - textPtr - 1;
      ghost var moved := chBuf[textPtr..nChars];
      ShiftDown(toMove);
      Fill(toMove);
      ghost var text := moved + old(rest)[..nChars];
      assert text + rest == w;
      hide Scanning;
      action := Settle(toMove, text);
    }

    /** `yyrestart`, on the same file. */
    method Restart()
      requires chBuf.Length >= 2
      modifies this`nChars, this`bufNChars, this`status, this`textPtr, this`cBufP, this`hold, chBuf
      ensures nChars == 0 && bufNChars == 0 && status == New && textPtr == 0 && cBufP == 0 && hold == 0
      ensures chBuf[0] == 0 && chBuf[1] == 0
    {
      bufNChars := 0;
      chBuf[0], chBuf[1] := 0, 0;
      status := New;
      nChars := bufNChars;
      textPtr, cBufP := 0, 0;
      hold := chBuf[cBufP];
    }

    // ------------------------------------------------------------ yylex

    /** `YY_DO_BEFORE_ACTION`. */
    method BeforeAction(bp: nat, cp: nat, ghost w: seq<Byte>)
      requires Scanning(bp, w) && bp <= cp <= nChars + 1
      modifies this`textPtr, this`leng, this`hold, this`cBufP, chBuf
      ensures textPtr == bp && leng == cp - bp && cBufP == cp && chBuf[cp] == 0
      ensures hold == old(chBuf[cp]) && Held(bp, w)
      ensures cp > bp ==> chBuf[cp - 1] == old(chBuf[cp - 1])
      ensures cp <= nChars ==> Valid() && YyText() == w[..cp - bp] && Remaining() == w[cp - bp..]
    {
      ghost var buf := chBuf[..];
      textPtr := bp;
      leng := cp - bp;
      hold := chBuf[cp];
      chBuf[cp] := 0;
      cBufP := cp;
      assert chBuf[..][cBufP := hold] == buf;
      assert buf[bp..nChars] == old(chBuf[bp..nChars]);
      if cp <= nChars {
        SplitText(buf, bp, cp, nChars, rest);
        assert chBuf[bp..cp] == buf[bp..cp];
        assert buf[cp..nChars] == if cp == nChars then [] else [hold] + chBuf[cp + 1..nChars];
      }
    }

    /** The next token starts where the last one ended, with the byte set aside put back. */
    method Resume()
      requires Valid()
      modifies chBuf
      ensures Scanning(cBufP, old(Remaining()))
    {
      ghost var tail := if cBufP == nChars then [] else [hold] + chBuf[cBufP + 1..nChars];
      chBuf[cBufP] := hold;
      assert chBuf[cBufP..nChars] == tail;
    }

    /** Adds the newlines of `yytext` to `yylineno`. */
    method CountLines(rule: int)
      requires textPtr + leng <= chBuf.Length
      modifies this`lineno
      ensures lineno == old(lineno) + if CanMatchNewline(rule) then Newlines(chBuf[textPtr..textPtr + leng]) else 0
    {
      if CanMatchNewline(rule) {
        var i := 0;
        while i < leng
          invariant 0 <= i <= leng
          invariant lineno == old(lineno) + Newlines(chBuf[textPtr..textPtr + i])
        {
          assert chBuf[textPtr..textPtr + i + 1][..i] == chBuf[textPtr..textPtr + i];
          if chBuf[textPtr + i] == NEWLINE { lineno := lineno + 1; }
          i := i + 1;
        }
      }
    }

    /** Where the scanner is when it jumps to `yy_match`, or else to `yy_find_action`. */
    ghost predicate InToken(bp: nat, cp: nat, state: int, matching: bool, w: seq<Byte>)
      reads this, chBuf
    {
      && Scanning(bp, w) && bp <= cp <= nChars && cp - bp <= |w|
      && (if matching then
            && state == StateAfter(w[..cp - bp]) != 165
            && Recorded(w, cp - bp, bp, lastAcceptingState, lastAcceptingCpos)
          else Decided(w, bp, cp, state))
    }

    /** The NUL after `j` bytes of `w` belongs to the text: step over it. */
    method StepOverNul(ghost w: seq<Byte>, ghost j: nat) returns (next: After, state: int)
      requires Scanning(textPtr, w) && cBufP == textPtr + j + 1 <= nChars
      requires chBuf[textPtr + j] == 0 && StateAfter(w[..j]) != 165
      modifies this`lastAcceptingState, this`lastAcceptingCpos, this`cBufP
      ensures !next.Stop? && InToken(textPtr, cBufP, state, next.Rescan?, w)
      ensures cBufP - textPtr >= if next.Rescan? then j + 1 else j
    {
      hide StateAfter, Walk, Accept, LongestFrom, EarliestRule, Matches, Ec, Recorded, Next, InTrie, Base, Longest;
      TextAt(textPtr, w, j);
      state := Rewind(cBufP - 1, w);
      var after := TryNulTrans(state, w);
      if after != 0 {
        cBufP := cBufP + 1;
        state := after;
        next := Rescan;
      } else {
        next := Act;
        FirstByteIsAccepted(w[0]);
        assert w[..1] == [w[0]];
        StopDecides(w, j, textPtr, lastAcceptingState, lastAcceptingCpos);
      }
    }

    lemma BufferedIsText(w: seq<Byte>, j: nat)
      requires Scanning(textPtr, w) && textPtr + j == nChars
      ensures j <= |w|
    {
    }

    lemma EndIsValid()
      requires Scanning(0, []) && cBufP == 0 && hold == 0 && status.New?
      ensures AtEnd()
    {
    }

    /** The buffered text is used up after `j` bytes of `w`: refill the buffer, or act on what there is. */
    method Refilled(ghost w: seq<Byte>, ghost j: nat) returns (next: After, state: int)
      requires Scanning(textPtr, w) && cBufP == textPtr + j + 1 == nChars + 1 && !status.New?
      requires StateAfter(w[..j]) != 165
      modifies this, chBuf
      ensures (chBuf == old(chBuf) || fresh(chBuf)) && lineno == old(lineno)
      ensures next.Stop? <==> w == []
      ensures next.Stop? ==> AtEnd()
      ensures !next.Stop? ==> InToken(textPtr, cBufP, state, next.Rescan?, w) && cBufP - textPtr >= j
      ensures |rest| <= |old(rest)| && (next.Rescan? ==> |rest| < |old(rest)|)
    {
      hide StateAfter, Walk, Accept, LongestFrom, EarliestRule, Matches, Ec, Recorded, Next, InTrie, Base, Longest;
      BufferedIsText(w, j);
      hide Scanning, Valid, Remaining, AtEnd;
      var amount := cBufP - textPtr - 1;
      var action := GetNextBuffer(w);
      match action
      case EndOfFile =>
        cBufP := textPtr;
        EndIsValid();
        next, state := Stop, 1;
      case ContinueScan =>
        state := Rewind(textPtr + amount, w);
        next := Rescan;
      case LastMatch =>
        state := Rewind(nChars, w);
        next := Act;
        assert w[..|w|] == w;
        StopDecides(w, |w|, textPtr, lastAcceptingState, lastAcceptingCpos);
    }

    /** The action at the end of the buffer, which the walk reached after `j` bytes of `w`. */
    method EndOfBuffer(ghost w: seq<Byte>, ghost j: nat) returns (next: After, state: int)
      requires Held(textPtr, w) && cBufP == textPtr + j + 1 && textPtr + j <= nChars && j <= |w|
      requires chBuf[textPtr + j] == 0 && StateAfter(w[..j]) != 165
      modifies this, chBuf
      ensures (chBuf == old(chBuf) || fresh(chBuf)) && lineno == old(lineno)
      ensures next.Stop? <==> w == []
      ensures next.Stop? ==> AtEnd()
      ensures !next.Stop? ==> InToken(textPtr, cBufP, state, next.Rescan?, w) && cBufP - textPtr >= j
      ensures |rest| <= |old(rest)|
      ensures next.Rescan? && |rest| == |old(rest)| ==> cBufP - textPtr > j
    {
      hide StateAfter, Walk, Accept, LongestFrom, EarliestRule, Matches, Ec, Recorded, Next, InTrie, Base, Longest;
      ghost var buf := chBuf[..][cBufP := hold];
      chBuf[cBufP] := hold;
      assert chBuf[..] == buf;
      assert chBuf[textPtr..nChars] == buf[textPtr..nChars];
      if status.New? {
        nChars := bufNChars;
        status := Normal;
      }
      assert Scanning(textPtr, w);
      hide Scanning, Held, InToken, AtEnd;
      if cBufP <= nChars {
        next, state := StepOverNul(w, j);
      } else {
        next, state := Refilled(w, j);
      }
    }

    /** `yy_find_action`: backs up to the last accepting state if this one is not. */
    method FindAction(cp0: nat, state0: int, bp: nat, ghost w: seq<Byte>, ghost marked: bool)
      returns (cp: nat, act: int)
      requires Scanning(bp, w)
      requires if marked then cp0 >= bp + 2 && AtMark(w, bp, state0, cp0 - 2 - bp) else Decided(w, bp, cp0, state0)
      ensures marked ==> act == END_OF_BUFFER && cp == cp0 - 1
      ensures marked ==> var j := cp - bp - 1; bp + j <= nChars && j <= |w| && chBuf[bp + j] == 0
                                               && StateAfter(w[..j]) != 165
      ensures !marked ==> w != [] && cp == bp + Longest(w) <= nChars && act == EarliestRule(w[..Longest(w)]) != 0
    {
      hide StateAfter, Accept, LongestFrom, EarliestRule, Matches, Ec, Next, InTrie, Base, Longest;
      cp := cp0;
      act := Accept(state0);
      if act == 0 {
        cp := lastAcceptingCpos;
        act := Accept(lastAcceptingState);
      }
      EndMarkFacts();
      if !marked { AcceptIsEarliestRule(w[..Longest(w)]); }
    }

    /** The token taken from `w` is its longest match, and the rest of `w` remains. */
    ghost predicate Taken(w: seq<Byte>, act: int)
      reads this, chBuf
    {
      var l := Longest(w);
      && Valid() && act == EarliestRule(w[..l])
      && textPtr <= cBufP && YyText() == w[..l] && leng == l && chBuf[cBufP] == 0
      && Remaining() == w[l..]
    }

    /** The longest match becomes the token. */
    method TakeToken(bp: nat, cp: nat, act: int, ghost w: seq<Byte>)
      requires Scanning(bp, w) && w != [] && cp == bp + Longest(w) <= nChars
      requires act == EarliestRule(w[..Longest(w)])
      modifies this`textPtr, this`leng, this`hold, this`cBufP, this`lineno, chBuf
      ensures Taken(w, act) && lineno == old(lineno) + Newlines(w[..Longest(w)])
    {
      hide EarliestRule, Matches, Longest, Newlines, LongestFrom, StateAfter;
      BeforeAction(bp, cp, w);
      CountLines(act);
      if !CanMatchNewline(act) { NewlinesAreCounted(w[..Longest(w)]); }
    }

    /** What a pass through the automaton leaves: a jump to make, the end of the file, or a token. */
    ghost predicate Outcome(act: int, bp: nat, cp: nat, state: int, matching: bool, w: seq<Byte>)
      reads this, chBuf
    {
      if act == END_OF_BUFFER then InToken(bp, cp, state, matching, w)
      else if act == END_OF_FILE then w == [] && AtEnd()
      else w != [] && Taken(w, act)
    }

    ghost function LinesTaken(act: int, w: seq<Byte>): nat {
      if act == END_OF_BUFFER || act == END_OF_FILE then 0 else Newlines(w[..Longest(w)])
    }

    /** `do_action` with `YY_END_OF_BUFFER`: the walk has run over the NUL after `j` bytes of `w`. */
    method DoEndOfBuffer(bp0: nat, ghost w: seq<Byte>, j: nat)
      returns (next: After, bp: nat, cp: nat, state: int)
      requires Scanning(bp0, w) && bp0 + j <= nChars && j <= |w|
      requires chBuf[bp0 + j] == 0 && StateAfter(w[..j]) != 165
      modifies this, chBuf
      ensures (chBuf == old(chBuf) || fresh(chBuf)) && lineno == old(lineno) && |rest| <= |old(rest)|
      ensures next.Stop? ==> w == [] && AtEnd()
      ensures !next.Stop? ==> InToken(bp, cp, state, next.Rescan?, w) && cp - bp >= j
      ensures next.Rescan? && |rest| == |old(rest)| ==> cp - bp > j
    {
      hide StateAfter, Walk, Accept, LongestFrom, EarliestRule, Matches, Ec, Recorded, Next, InTrie, Base, Longest;
      hide Scanning, Held, InToken, Decided, AtMark, Valid, Remaining, AtEnd, YyText;
      BeforeAction(bp0, bp0 + j + 1, w);
      next, state := EndOfBuffer(w, j);
      cp, bp := cBufP, textPtr;
    }

    /** The match, or the rest of it, and the action it finds. */
    method FindMatch(bp: nat, cp0: nat, state0: int, matching: bool, ghost w: seq<Byte>) returns (cp: nat, act: int)
      requires InToken(bp, cp0, state0, matching, w)
      modifies this`lastAcceptingState, this`lastAcceptingCpos
      ensures Scanning(bp, w)
      ensures act == END_OF_BUFFER ==>
                var j := cp - bp - 1;
                && matching && bp < cp && cp0 - bp <= j && bp + j <= nChars && j <= |w|
                && chBuf[bp + j] == 0 && StateAfter(w[..j]) != 165
      ensures act != END_OF_BUFFER ==>
                w != [] && cp == bp + Longest(w) <= nChars && act == EarliestRule(w[..Longest(w)]) != 0
    {
      hide StateAfter, Walk, Accept, LongestFrom, EarliestRule, Matches, Ec, Recorded, Next, InTrie, Base, Longest;
      hide Newlines;
      hide Scanning, Decided, AtMark;
      var state := state0;
      cp := cp0;
      ghost var marked := false;
      if matching {
        cp, state, marked := Match(bp, cp, state, w);
      }
      cp, act := FindAction(cp, state, bp, w, marked);
    }

    /** From one jump to the next, or to the end of the token or of the file. */
    method Pass(bp0: nat, cp0: nat, state0: int, matching0: bool, ghost w: seq<Byte>)
      returns (act: int, bp: nat, cp: nat, state: int, matching: bool)
      requires InToken(bp0, cp0, state0, matching0, w)
      modifies this, chBuf
      ensures chBuf == old(chBuf) || fresh(chBuf)
      ensures Outcome(act, bp, cp, state, matching, w) && lineno == old(lineno) + LinesTaken(act, w)
      ensures act == END_OF_BUFFER ==> matching0 && |rest| <= |old(rest)|
      ensures act == END_OF_BUFFER && |rest| == |old(rest)| ==>
                cp - bp >= cp0 - bp0 && (matching ==> cp - bp > cp0 - bp0)
    {
      hide StateAfter, Walk, Accept, LongestFrom, EarliestRule, Matches, Ec, Recorded, Next, InTrie, Base, Longest;
      hide Newlines;
      hide Scanning, Held, InToken, Decided, AtMark, Valid, Remaining, AtEnd, YyText, Taken;
      bp, state, matching := bp0, state0, false;
      cp, act := FindMatch(bp0, cp0, state0, matching0, w);
      if act != END_OF_BUFFER {
        TakeToken(bp, cp, act, w);
      } else {
        var next;
        next, bp, cp, state := DoEndOfBuffer(bp0, w, cp - 1 - bp0);
        matching := next.Rescan?;
        if next.Stop? { act := END_OF_FILE; }
      }
    }

    /**
    Scans one token and returns the number of its rule.  However the input is cut into reads and
    the buffer shifted and grown, the token is the longest match of the whole remaining text, under
    its earliest rule, and nothing of the text is lost.
    */
    method ScanToken() returns (act: int)
      requires Valid()
      modifies this, chBuf
      ensures Valid() && (chBuf == old(chBuf) || fresh(chBuf))
      ensures old(Remaining()) == [] ==> act == END_OF_FILE && AtEnd() && lineno == old(lineno)
      ensures old(Remaining()) != [] ==>
                var w := old(Remaining());
                var l := Longest(w);
                && act == EarliestRule(w[..l])
                && textPtr <= cBufP && YyText() == w[..l] && leng == l && chBuf[cBufP] == 0
                && Remaining() == w[l..]
                && lineno == old(lineno) + Newlines(w[..l])
    {
      hide StateAfter, LongestFrom, EarliestRule, Matches, Recorded, Longest, Newlines;
      ghost var w := Remaining();
      Resume();
      var bp: nat, cp: nat, state, matching := cBufP, cBufP, 1, true;
      assert w[..0] == [];
      NothingRecorded(w, bp, lastAcceptingState, lastAcceptingCpos);
      act := END_OF_BUFFER;
      while act == END_OF_BUFFER
        invariant chBuf == old(chBuf) || fresh(chBuf)
        invariant Outcome(act, bp, cp, state, matching, w) && lineno == old(lineno) + LinesTaken(act, w)
        decreases act == END_OF_BUFFER, |rest|, |w| - (cp - bp), matching
      {
        act, bp, cp, state, matching := Pass(bp, cp, state, matching, w);
      }
    }

    /**
    `yylex`: the next token that is not skipped, with the code its rule returns, or 0 at the end of
    the file.  The token handler is sent the rule and `yytext`.
    */
    method Yylex() returns (code: int, rule: int)
      requires Valid()
      modifies this, chBuf
      ensures Valid() && (chBuf == old(chBuf) || fresh(chBuf))
      ensures lineno + Newlines(Remaining()) == old(lineno) + Newlines(old(Remaining()))
      ensures var ts := Visible(Lex(old(Remaining())));
              if ts == [] then code == 0 && AtEnd()
              else
                && code == TokenCode(rule) && textPtr <= cBufP && ts[0] == Token(rule, YyText())
                && Visible(Lex(Remaining())) == ts[1..]
      ensures code == 0 ==> IsGap(old(Remaining()))
      ensures code != 0 ==>
                && textPtr <= cBufP && !IsGap(YyText()) && rule == EarliestRule(YyText())
                && AfterGap(old(Remaining()), YyText() + Remaining())
    {
      hide EarliestRule, Matches, Longest, Newlines, Lex, Visible, Valid, Remaining, YyText, TokenCode, Skipped, IsGap;
      hide AfterGap;
      ghost var w := Remaining();
      GapStarts(w);
      while true
        invariant Valid() && (chBuf == old(chBuf) || fresh(chBuf))
        invariant lineno + Newlines(Remaining()) == old(lineno) + Newlines(w)
        invariant AfterGap(w, Remaining())
        invariant Visible(Lex(Remaining())) == Visible(Lex(w))
        decreases |Remaining()|
      {
        ghost var u := Remaining();
        ghost var l := Longest(u);
        rule := ScanToken();
        if rule == END_OF_FILE {
          TextEnd();
          GapEnds(w);
          return 0, rule;
        }
        TextStep(u);
        SkippedIsGap(u[..l]);
        GapGoesOn(w, u, l);
        if !Skipped(rule) { return TokenCode(rule), rule; }
      }
    }
  }
}