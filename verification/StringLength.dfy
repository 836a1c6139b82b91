/**
The word-at-a-time string length of `src/include/__vlen.h`, for 32-bit and 64-bit longs.
*/
module StringLength {
  import opened WordMemory

  function Load4(b0: Byte, b1: Byte, b2: Byte, b3: Byte): bv32 {
    (b0 as bv32) | (b1 as bv32 << 8) | (b2 as bv32 << 16) | (b3 as bv32 << 24)
  }

  function Load8(b0: Byte, b1: Byte, b2: Byte, b3: Byte, b4: Byte, b5: Byte, b6: Byte, b7: Byte): bv64 {
    (b0 as bv64) | (b1 as bv64 << 8) | (b2 as bv64 << 16) | (b3 as bv64 << 24)
    | (b4 as bv64 << 32) | (b5 as bv64 << 40) | (b6 as bv64 << 48) | (b7 as bv64 << 56)
  }

  /** The test `va & vb` on a loaded word of either size. */
  predicate Borrows4(v: bv32) { (v - 0x01010101) & (!v & 0x80808080) != 0 }

  predicate Borrows8(v: bv64) { (v - 0x0101010101010101) & (!v & 0x8080808080808080) != 0 }

  lemma Borrows4Exact(b0: Byte, b1: Byte, b2: Byte, b3: Byte)
    ensures Borrows4(Load4(b0, b1, b2, b3)) <==> b0 == 0 || b1 == 0 || b2 == 0 || b3 == 0
  {
  }

  lemma Borrows8Exact(b0: Byte, b1: Byte, b2: Byte, b3: Byte, b4: Byte, b5: Byte, b6: Byte, b7: Byte)
    ensures Borrows8(Load8(b0, b1, b2, b3, b4, b5, b6, b7)) <==>
            b0 == 0 || b1 == 0 || b2 == 0 || b3 == 0 || b4 == 0 || b5 == 0 || b6 == 0 || b7 == 0
  {
  }

  predicate BorrowTest(b: seq<Byte>)
    requires |b| == 4 || |b| == 8
  {
    if |b| == 4 then Borrows4(Load4(b[0], b[1], b[2], b[3]))
    else Borrows8(Load8(b[0], b[1], b[2], b[3], b[4], b[5], b[6], b[7]))
  }

  /** The subtraction borrows across bytes, yet the test is exact. */
  lemma BorrowTestIsExact(b: seq<Byte>)
    requires |b| == 4 || |b| == 8
    ensures BorrowTest(b) <==> 0 in b
  {
    if |b| == 4 {
      Borrows4Exact(b[0], b[1], b[2], b[3]);
      assert 0 in b <==> b[0] == 0 || b[1] == 0 || b[2] == 0 || b[3] == 0;
    } else {
      Borrows8Exact(b[0], b[1], b[2], b[3], b[4], b[5], b[6], b[7]);
      assert 0 in b <==> b[0] == 0 || b[1] == 0 || b[2] == 0 || b[3] == 0
                         || b[4] == 0 || b[5] == 0 || b[6] == 0 || b[7] == 0;
    }
  }

  lemma WholeWordBefore(p: nat, q: nat, w: WordSize)
    requires Mask(p, w) == 0 && p <= q
    ensures p + w <= q - Mask(q, w) + w
  {
  }

  /** Loads the word at `lp` and applies the test to it. */
  method TestWord(mem: array<Byte>, lp: nat, wsize: WordSize) returns (found: bool)
    requires Mask(lp, wsize) == 0 && lp + wsize <= mem.Length
    ensures found <==> exists k :: lp <= k < lp + wsize && mem[k] == 0
  {
    var word := mem[lp..lp + wsize];
    BorrowTestIsExact(word);
    found := BorrowTest(word);
    if found {
      ghost var i :| 0 <= i < wsize && word[i] == 0;
      assert mem[lp + i] == 0;
    } else {
      assert forall k :: lp <= k < lp + wsize ==> mem[k] == word[k - lp];
    }
  }

  /**
  The index of the first NUL at or after `str`.  The caller owes a terminator, `nul`, whose
  word can be read in full; a NUL that precedes `str` in its first word is ignored.
  */
  method Vlen(mem: array<Byte>, str: nat, ghost nul: nat, wsize: WordSize) returns (length: nat)
    requires str <= nul < mem.Length && mem[nul] == 0
    requires nul - Mask(nul, wsize) + wsize <= mem.Length
    ensures str + length <= nul && mem[str + length] == 0
    ensures forall k :: str <= k < str + length ==> mem[k] != 0
  {
    var lp := str - Mask(str, wsize);
    SameOffset(str, str, wsize);
    WholeWordBefore(lp, nul, wsize);
    var test := TestWord(mem, lp, wsize);
    NextWord(lp, wsize);
    lp := lp + wsize;
    if test {
      for p := str to lp
        invariant forall k :: str <= k < p ==> mem[k] != 0
      {
        if mem[p] == 0 { return p - str; }
      }
    }
    while true
      invariant str <= lp <= nul && Mask(lp, wsize) == 0
      invariant forall k :: str <= k < lp ==> mem[k] != 0
      decreases nul - lp
    {
      WholeWordBefore(lp, nul, wsize);
      test := TestWord(mem, lp, wsize);
      if test {
        for x := 0 to wsize
          invariant forall k :: str <= k < lp + x ==> mem[k] != 0
        {
          if mem[lp + x] == 0 { return lp + x - str; }
        }
      }
      NextWord(lp, wsize);
      lp := lp + wsize;
    }
  }
}
