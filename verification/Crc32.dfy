/**
The table-driven CRC-32 of `src/include/crc.h`, the CRC of section 8 of RFC 1952:
reflected polynomial 0xEDB88320, register preset to all ones, result complemented.

A `uint32_t` is its 32 bits, low bit first.  The register is first described bit by
bit (`Feed`); that description is then tied to polynomial division over GF(2), to
the table the code builds and uses, and to the errors the checksum detects.
*/
module Crc32 {
  import opened Bytes

  type Bits = seq<bool>
  type Word = b: Bits | |b| == 32 witness seq(32, _ => false)

  // ------------------------------------------------------------ bit operations

  function Zeros(n: nat): (s: Bits)
    ensures |s| == n && forall i :: 0 <= i < n ==> !s[i]
  {
    seq(n, _ => false)
  }

  function Ones(n: nat): (s: Bits)
    ensures |s| == n && forall i :: 0 <= i < n ==> s[i]
  {
    seq(n, _ => true)
  }

  /** `s ^ g`, with `g` zero-extended to the length of `s`. */
  function Xor(s: Bits, g: Bits): (r: Bits)
    requires |g| <= |s|
    ensures |r| == |s|
    ensures forall i :: 0 <= i < |s| ==> r[i] == if i < |g| then s[i] != g[i] else s[i]
  {
    seq(|s|, i requires 0 <= i < |s| => if i < |g| then s[i] != g[i] else s[i])
  }

  function ShiftRight(s: Bits, k: nat): (r: Bits)
    requires k <= |s|
    ensures |r| == |s|
  {
    s[k..] + Zeros(k)
  }

  /** The `len` low bits of `n`. */
  function ToBits(n: nat, len: nat): (s: Bits)
    ensures |s| == len
  {
    if len == 0 then [] else [n % 2 == 1] + ToBits(n / 2, len - 1)
  }

  function FromBits(s: Bits): nat {
    if s == [] then 0 else (if s[0] then 1 else 0) + 2 * FromBits(s[1..])
  }

  lemma {:induction false} ToBitsOfFromBits(s: Bits, k: nat)
    ensures ToBits(FromBits(s), |s| + k) == s + Zeros(k)
    decreases |s|
  {
    if s == [] {
      ToBitsOfZero(k);
    } else {
      ToBitsOfFromBits(s[1..], k);
      assert s + Zeros(k) == [s[0]] + (s[1..] + Zeros(k));
    }
  }

  lemma {:induction false} ToBitsOfZero(k: nat)
    ensures ToBits(0, k) == Zeros(k)
  {
    if k != 0 {
      ToBitsOfZero(k - 1);
      assert Zeros(k) == [false] + Zeros(k - 1);
    }
  }

  lemma {:induction false} ToBitsInjective(m: nat, n: nat, len: nat)
    requires ToBits(m, len) == ToBits(n, len) && m < Pow2(len) && n < Pow2(len)
    ensures m == n
  {
    if len != 0 {
      var s, t := ToBits(m, len), ToBits(n, len);
      assert s[0] == t[0] && s[1..] == t[1..];
      ToBitsInjective(m / 2, n / 2, len - 1);
    }
  }

  function Pow2(k: nat): nat { if k == 0 then 1 else 2 * Pow2(k - 1) }

  lemma {:induction false} FromBitsBound(s: Bits)
    ensures FromBits(s) < Pow2(|s|)
    decreases |s|
  {
    if s != [] { FromBitsBound(s[1..]); }
  }

  lemma XorCommutes(a: Bits, b: Bits)
    requires |a| == |b|
    ensures Xor(a, b) == Xor(b, a)
  {
  }

  lemma XorConcat(a: Bits, a': Bits, b: Bits, b': Bits)
    requires |a| == |b| && |a'| == |b'|
    ensures Xor(a + a', b + b') == Xor(a, b) + Xor(a', b')
  {
  }

  lemma XorSelf(a: Bits)
    ensures Xor(a, a) == Zeros(|a|)
  {
  }

  lemma XorZero(a: Bits, n: nat)
    requires n <= |a|
    ensures Xor(a, Zeros(n)) == a
  {
  }

  lemma XorCancels(a: Bits, b: Bits, m: Bits)
    requires |a| == |b| == |m| && Xor(a, m) == Xor(b, m)
    ensures a == b
  {
    forall i | 0 <= i < |a| ensures a[i] == b[i] {
      assert Xor(a, m)[i] == Xor(b, m)[i];
    }
  }

  // -------------------------------------------------------------- the bit step

  /** The powers of x below 32 in the CRC-32 polynomial. */
  predicate Power(k: int) {
    k == 26 || k == 23 || k == 22 || k == 16 || k == 12 || k == 11 || k == 10 || k == 8
    || k == 7 || k == 5 || k == 4 || k == 2 || k == 1 || k == 0
  }

  /** Reflected: bit i is the coefficient of x^(31-i). */
  function Poly(): (p: Word)
    ensures forall i :: 0 <= i < 32 ==> p[i] == Power(31 - i)
  {
    seq(32, i => Power(31 - i))
  }

  function BitValue(b: bool): nat { if b then 1 else 0 }

  lemma FromBitsNibble(s: Bits)
    requires |s| >= 4
    ensures FromBits(s) ==
            BitValue(s[0]) + 2 * BitValue(s[1]) + 4 * BitValue(s[2]) + 8 * BitValue(s[3]) + 16 * FromBits(s[4..])
  {
    assert s[1..][1..] == s[2..] && s[2..][1..] == s[3..] && s[3..][1..] == s[4..];
    assert FromBits(s) == BitValue(s[0]) + 2 * FromBits(s[1..]);
    assert FromBits(s[1..]) == BitValue(s[1]) + 2 * FromBits(s[2..]);
    assert FromBits(s[2..]) == BitValue(s[2]) + 2 * FromBits(s[3..]);
    assert FromBits(s[3..]) == BitValue(s[3]) + 2 * FromBits(s[4..]);
  }

  function Nibble(s: Bits, k: nat): nat
    requires k + 4 <= |s|
  {
    BitValue(s[k]) + 2 * BitValue(s[k + 1]) + 4 * BitValue(s[k + 2]) + 8 * BitValue(s[k + 3])
  }

  lemma FromBitsTail(s: Bits, k: nat)
    requires k + 4 <= |s|
    ensures FromBits(s[k..]) == Nibble(s, k) + 16 * FromBits(s[k + 4..])
  {
    FromBitsNibble(s[k..]);
    assert s[k..][4..] == s[k + 4..];
  }

  lemma FromBitsWord(s: Word)
    ensures FromBits(s) == Nibble(s, 0) + 0x10 * Nibble(s, 4) + 0x100 * Nibble(s, 8) + 0x1000 * Nibble(s, 12)
                         + 0x10000 * Nibble(s, 16) + 0x100000 * Nibble(s, 20)
                         + 0x1000000 * Nibble(s, 24) + 0x10000000 * Nibble(s, 28)
  {
    assert s[0..] == s;
    FromBitsTail(s, 0); FromBitsTail(s, 4); FromBitsTail(s, 8); FromBitsTail(s, 12);
    FromBitsTail(s, 16); FromBitsTail(s, 20); FromBitsTail(s, 24); FromBitsTail(s, 28);
  }

  /** The polynomial is the constant the source writes in hexadecimal. */
  lemma PolyIsSourceConstant()
    ensures FromBits(Poly()) == 0xEDB88320
  {
    FromBitsWord(Poly());
  }

  /** One turn of the inner loop of the table generator. */
  function Step(c: Word): Word {
    if c[0] then Xor(ShiftRight(c, 1), Poly()) else ShiftRight(c, 1)
  }

  function Steps(c: Word, n: nat): Word
    decreases n
  {
    if n == 0 then c else Steps(Step(c), n - 1)
  }

  lemma StepLinear(a: Word, b: Word)
    ensures Step(Xor(a, b)) == Xor(Step(a), Step(b))
  {
  }

  /** The polynomial has its top bit set, so the step loses nothing. */
  lemma StepInjective(a: Word, b: Word)
    requires Step(a) == Step(b)
    ensures a == b
  {
    assert Step(a)[31] == a[0] && Step(b)[31] == b[0];
    forall i | 1 <= i < 32 ensures a[i] == b[i] {
      assert Step(a)[i - 1] == Step(b)[i - 1];
    }
  }

  lemma {:induction false} StepsLinear(a: Word, b: Word, n: nat)
    ensures Steps(Xor(a, b), n) == Xor(Steps(a, n), Steps(b, n))
    decreases n
  {
    if n != 0 {
      StepLinear(a, b);
      StepsLinear(Step(a), Step(b), n - 1);
    }
  }

  lemma {:induction false} StepsInjective(a: Word, b: Word, n: nat)
    requires Steps(a, n) == Steps(b, n)
    ensures a == b
    decreases n
  {
    if n != 0 {
      StepsInjective(Step(a), Step(b), n - 1);
      StepInjective(a, b);
    }
  }

  lemma {:induction false} StepsOfZero(n: nat)
    ensures Steps(Zeros(32), n) == Zeros(32)
  {
    if n != 0 {
      assert Step(Zeros(32)) == Zeros(32);
      StepsOfZero(n - 1);
    }
  }

  /** Zero bits fall off the low end without touching the rest. */
  lemma {:induction false} StepsOverZeros(c: Word, n: nat)
    requires n <= 32 && forall i :: 0 <= i < n ==> !c[i]
    ensures Steps(c, n) == ShiftRight(c, n)
    decreases n
  {
    if n != 0 {
      StepsOverZeros(Step(c), n - 1);
      assert ShiftRight(ShiftRight(c, 1), n - 1) == ShiftRight(c, n);
    }
  }

  // ------------------------------------------------- the register, bit by bit

  /** The register after the bits of `m`, each xored into the low end and stepped once. */
  function Feed(c: Word, m: Bits): Word
    decreases |m|
  {
    if m == [] then c else Feed(Step(Xor(c, [m[0]])), m[1..])
  }

  function MessageBits(data: seq<Byte>): (s: Bits)
    ensures |s| == 8 * |data|
  {
    if data == [] then [] else ToBits(data[0], 8) + MessageBits(data[1..])
  }

  /** The checksum, defined without the table. */
  function Crc(data: seq<Byte>): Word {
    Xor(Feed(Ones(32), MessageBits(data)), Ones(32))
  }

  lemma {:induction false} FeedConcat(c: Word, a: Bits, b: Bits)
    ensures Feed(c, a + b) == Feed(Feed(c, a), b)
    decreases |a|
  {
    if a == [] {
      assert a + b == b;
    } else {
      assert (a + b)[0] == a[0] && (a + b)[1..] == a[1..] + b;
      FeedConcat(Step(Xor(c, [a[0]])), a[1..], b);
    }
  }

  lemma {:induction false} MessageBitsConcat(a: seq<Byte>, b: seq<Byte>)
    ensures MessageBits(a + b) == MessageBits(a) + MessageBits(b)
    decreases |a|
  {
    if a == [] {
      assert a + b == b;
    } else {
      assert (a + b)[0] == a[0] && (a + b)[1..] == a[1..] + b;
      MessageBitsConcat(a[1..], b);
    }
  }

  /** A bit of the step's result, from the bit above it and the bit that falls off. */
  lemma StepBit(c: Word, i: nat)
    requires i < 32
    ensures Step(c)[i] == ((i < 31 && c[i + 1]) != (c[0] && Poly()[i]))
  {
    assert ShiftRight(c, 1)[i] == (i < 31 && c[i + 1]);
  }

  /** Xoring the rest of the bits after the step is xoring all of them before. */
  lemma StepAfterXor(c: Word, m: Bits)
    requires 0 < |m| <= 32
    ensures Xor(Step(Xor(c, [m[0]])), m[1..]) == Step(Xor(c, m))
  {
    hide Step, Poly;
    var u, v := Xor(c, [m[0]]), Xor(c, m);
    var x, y := Xor(Step(u), m[1..]), Step(v);
    forall i | 0 <= i < 32 ensures x[i] == y[i] {
      StepBit(u, i);
      StepBit(v, i);
      assert u[0] == v[0];
      if i + 1 < |m| { assert m[1..][i] == m[i + 1]; }
    }
  }

  /** Feeding at most 32 bits is one xor followed by as many steps. */
  lemma {:induction false} FeedIsXorThenSteps(c: Word, m: Bits)
    requires |m| <= 32
    ensures Feed(c, m) == Steps(Xor(c, m), |m|)
    decreases |m|
  {
    hide Step;
    if m == [] {
      assert Xor(c, m) == c;
    } else {
      FeedIsXorThenSteps(Step(Xor(c, [m[0]])), m[1..]);
      StepAfterXor(c, m);
    }
  }

  lemma {:induction false} FeedInjective(c: Word, d: Word, m: Bits)
    requires Feed(c, m) == Feed(d, m)
    ensures c == d
    decreases |m|
  {
    if m != [] {
      var x, y := Xor(c, [m[0]]), Xor(d, [m[0]]);
      FeedInjective(Step(x), Step(y), m[1..]);
      StepInjective(x, y);
      assert forall i :: 0 <= i < 32 ==> c[i] == (if i == 0 then x[i] != m[0] else x[i]);
    }
  }

  lemma {:induction false} FeedLinear(c: Word, d: Word, a: Bits, b: Bits)
    requires |a| == |b|
    ensures Feed(Xor(c, d), Xor(a, b)) == Xor(Feed(c, a), Feed(d, b))
    decreases |a|
  {
    if a != [] {
      var x := Xor(a, b);
      var u, v := Xor(c, [a[0]]), Xor(d, [b[0]]);
      assert x[1..] == Xor(a[1..], b[1..]);
      assert Xor(Xor(c, d), [x[0]]) == Xor(u, v);
      StepLinear(u, v);
      FeedLinear(Step(u), Step(v), a[1..], b[1..]);
    }
  }

  // ------------------------------------------------------------ the table

  lemma LowAndHigh(x: Word)
    ensures Xor(x[..8] + Zeros(24), Zeros(8) + x[8..]) == x
  {
    XorConcat(x[..8], Zeros(24), Zeros(8), x[8..]);
    XorZero(x[..8], 8);
    XorCommutes(Zeros(24), x[8..]);
    XorZero(x[8..], 24);
  }

  /** One table step equals feeding the eight bits of the byte. */
  lemma TableStepIsEightBitSteps(c: Word, b: Byte)
    ensures var x := Xor(c, ToBits(b, 8));
            Xor(ShiftRight(c, 8), Steps(x[..8] + Zeros(24), 8)) == Feed(c, ToBits(b, 8))
  {
    hide Feed, Steps, Step, ToBits;
    var x := Xor(c, ToBits(b, 8));
    var low, high := x[..8] + Zeros(24), Zeros(8) + x[8..];
    StepsLinear(low, high, 8);
    StepsOverZeros(high, 8);
    FeedIsXorThenSteps(c, ToBits(b, 8));
    LowAndHigh(x);
    assert ShiftRight(high, 8) == ShiftRight(c, 8) by {
      assert x[8..] == c[8..];
    }
    XorCommutes(ShiftRight(c, 8), Steps(low, 8));
  }

  predicate Generated(t: seq<Word>) {
    |t| == 256 && forall k :: 0 <= k < 256 ==> t[k] == Steps(ToBits(k, 32), 8)
  }

  /** The statement both checksum loops share, whatever the table holds. */
  function TableStep(t: seq<Word>, crc: Word, b: Byte): (r: Word)
    requires |t| == 256
  {
    var low := Xor(crc, ToBits(b, 8))[..8];
    FromBitsBound(low);
    assert Pow2(8) == 256;
    Xor(ShiftRight(crc, 8), t[FromBits(low)])
  }

  function TableFeed(t: seq<Word>, crc: Word, data: seq<Byte>): (r: Word)
    requires |t| == 256
    decreases |data|
  {
    if data == [] then crc else TableStep(t, TableFeed(t, crc, data[..|data| - 1]), data[|data| - 1])
  }

  function TableCrc(t: seq<Word>, data: seq<Byte>): (r: Word)
    requires |t| == 256
  {
    Xor(TableFeed(t, Ones(32), data), Ones(32))
  }

  lemma TableStepIsFeed(t: seq<Word>, crc: Word, b: Byte)
    requires Generated(t)
    ensures TableStep(t, crc, b) == Feed(crc, ToBits(b, 8))
  {
    hide Steps, Feed;
    var low := Xor(crc, ToBits(b, 8))[..8];
    FromBitsBound(low);
    assert Pow2(8) == 256;
    ToBitsOfFromBits(low, 24);
    TableStepIsEightBitSteps(crc, b);
  }

  lemma {:induction false} TableFeedIsFeed(t: seq<Word>, crc: Word, data: seq<Byte>)
    requires |t| == 256 && Generated(t)
    ensures TableFeed(t, crc, data) == Feed(crc, MessageBits(data))
    decreases |data|
  {
    hide TableStep, Generated, Feed;
    if data == [] {
      FeedNothing(crc);
    } else {
      var n := |data| - 1;
      TableFeedIsFeed(t, crc, data[..n]);
      TableStepIsFeed(t, TableFeed(t, crc, data[..n]), data[n]);
      FeedNext(crc, data, n);
      assert data[..n + 1] == data;
    }
  }

  lemma FeedNothing(c: Word)
    ensures Feed(c, MessageBits([])) == c
  {
  }

  /** With the generated table the loops compute the bit-serial checksum of every message. */
  lemma TableCrcIsCrc(t: seq<Word>, data: seq<Byte>)
    requires Generated(t)
    ensures TableCrc(t, data) == Crc(data)
  {
    TableFeedIsFeed(t, Ones(32), data);
  }

  ghost predicate Ungenerated(t: seq<Word>) {
    |t| == 256 && forall k :: 0 <= k < 256 ==> t[k] == Zeros(32)
  }

  lemma ZeroTableStep(t: seq<Word>, crc: Word, b: Byte)
    requires Ungenerated(t)
    ensures TableStep(t, crc, b) == ShiftRight(crc, 8)
  {
    hide ToBits, FromBits, Pow2;
    var low := Xor(crc, ToBits(b, 8))[..8];
    FromBitsBound(low);
    PowerOfByte();
    XorZero(ShiftRight(crc, 8), 32);
  }

  lemma PowerOfByte()
    ensures Pow2(8) == 256
  {
  }

  lemma ShiftByte(k: nat)
    requires k < 4
    ensures ShiftRight(ShiftRight(Ones(32), 8 * k), 8) == ShiftRight(Ones(32), 8 * (k + 1))
    ensures ShiftRight(Ones(32), 32) == Zeros(32) == ShiftRight(Zeros(32), 8)
  {
  }

  lemma {:induction false} ZeroTableFeed(t: seq<Word>, data: seq<Byte>)
    requires |t| == 256 && Ungenerated(t)
    ensures TableFeed(t, Ones(32), data) == if |data| < 4 then ShiftRight(Ones(32), 8 * |data|) else Zeros(32)
    decreases |data|
  {
    hide TableStep, Ungenerated;
    if data == [] {
      assert ShiftRight(Ones(32), 0) == Ones(32);
    } else {
      hide ShiftRight;
      var n := |data| - 1;
      ZeroTableFeed(t, data[..n]);
      ZeroTableStep(t, TableFeed(t, Ones(32), data[..n]), data[n]);
      ShiftByte(if n < 4 then n else 3);
    }
  }

  /** Before the table is generated its entries are 0, and all files of four bytes or more look the same. */
  lemma ZeroTableCrc(t: seq<Word>, data: seq<Byte>)
    requires |t| == 256 && Ungenerated(t) && |data| >= 4
    ensures TableCrc(t, data) == Ones(32)
  {
    ZeroTableFeed(t, data);
  }

  lemma FeedNext(c: Word, data: seq<Byte>, i: nat)
    requires i < |data|
    ensures Feed(c, MessageBits(data[..i + 1])) == Feed(Feed(c, MessageBits(data[..i])), ToBits(data[i], 8))
  {
    assert data[..i + 1] == data[..i] + [data[i]];
    MessageBitsConcat(data[..i], [data[i]]);
    assert MessageBits([data[i]]) == ToBits(data[i], 8) + MessageBits([]) == ToBits(data[i], 8);
    FeedConcat(c, MessageBits(data[..i]), MessageBits([data[i]]));
  }

  lemma {:induction false} TableFeedConcat(t: seq<Word>, crc: Word, a: seq<Byte>, b: seq<Byte>)
    requires |t| == 256
    ensures TableFeed(t, crc, a + b) == TableFeed(t, TableFeed(t, crc, a), b)
    decreases |b|
  {
    hide TableStep;
    if b == [] {
      assert a + b == a;
    } else {
      var n := |b| - 1;
      TableFeedConcat(t, crc, a, b[..n]);
      assert (a + b)[..|a| + n] == a + b[..n];
    }
  }

  datatype OpenedFile = NoFile | File(parts: seq<seq<Byte>>)

  /** The bytes a file delivers: the concatenation of what successive reads return. */
  function Flatten(chunks: seq<seq<Byte>>): seq<Byte> {
    if chunks == [] then [] else chunks[0] + Flatten(chunks[1..])
  }

  lemma {:induction false} FlattenSnoc(chunks: seq<seq<Byte>>, last: seq<Byte>)
    ensures Flatten(chunks + [last]) == Flatten(chunks) + last
    decreases |chunks|
  {
    if chunks == [] {
      assert Flatten([last]) == last + Flatten([]);
    } else {
      assert (chunks + [last])[0] == chunks[0];
      assert (chunks + [last])[1..] == chunks[1..] + [last];
      FlattenSnoc(chunks[1..], last);
    }
  }

  class Checksum {
    const table: array<Word>

    /** The table is there, generated or not. */
    predicate Valid() { table.Length == 256 }

    /** What the table generator establishes. */
    ghost predicate Ready()
      reads table
    {
      Generated(table[..])
    }

    constructor ()
      ensures fresh(table) && Valid() && Ungenerated(table[..])
    {
      table := new Word[256](_ => Zeros(32));
    }

    method GenerateTable()
      requires Valid()
      modifies table
      ensures Ready()
    {
      for i := 0 to 256
        invariant forall k :: 0 <= k < i ==> table[k] == Steps(ToBits(k, 32), 8)
      {
        var crc: Word := ToBits(i, 32);
        for j := 0 to 8
          invariant Steps(crc, 8 - j) == Steps(ToBits(i, 32), 8)
        {
          crc := if crc[0] then Xor(ShiftRight(crc, 1), Poly()) else ShiftRight(crc, 1);
        }
        table[i] := crc;
      }
    }

    /** The statement both loops share: one byte through the table. */
    method Update(crc: Word, b: Byte) returns (r: Word)
      requires Valid()
      ensures r == TableStep(table[..], crc, b)
      ensures Ready() ==> r == Feed(crc, ToBits(b, 8))
    {
      hide Generated, Steps, Feed;
      var low := Xor(crc, ToBits(b, 8))[..8];
      FromBitsBound(low);
      assert Pow2(8) == 256;
      r := Xor(ShiftRight(crc, 8), table[FromBits(low)]);
      if Ready() { TableStepIsFeed(table[..], crc, b); }
    }

    method Buffer(data: seq<Byte>) returns (crc: Word)
      requires Valid()
      ensures crc == TableCrc(table[..], data)
      ensures Ready() ==> crc == Crc(data)
    {
      hide TableStep, Generated, Crc, Feed;
      crc := Ones(32);
      for i := 0 to |data|
        invariant crc == TableFeed(table[..], Ones(32), data[..i])
      {
        assert data[..i + 1][..i] == data[..i];
        crc := Update(crc, data[i]);
      }
      assert data[..|data|] == data;
      crc := Xor(crc, Ones(32));
      if Ready() { TableCrcIsCrc(table[..], data); }
    }

    /** The file is what its reads return; a read of no bytes ends the loop. */
    method FileChecksum(f: OpenedFile) returns (crc: Word)
      requires Valid()
      requires f.File? ==> forall k :: 0 <= k < |f.parts| ==> 0 < |f.parts[k]| <= 1024
      ensures f.NoFile? ==> crc == Zeros(32)
      ensures f.File? ==> crc == TableCrc(table[..], Flatten(f.parts))
      ensures f.File? && Ready() ==> crc == Crc(Flatten(f.parts))
    {
      if f.NoFile? { return Zeros(32); }
      hide TableStep, Generated, Crc, Feed;
      crc := Ones(32);
      for n := 0 to |f.parts|
        invariant crc == TableFeed(table[..], Ones(32), Flatten(f.parts[..n]))
      {
        var buf := f.parts[n];
        ghost var start := crc;
        for i := 0 to |buf|
          invariant crc == TableFeed(table[..], start, buf[..i])
        {
          assert buf[..i + 1][..i] == buf[..i];
          crc := Update(crc, buf[i]);
        }
        assert buf[..|buf|] == buf;
        assert f.parts[..n + 1] == f.parts[..n] + [buf];
        FlattenSnoc(f.parts[..n], buf);
        TableFeedConcat(table[..], Ones(32), Flatten(f.parts[..n]), buf);
      }
      assert f.parts[..|f.parts|] == f.parts;
      crc := Xor(crc, Ones(32));
      if Ready() { TableCrcIsCrc(table[..], Flatten(f.parts)); }
    }
  }

  // --------------------------------------------------- polynomial division

  /*
  A bit sequence is a polynomial over GF(2), highest power first.  Reflection means
  that reading a word low bit first reads a polynomial highest power first.
  */

  /** The 33 coefficients of the generator; the leading one is not stored in `Poly`. */
  function Generator(): (g: Bits)
    ensures |g| == 33 && g[0] && g[1..] == Poly()
  {
    [true] + Poly()
  }

  /** One line of long division: cancel the leading coefficient and drop it. */
  function Cancel(s: Bits): (r: Bits)
    requires |s| > 32
    ensures |r| == |s| - 1
  {
    if s[0] then Xor(s, Generator())[1..] else s[1..]
  }

  function Remainder(s: Bits): (r: Word)
    requires |s| >= 32
    decreases |s|
  {
    if |s| == 32 then s else Remainder(Cancel(s))
  }

  function Quotient(s: Bits): (q: Bits)
    requires |s| >= 32
    ensures |q| == |s| - 32
    decreases |s|
  {
    if |s| == 32 then [] else [s[0]] + Quotient(Cancel(s))
  }

  /** The product of `q` and the generator. */
  function Multiply(q: Bits): (p: Bits)
    ensures |p| == |q| + 32
    decreases |q|
  {
    if q == [] then Zeros(32)
    else Xor([false] + Multiply(q[1..]), if q[0] then Generator() else [])
  }

  /** The value q * generator + r. */
  function Recombine(q: Bits, r: Word): (s: Bits)
    ensures |s| == |q| + 32
  {
    Xor(Multiply(q), Zeros(|q|) + r)
  }

  lemma CancelRecombine(q: Bits, r: Word)
    requires q != []
    ensures Recombine(q, r)[0] == q[0] && Cancel(Recombine(q, r)) == Recombine(q[1..], r)
  {
    var s, t, g := Recombine(q, r), Recombine(q[1..], r), Generator();
    var p, p' := Multiply(q), Multiply(q[1..]);
    forall i | 0 <= i < |s|
      ensures s[i] == ((if i == 0 then false else t[i - 1]) != (q[0] && i < 33 && g[i]))
    {
      var z, z' := Zeros(|q|) + r, Zeros(|q| - 1) + r;
      assert i > 0 ==> z[i] == z'[i - 1];
      assert p[i] == ((if i == 0 then false else p'[i - 1]) != (q[0] && i < 33 && g[i]));
    }
    forall i | 0 <= i < |t| ensures Cancel(s)[i] == t[i] {
      assert s[i + 1] == (t[i] != (q[0] && i < 32 && g[i + 1]));
    }
  }

  lemma CancelInjective(s: Bits, t: Bits)
    requires |s| == |t| > 32 && s[0] == t[0] && Cancel(s) == Cancel(t)
    ensures s == t
  {
    forall i | 1 <= i < |s| ensures s[i] == t[i] {
      assert Cancel(s)[i - 1] == Cancel(t)[i - 1];
    }
  }

  /** `Quotient` and `Remainder` give the one pair with s = q * generator + r and r under degree 32. */
  lemma {:induction false} DivisionIsUnique(s: Bits, q: Bits, r: Word)
    requires |s| == |q| + 32
    ensures s == Recombine(q, r) <==> q == Quotient(s) && r == Remainder(s)
    decreases |q|
  {
    if q == [] {
      assert Recombine(q, r) == r;
    } else {
      CancelRecombine(q, r);
      DivisionIsUnique(Cancel(s), q[1..], r);
      assert q == [q[0]] + q[1..];
      assert Quotient(s)[0] == s[0] && Quotient(s)[1..] == Quotient(Cancel(s));
      if s[0] == q[0] && Cancel(s) == Recombine(q[1..], r) {
        CancelInjective(s, Recombine(q, r));
      }
    }
  }

  /** The register is the remainder of what was fed, shifted up by 32, plus the preset. */
  lemma {:induction false} FeedIsRemainder(c: Word, m: Bits)
    ensures Feed(c, m) == Remainder(Xor(m + Zeros(32), c))
    decreases |m|
  {
    var s := Xor(m + Zeros(32), c);
    if m == [] {
      assert s == c;
    } else {
      var d := Step(Xor(c, [m[0]]));
      FeedIsRemainder(d, m[1..]);
      var t := Xor(m[1..] + Zeros(32), d);
      forall i | 0 <= i < |t| ensures Cancel(s)[i] == t[i] {
        assert (m + Zeros(32))[i + 1] == (m[1..] + Zeros(32))[i];
        assert Cancel(s)[i] == (s[i + 1] != (s[0] && i < 32 && Poly()[i]));
      }
      assert Cancel(s) == t;
    }
  }

  function Complement(s: Bits): (r: Bits)
    ensures |r| == |s| && forall i :: 0 <= i < |s| ==> r[i] == !s[i]
  {
    seq(|s|, i requires 0 <= i < |s| => !s[i])
  }

  /**
  The checksum of any message: append 32 zero bits to the message bits, complement
  the first 32, divide by the generator, complement the remainder.
  */
  lemma CrcIsPolynomialRemainder(data: seq<Byte>)
    ensures var s := MessageBits(data) + Zeros(32);
            Crc(data) == Complement(Remainder(Complement(s[..32]) + s[32..]))
  {
    var s := MessageBits(data) + Zeros(32);
    FeedIsRemainder(Ones(32), MessageBits(data));
    assert Xor(s, Ones(32)) == Complement(s[..32]) + s[32..];
  }

  // ------------------------------------------------------------- linearity

  /** Bytewise exclusive or. */
  function XorData(a: seq<Byte>, b: seq<Byte>): (r: seq<Byte>)
    requires |a| == |b|
    ensures |r| == |a|
  {
    if a == [] then [] else [XorByte(a[0], b[0])] + XorData(a[1..], b[1..])
  }

  function XorByte(a: Byte, b: Byte): (r: Byte)
    ensures ToBits(r, 8) == Xor(ToBits(a, 8), ToBits(b, 8))
  {
    var s := Xor(ToBits(a, 8), ToBits(b, 8));
    FromBitsBound(s);
    assert Pow2(8) == 256;
    ToBitsOfFromBits(s, 0);
    assert s + Zeros(0) == s;
    FromBits(s)
  }

  lemma {:induction false} MessageBitsXor(a: seq<Byte>, b: seq<Byte>)
    requires |a| == |b|
    ensures MessageBits(XorData(a, b)) == Xor(MessageBits(a), MessageBits(b))
    decreases |a|
  {
    if a != [] {
      MessageBitsXor(a[1..], b[1..]);
      var r := XorData(a, b);
      assert r[0] == XorByte(a[0], b[0]) && r[1..] == XorData(a[1..], b[1..]);
      XorConcat(ToBits(a[0], 8), MessageBits(a[1..]), ToBits(b[0], 8), MessageBits(b[1..]));
    }
  }

  /** The checksum is affine: xoring three messages xors their checksums. */
  lemma CrcOfThree(a: seq<Byte>, b: seq<Byte>, c: seq<Byte>)
    requires |a| == |b| == |c|
    ensures Crc(XorData(XorData(a, b), c)) == Xor(Xor(Crc(a), Crc(b)), Crc(c))
  {
    var ones: Word := Ones(32);
    var x, y, z := MessageBits(a), MessageBits(b), MessageBits(c);
    MessageBitsXor(a, b);
    MessageBitsXor(XorData(a, b), c);
    FeedLinear(ones, ones, x, y);
    FeedLinear(Xor(ones, ones), ones, Xor(x, y), z);
    assert Xor(Xor(ones, ones), ones) == ones;
  }

  // -------------------------------------------------------- error detection

  /** A nonzero pattern of at most 32 bits never brings the zero register back to zero. */
  lemma NonzeroBurst(e: Bits)
    requires |e| <= 32 && Feed(Zeros(32), e) == Zeros(32)
    ensures forall i :: 0 <= i < |e| ==> !e[i]
  {
    FeedIsXorThenSteps(Zeros(32), e);
    StepsOfZero(|e|);
    StepsInjective(Xor(Zeros(32), e), Zeros(32), |e|);
    assert forall i :: 0 <= i < |e| ==> e[i] == Xor(Zeros(32), e)[i];
  }

  lemma {:induction false} MessageBitsInjective(a: seq<Byte>, b: seq<Byte>)
    requires |a| == |b| && MessageBits(a) == MessageBits(b)
    ensures a == b
    decreases |a|
  {
    if a != [] {
      var s, t := MessageBits(a), MessageBits(b);
      assert s[..8] == ToBits(a[0], 8) && t[..8] == ToBits(b[0], 8);
      assert s[8..] == MessageBits(a[1..]) && t[8..] == MessageBits(b[1..]);
      MessageBitsInjective(a[1..], b[1..]);
      assert Pow2(8) == 256;
      ToBitsInjective(a[0], b[0], 8);
      assert a == [a[0]] + a[1..] && b == [b[0]] + b[1..];
    }
  }

  /**
  Every burst is detected: two different messages of one length whose differing bits
  all lie in a window of at most 32 consecutive bits have different checksums.
  */
  lemma BurstDetected(a: seq<Byte>, b: seq<Byte>, start: nat, width: nat)
    requires |a| == |b| && a != b
    requires width <= 32 && start + width <= 8 * |a|
    requires MessageBits(a)[..start] == MessageBits(b)[..start]
    requires MessageBits(a)[start + width..] == MessageBits(b)[start + width..]
    ensures Crc(a) != Crc(b)
  {
    var ones: Word := Ones(32);
    var x, y := MessageBits(a), MessageBits(b);
    if Crc(a) == Crc(b) {
      XorCancels(Feed(ones, x), Feed(ones, y), ones);
      SameWindow(ones, x, y, start, width);
      MessageBitsInjective(a, b);
    }
  }

  lemma ShortFeedInjective(d: Word, u: Bits, v: Bits)
    requires |u| == |v| <= 32 && Feed(d, u) == Feed(d, v)
    ensures u == v
  {
    FeedLinear(d, d, u, v);
    XorSelf(d);
    XorSelf(Feed(d, u));
    NonzeroBurst(Xor(u, v));
    forall i | 0 <= i < |u| ensures u[i] == v[i] { assert !Xor(u, v)[i]; }
  }

  lemma SameWindow(c: Word, x: Bits, y: Bits, start: nat, width: nat)
    requires width <= 32 && start + width <= |x| == |y|
    requires x[..start] == y[..start] && x[start + width..] == y[start + width..]
    requires Feed(c, x) == Feed(c, y)
    ensures x == y
  {
    var end := start + width;
    var u, v := x[start..end], y[start..end];
    var d := Feed(c, x[..start]);
    FeedThreeParts(c, x, start, end);
    FeedThreeParts(c, y, start, end);
    FeedInjective(Feed(d, u), Feed(d, v), x[end..]);
    ShortFeedInjective(d, u, v);
    SameThreeParts(x, y, start, end);
  }

  lemma SameThreeParts(x: Bits, y: Bits, start: nat, end: nat)
    requires start <= end <= |x| == |y|
    requires x[..start] == y[..start] && x[start..end] == y[start..end] && x[end..] == y[end..]
    ensures x == y
  {
    assert x == x[..start] + x[start..end] + x[end..];
    assert y == y[..start] + y[start..end] + y[end..];
  }

  lemma FeedThreeParts(c: Word, x: Bits, start: nat, end: nat)
    requires start <= end <= |x|
    ensures Feed(c, x) == Feed(Feed(Feed(c, x[..start]), x[start..end]), x[end..])
  {
    assert x[start..] == x[start..end] + x[end..];
    assert x == x[..start] + x[start..];
    FeedConcat(c, x[..start], x[start..]);
    FeedConcat(Feed(c, x[..start]), x[start..end], x[end..]);
  }

  /** 32 is the best possible: the generator itself is a burst of 33 bits that goes unseen. */
  lemma BurstOf33Missed(c: Word)
    ensures Feed(c, Generator()) == Feed(c, Zeros(33))
  {
    GeneratorFeedsToZero();
    FeedLinear(c, Zeros(32), Zeros(33), Generator());
    XorCommutes(Zeros(33), Generator());
    XorZero(Generator(), 33);
    XorZero(c, 32);
    XorZero(Feed(c, Zeros(33)), 32);
  }

  lemma GeneratorFeedsToZero()
    ensures Feed(Zeros(32), Generator()) == Zeros(32)
  {
    var p := Poly();
    assert Step(Xor(Zeros(32), [true])) == p;
    assert Feed(Zeros(32), Generator()) == Feed(p, p);
    FeedIsXorThenSteps(p, p);
    XorSelf(p);
    StepsOfZero(32);
  }

  // -------------------------------------------------------- any checksum can be had

  /** The step backwards: the top bit tells whether the polynomial was xored in. */
  function StepBack(d: Word): (c: Word) {
    var s := if d[31] then Xor(d, Poly()) else d;
    [d[31]] + s[..31]
  }

  lemma StepOfStepBack(d: Word)
    ensures Step(StepBack(d)) == d
  {
    hide Step, Poly;
    var c := StepBack(d);
    assert c[0] == d[31];
    PolyEnds();
    forall i | 0 <= i < 32 ensures Step(c)[i] == d[i] {
      StepBit(c, i);
      if i < 31 { assert c[i + 1] == (d[i] != (d[31] && Poly()[i])); }
    }
  }

  lemma PolyEnds()
    ensures Poly()[31]
  {
  }

  function StepsBack(d: Word, n: nat): (c: Word) {
    if n == 0 then d else StepBack(StepsBack(d, n - 1))
  }

  lemma {:induction false} StepsOfStepsBack(d: Word, n: nat)
    ensures Steps(StepsBack(d, n), n) == d
    decreases n
  {
    hide Step, StepBack;
    if n != 0 {
      StepOfStepBack(StepsBack(d, n - 1));
      StepsOfStepsBack(d, n - 1);
    }
  }

  /** Bits taken eight at a time. */
  function ToBytes(m: Bits): (r: seq<Byte>)
    requires |m| % 8 == 0
    ensures |r| == |m| / 8 && MessageBits(r) == m
    decreases |m|
  {
    if m == [] then []
    else
      FromBitsBound(m[..8]);
      assert Pow2(8) == 256;
      ToBitsOfFromBits(m[..8], 0);
      assert m[..8] + Zeros(0) == m[..8];
      assert m[..8] + m[8..] == m;
      var rest := ToBytes(m[8..]);
      assert ([FromBits(m[..8])] + rest)[1..] == rest;
      [FromBits(m[..8])] + rest
  }

  /** The four bytes that bring a message to a checksum. */
  function Suffix(data: seq<Byte>, target: Word): (z: seq<Byte>)
    ensures |z| == 4
  {
    ToBytes(Xor(Feed(Ones(32), MessageBits(data)), StepsBack(Xor(target, Ones(32)), 32)))
  }

  lemma XorTwice(c: Word, d: Word)
    ensures Xor(c, Xor(c, d)) == d && Xor(Xor(d, c), c) == d
  {
  }

  lemma CrcOfParts(data: seq<Byte>, z: seq<Byte>)
    ensures Crc(data + z) == Xor(Feed(Feed(Ones(32), MessageBits(data)), MessageBits(z)), Ones(32))
  {
    MessageBitsConcat(data, z);
    FeedConcat(Ones(32), MessageBits(data), MessageBits(z));
  }

  lemma SuffixGivesCrc(data: seq<Byte>, target: Word)
    ensures Crc(data + Suffix(data, target)) == target
  {
    hide Crc, Feed, StepsBack, Step, Steps, ToBytes;
    var r, y := Feed(Ones(32), MessageBits(data)), StepsBack(Xor(target, Ones(32)), 32);
    var m := Xor(r, y);
    assert MessageBits(Suffix(data, target)) == m;
    CrcOfParts(data, Suffix(data, target));
    FeedIsXorThenSteps(r, m);
    XorTwice(r, y);
    StepsOfStepsBack(Xor(target, Ones(32)), 32);
    XorTwice(Ones(32), target);
  }

  /** Whatever a message is, exactly one ending of four bytes gives it a wanted checksum. */
  lemma SuffixIsUnique(data: seq<Byte>, target: Word, z: seq<Byte>)
    requires |z| == 4
    ensures Crc(data + z) == target <==> z == Suffix(data, target)
  {
    hide Crc, Feed, Suffix;
    SuffixGivesCrc(data, target);
    if Crc(data + z) == target {
      var y, r := Suffix(data, target), Feed(Ones(32), MessageBits(data));
      CrcOfParts(data, z);
      CrcOfParts(data, y);
      XorCancels(Feed(r, MessageBits(z)), Feed(r, MessageBits(y)), Ones(32));
      ShortFeedInjective(r, MessageBits(z), MessageBits(y));
      MessageBitsInjective(z, y);
    }
  }
}
