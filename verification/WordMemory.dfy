/**
The overlap-safe copy of `src/include/__bcpy.h`.

Memory is an array of bytes; a pointer is an index into it, and index 0 is aligned to
every word.  Masking a pointer with `wsize - 1` is taking it modulo the word size.
*/
module WordMemory {

  /** A byte of memory, of whose bits words are made. */
  type Byte = bv8

  type WordSize = w: nat | w == 4 || w == 8 witness 8

  /** What a copy promises: `length` cells at `dst` become those found at `src`; nothing else changes. */
  function Moved<T>(m: seq<T>, src: nat, dst: nat, length: nat): (r: seq<T>)
    requires src + length <= |m| && dst + length <= |m|
    ensures |r| == |m|
    ensures forall k :: 0 <= k < |m| ==> r[k] == if dst <= k < dst + length then m[src + (k - dst)] else m[k]
  {
    seq(|m|, k requires 0 <= k < |m| => if dst <= k < dst + length then m[src + (k - dst)] else m[k])
  }

  /** `p & (w - 1)` */
  function Mask(p: nat, w: WordSize): (r: nat)
    ensures r < w && r <= p
  {
    if w == 4 then p % 4 else p % 8
  }

  /** `n / w` */
  function Words(n: nat, w: WordSize): nat {
    if w == 4 then n / 4 else n / 8
  }

  lemma RemainderBy4(q: nat, r: nat)
    requires r < 4
    ensures (4 * q + r) % 4 == r
  {
  }

  lemma RemainderBy8(q: nat, r: nat)
    requires r < 8
    ensures (8 * q + r) % 8 == r
  {
  }

  lemma NextWord(p: nat, w: WordSize)
    ensures Mask(p + w, w) == Mask(p, w)
  {
    if w == 4 {
      RemainderBy4(p / 4 + 1, p % 4);
    } else {
      RemainderBy8(p / 8 + 1, p % 8);
    }
  }

  /** Bringing one of two pointers with equal offsets to a word boundary brings both. */
  lemma SameOffset(p: nat, q: nat, w: WordSize)
    requires Mask(p, w) == Mask(q, w)
    ensures Mask(q + (w - Mask(p, w)), w) == 0 && Mask(q - Mask(p, w), w) == 0
  {
  }

  /** The bytes in `t` words. */
  function Bytes(t: nat, w: WordSize): nat {
    if w == 4 then 4 * t else 8 * t
  }

  lemma WordsAndTail(n: nat, w: WordSize)
    ensures n == Bytes(Words(n, w), w) + Mask(n, w)
    ensures Words(n, w) == 0 <==> n < w
  {
  }

  /** Copying upwards piece by piece never clobbers a byte that is still to be read. */
  lemma MoveOnUp(m: seq<Byte>, src: nat, dst: nat, done: nat, more: nat)
    requires dst < src && src + done + more <= |m|
    ensures Moved(Moved(m, src, dst, done), src + done, dst + done, more) == Moved(m, src, dst, done + more)
  {
    var x := Moved(m, src, dst, done);
    var y := Moved(x, src + done, dst + done, more);
    forall k | 0 <= k < |m| ensures y[k] == Moved(m, src, dst, done + more)[k] {
      if dst + done <= k < dst + done + more { assert x[src + (k - dst)] == m[src + (k - dst)]; }
    }
  }

  /** The same downwards, when the destination lies above the source. */
  lemma MoveOnDown(m: seq<Byte>, src: nat, dst: nat, more: nat, done: nat)
    requires src < dst && dst + more + done <= |m|
    ensures Moved(Moved(m, src + more, dst + more, done), src, dst, more) == Moved(m, src, dst, more + done)
  {
    var x := Moved(m, src + more, dst + more, done);
    var y := Moved(x, src, dst, more);
    forall k | 0 <= k < |m| ensures y[k] == Moved(m, src, dst, more + done)[k] {
      if dst <= k < dst + more { assert x[src + (k - dst)] == m[src + (k - dst)]; }
    }
  }

  method CopyByte(mem: array<Byte>, src: nat, dst: nat)
    requires src < mem.Length && dst < mem.Length
    modifies mem
    ensures mem[..] == Moved(old(mem[..]), src, dst, 1)
  {
    mem[dst] := mem[src];
  }

  /** One aligned machine word: loaded whole, then stored whole. */
  method CopyWord(mem: array<Byte>, src: nat, dst: nat, wsize: WordSize)
    requires Mask(src, wsize) == 0 && Mask(dst, wsize) == 0
    requires src + wsize <= mem.Length && dst + wsize <= mem.Length
    modifies mem
    ensures mem[..] == Moved(old(mem[..]), src, dst, wsize)
  {
    hide Mask;
    ghost var m := mem[..];
    var word := mem[src..src + wsize];
    for k := 0 to wsize
      invariant mem[..] == Moved(m, src, dst, k)
    {
      mem[dst + k] := word[k];
      assert word[k] == m[src + k];
    }
  }

  method BytesUp(mem: array<Byte>, src0: nat, dst0: nat, done: nat, count: nat, ghost m: seq<Byte>)
    returns (src: nat, dst: nat)
    requires dst0 < src0 && src0 + done + count <= mem.Length == |m|
    requires mem[..] == Moved(m, src0, dst0, done)
    modifies mem
    ensures src == src0 + done + count && dst == dst0 + done + count
    ensures mem[..] == Moved(m, src0, dst0, done + count)
  {
    src, dst := src0 + done, dst0 + done;
    var t: nat := count;
    while t != 0
      invariant t <= count && src == src0 + done + count - t && dst == dst0 + done + count - t
      invariant mem[..] == Moved(m, src0, dst0, done + count - t)
    {
      MoveOnUp(m, src0, dst0, done + count - t, 1);
      CopyByte(mem, src, dst);
      dst, src := dst + 1, src + 1;
      t := t - 1;
    }
  }

  method WordsUp(mem: array<Byte>, src0: nat, dst0: nat, done: nat, count: nat, wsize: WordSize, ghost m: seq<Byte>)
    returns (src: nat, dst: nat)
    requires dst0 < src0 && src0 + done + Bytes(count, wsize) <= mem.Length == |m|
    requires count != 0 ==> Mask(src0 + done, wsize) == 0 && Mask(dst0 + done, wsize) == 0
    requires mem[..] == Moved(m, src0, dst0, done)
    modifies mem
    ensures src == src0 + done + Bytes(count, wsize) && dst == dst0 + done + Bytes(count, wsize)
    ensures mem[..] == Moved(m, src0, dst0, done + Bytes(count, wsize))
  {
    src, dst := src0 + done, dst0 + done;
    ghost var copied := done;
    var t: nat := count;
    while t != 0
      invariant copied + Bytes(t, wsize) == done + Bytes(count, wsize)
      invariant src == src0 + copied && dst == dst0 + copied
      invariant t != 0 ==> Mask(src, wsize) == 0 && Mask(dst, wsize) == 0
      invariant mem[..] == Moved(m, src0, dst0, copied)
    {
      MoveOnUp(m, src0, dst0, copied, wsize);
      CopyWord(mem, src, dst, wsize);
      NextWord(src, wsize);
      NextWord(dst, wsize);
      src, dst, copied := src + wsize, dst + wsize, copied + wsize;
      t := t - 1;
    }
  }

  method BytesDown(mem: array<Byte>, src0: nat, dst0: nat, left: nat, count: nat, length: nat, ghost m: seq<Byte>)
    returns (src: nat, dst: nat)
    requires src0 < dst0 && count <= left <= length && dst0 + length <= mem.Length == |m|
    requires mem[..] == Moved(m, src0 + left, dst0 + left, length - left)
    modifies mem
    ensures src == src0 + left - count && dst == dst0 + left - count
    ensures mem[..] == Moved(m, src0 + left - count, dst0 + left - count, length - left + count)
  {
    src, dst := src0 + left, dst0 + left;
    var t: nat := count;
    while t != 0
      invariant t <= count && src == src0 + left - count + t && dst == dst0 + left - count + t
      invariant mem[..] == Moved(m, src0 + left - count + t, dst0 + left - count + t, length - left + count - t)
    {
      dst, src := dst - 1, src - 1;
      MoveOnDown(m, src, dst, 1, length - left + count - t);
      CopyByte(mem, src, dst);
      t := t - 1;
    }
  }

  method WordsDown(mem: array<Byte>, src0: nat, dst0: nat, rest: nat, count: nat, length: nat, wsize: WordSize,
                   ghost m: seq<Byte>)
    returns (src: nat, dst: nat)
    requires src0 < dst0 && Bytes(count, wsize) <= rest <= length && dst0 + length <= mem.Length == |m|
    requires count != 0 ==> Mask(src0 + rest, wsize) == 0 && Mask(dst0 + rest, wsize) == 0
    requires mem[..] == Moved(m, src0 + rest, dst0 + rest, length - rest)
    modifies mem
    ensures src == src0 + rest - Bytes(count, wsize) && dst == dst0 + rest - Bytes(count, wsize)
    ensures mem[..] == Moved(m, src, dst, length - rest + Bytes(count, wsize))
  {
    src, dst := src0 + rest, dst0 + rest;
    ghost var left: nat := rest;
    var t: nat := count;
    while t != 0
      invariant Bytes(t, wsize) <= left <= rest && left - Bytes(t, wsize) == rest - Bytes(count, wsize)
      invariant src == src0 + left && dst == dst0 + left
      invariant t != 0 ==> Mask(src, wsize) == 0 && Mask(dst, wsize) == 0
      invariant mem[..] == Moved(m, src, dst, length - left)
    {
      src, dst, left := src - wsize, dst - wsize, left - wsize;
      NextWord(src, wsize);
      NextWord(dst, wsize);
      MoveOnDown(m, src, dst, wsize, length - left - wsize);
      CopyWord(mem, src, dst, wsize);
      t := t - 1;
    }
  }

  /**
  `memmove`, for every length, alignment and overlap.  Each phase is one of the loops
  above; every word copy has to meet the alignment demands of `CopyWord`.
  */
  method Bcpy(mem: array<Byte>, src: nat, dst: nat, length: nat, wsize: WordSize)
    requires src + length <= mem.Length && dst + length <= mem.Length
    modifies mem
    ensures mem[..] == Moved(old(mem[..]), src, dst, length)
  {
    ghost var m := mem[..];
    if length == 0 || dst == src {
      assert mem[..] == Moved(m, src, dst, length);
    } else if dst < src {
      CopyForward(mem, src, dst, length, wsize);
    } else {
      CopyBackward(mem, src, dst, length, wsize);
    }
  }

  /** The bytes before the first word boundary, or all of them if the pointers never align together. */
  method HeadUp(mem: array<Byte>, src: nat, dst: nat, length: nat, wsize: WordSize) returns (done: nat)
    requires 0 < length && dst < src && src + length <= mem.Length
    modifies mem
    ensures done <= length && mem[..] == Moved(old(mem[..]), src, dst, done)
    ensures done < length ==> Mask(src + done, wsize) == 0 && Mask(dst + done, wsize) == 0
  {
    done := 0;
    if Mask(src, wsize) != 0 || Mask(dst, wsize) != 0 {
      done := if Mask(src, wsize) != Mask(dst, wsize) || length < wsize then length else wsize - Mask(src, wsize);
      if done < length {
        SameOffset(src, dst, wsize);
        SameOffset(src, src, wsize);
      }
      var s, d := BytesUp(mem, src, dst, 0, done, mem[..]);
    }
  }

  method CopyForward(mem: array<Byte>, src: nat, dst: nat, length: nat, wsize: WordSize)
    requires 0 < length && dst < src && src + length <= mem.Length
    modifies mem
    ensures mem[..] == Moved(old(mem[..]), src, dst, length)
  {
    ghost var m := mem[..];
    var done := HeadUp(mem, src, dst, length, wsize);
    var rest := length - done;
    WordsAndTail(rest, wsize);
    var s, d := WordsUp(mem, src, dst, done, Words(rest, wsize), wsize, m);
    s, d := BytesUp(mem, src, dst, s - src, Mask(rest, wsize), m);
  }

  /** The bytes above the last word boundary, or all of them if the pointers never align together. */
  method HeadDown(mem: array<Byte>, src: nat, dst: nat, length: nat, wsize: WordSize) returns (rest: nat)
    requires 0 < length && src < dst && dst + length <= mem.Length
    modifies mem
    ensures rest <= length && mem[..] == Moved(old(mem[..]), src + rest, dst + rest, length - rest)
    ensures rest > 0 ==> Mask(src + rest, wsize) == 0 && Mask(dst + rest, wsize) == 0
  {
    var u, v := src + length, dst + length;
    rest := length;
    if Mask(u, wsize) != 0 || Mask(v, wsize) != 0 {
      var t := if Mask(u, wsize) != Mask(v, wsize) || length <= wsize then length else Mask(u, wsize);
      rest := length - t;
      if rest > 0 {
        SameOffset(u, v, wsize);
        SameOffset(u, u, wsize);
        assert src + rest == u - Mask(u, wsize) && dst + rest == v - Mask(u, wsize);
      }
      var s, d := BytesDown(mem, src, dst, length, t, length, mem[..]);
    }
  }

  method CopyBackward(mem: array<Byte>, src: nat, dst: nat, length: nat, wsize: WordSize)
    requires 0 < length && src < dst && dst + length <= mem.Length
    modifies mem
    ensures mem[..] == Moved(old(mem[..]), src, dst, length)
  {
    ghost var m := mem[..];
    var rest := HeadDown(mem, src, dst, length, wsize);
    WordsAndTail(rest, wsize);
    var s, d := WordsDown(mem, src, dst, rest, Words(rest, wsize), length, wsize, m);
    s, d := BytesDown(mem, src, dst, s - src, Mask(rest, wsize), length, m);
  }

  // ------------------------------------------------- arrays of larger elements

  /** `n * size`, as repeated addition. */
  function Times(n: nat, size: nat): nat
    decreases n
  {
    if n == 0 then 0 else size + Times(n - 1, size)
  }

  /** The bytes of an array of elements, one after the other. */
  function Layout(m: seq<seq<Byte>>): seq<Byte> {
    if m == [] then [] else m[0] + Layout(m[1..])
  }

  ghost predicate Sized(m: seq<seq<Byte>>, size: nat) {
    forall i :: 0 <= i < |m| ==> |m[i]| == size
  }

  lemma {:induction false} LayoutLength(m: seq<seq<Byte>>, size: nat)
    requires Sized(m, size)
    ensures |Layout(m)| == Times(|m|, size)
    decreases |m|
  {
    if m != [] { LayoutLength(m[1..], size); }
  }

  lemma {:induction false} LayoutConcat(a: seq<seq<Byte>>, b: seq<seq<Byte>>)
    ensures Layout(a + b) == Layout(a) + Layout(b)
    decreases |a|
  {
    if a == [] {
      assert a + b == b;
    } else {
      assert (a + b)[0] == a[0] && (a + b)[1..] == a[1..] + b;
      LayoutConcat(a[1..], b);
    }
  }

  lemma MovedPieces<T>(m: seq<T>, x: seq<T>, y: seq<T>, z: seq<T>, x': seq<T>, y': seq<T>, z': seq<T>)
    requires m == x + (y + z) == x' + (y' + z') && |y| == |y'|
    ensures Moved(m, |x|, |x'|, |y|) == x' + (y + z')
  {
  }

  /**
  Moving whole elements is moving their bytes, so a byte copy moves elements.  The array is cut at
  the source range as x + y + z and at the target range as x' + y' + z'; all elements have one size.
  */
  lemma ElementsMoveAsBytes(m: seq<seq<Byte>>, x: seq<seq<Byte>>, y: seq<seq<Byte>>, z: seq<seq<Byte>>,
                            x': seq<seq<Byte>>, y': seq<seq<Byte>>, z': seq<seq<Byte>>, size: nat)
    requires m == x + (y + z) == x' + (y' + z') && |y| == |y'| && Sized(y, size) && Sized(y', size)
    ensures Layout(m) == Layout(x) + (Layout(y) + Layout(z)) == Layout(x') + (Layout(y') + Layout(z'))
    ensures |Layout(y)| == |Layout(y')| == Times(|y|, size)
    ensures Moved(Layout(m), |Layout(x)|, |Layout(x')|, |Layout(y)|) == Layout(Moved(m, |x|, |x'|, |y|))
  {
    LayoutLength(y, size);
    LayoutLength(y', size);
    LayoutConcat(x, y + z);
    LayoutConcat(y, z);
    LayoutConcat(x', y' + z');
    LayoutConcat(y', z');
    MovedPieces(Layout(m), Layout(x), Layout(y), Layout(z), Layout(x'), Layout(y'), Layout(z'));
    MovedPieces(m, x, y, z, x', y', z');
    LayoutConcat(x', y + z');
    LayoutConcat(y, z');
  }
}
