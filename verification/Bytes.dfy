/** Bytes, machine words and their little-endian layout in memory. */
module Bytes {

  datatype Option<+T> = None | Some(value: T)

  type Byte = b: int | 0 <= b < 0x100
  type Word32 = w: int | 0 <= w < 0x1_0000_0000
  type Word = w: int | 0 <= w < 0x1_0000_0000_0000_0000

  const WORD_LIMIT: int := 0x1_0000_0000_0000_0000

  /** 256 to the power n: the number of values that fit in n bytes. */
  function Pow256(n: nat): (r: nat)
    ensures r > 0
  {
    if n == 0 then 1 else 256 * Pow256(n - 1)
  }

  /** The n low bytes of v, least significant first. */
  function Little(v: nat, n: nat): (s: seq<Byte>)
    ensures |s| == n
  {
    if n == 0 then [] else [v % 256] + Little(v / 256, n - 1)
  }

  /** The number a little-endian byte string stands for. */
  function Number(s: seq<Byte>): (v: nat)
    ensures v < Pow256(|s|)
  {
    if s == [] then 0 else s[0] + 256 * Number(s[1..])
  }

  lemma {:induction false} NumberOfLittle(v: nat, n: nat)
    requires v < Pow256(n)
    ensures Number(Little(v, n)) == v
  {
    if n > 0 {
      NumberOfLittle(v / 256, n - 1);
      assert Little(v, n)[1..] == Little(v / 256, n - 1);
    }
  }

  lemma {:induction false} LittleOfNumber(s: seq<Byte>)
    ensures Little(Number(s), |s|) == s
  {
    if s != [] {
      LittleOfNumber(s[1..]);
      assert Number(s) % 256 == s[0] && Number(s) / 256 == Number(s[1..]);
    }
  }

  /** Least significant byte first: four bytes written out. */
  lemma LittleIsLittleEndian(v: nat)
    ensures Little(v, 4) == [v % 0x100, (v / 0x100) % 0x100, (v / 0x1_0000) % 0x100, (v / 0x100_0000) % 0x100]
  {
    assert Little(v / 0x100_0000, 1) == [(v / 0x100_0000) % 0x100];
    assert v / 0x1_0000 / 0x100 == v / 0x100_0000 && v / 0x100 / 0x100 == v / 0x1_0000;
    assert Little(v / 0x1_0000, 2) == [(v / 0x1_0000) % 0x100, (v / 0x100_0000) % 0x100];
    assert Little(v / 0x100, 3) == [(v / 0x100) % 0x100] + Little(v / 0x1_0000, 2);
  }

  lemma WidthsOfWords()
    ensures Pow256(2) == 0x1_0000
    ensures Pow256(4) == 0x1_0000_0000
    ensures Pow256(8) == WORD_LIMIT
  {
    assert Pow256(6) == 0x1_0000_0000_0000;
  }

  lemma AroundIndex<T>(s: seq<T>, n: nat)
    requires n < |s|
    ensures s == s[..n] + [s[n]] + s[n + 1..]
  {}

  lemma ConcatAssociates<T>(a: seq<T>, b: seq<T>, c: seq<T>)
    ensures (a + b) + c == a + (b + c)
  {}

  lemma SliceOfSlice<T>(m: seq<T>, lo: nat, hi: nat, i: nat, j: nat)
    requires lo <= hi <= |m| && i <= j <= hi - lo
    ensures m[lo..hi][i..j] == m[lo + i..lo + j]
  {
    var a, b := m[lo..hi][i..j], m[lo + i..lo + j];
    assert forall k :: 0 <= k < |a| ==> a[k] == b[k];
  }

  /** A slice of the middle part of a concatenation. */
  lemma SliceMiddle<T>(a: seq<T>, b: seq<T>, c: seq<T>, i: nat, j: nat)
    requires i <= j <= |b|
    ensures (a + b + c)[|a| + i..|a| + j] == b[i..j]
  {}

  lemma SliceFront<T>(a: seq<T>, b: seq<T>, i: nat, j: nat)
    requires i <= j <= |a|
    ensures (a + b)[i..j] == a[i..j]
  {}

  lemma SliceTail<T>(a: seq<T>, b: seq<T>, i: nat, j: nat)
    requires i <= j <= |b|
    ensures (a + b)[|a| + i..|a| + j] == b[i..j]
  {}

  /** 32-bit arithmetic keeps the low half of the result. */
  function Wrap32(x: nat): (r: Word32)
    ensures x < 0x1_0000_0000 ==> r == x
  {
    x % 0x1_0000_0000
  }

  lemma Wrap32Sum(x: nat, y: nat)
    ensures Wrap32(Wrap32(x) + Wrap32(y)) == Wrap32(x + y)
  {}

  /** Rounding up to a multiple of the alignment as 64-bit machine arithmetic does it:
      the addition wraps around. */
  function AlignUp(value: Word, alignment: nat): (r: Word)
    requires 0 < alignment
  {
    var sum := (value + alignment - 1) % WORD_LIMIT;
    sum - sum % alignment
  }

  predicate Aligned16(x: int) {
    x % 16 == 0
  }

  lemma Aligned16Sum(x: int, y: int)
    requires Aligned16(x) && Aligned16(y)
    ensures Aligned16(x + y) && Aligned16(x - y)
  {}
}
