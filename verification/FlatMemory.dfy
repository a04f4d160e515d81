/** The byte-addressed memory that headers, payloads and loaded images all share, with
    the loads and stores of kernel code. Specifications speak of its contents m = mem[..]. */
module FlatMemory {
  import opened Bytes

  /** The app window: the addresses set aside for a loaded program. */
  const WINDOW_START: nat := 0x0040_0000
  const WINDOW_END: nat := 0x0080_0000

  /** The little-endian number of the given width at an address. */
  function Load(m: seq<Byte>, at: nat, width: nat): (v: nat)
    requires at + width <= |m|
    ensures v < Pow256(width)
  {
    Number(m[at..at + width])
  }

  function Load64(m: seq<Byte>, at: nat): (v: Word)
    requires at + 8 <= |m|
  {
    WidthsOfWords();
    Load(m, at, 8)
  }

  /** The contents are the same outside the given stretch. */
  ghost predicate SameOutside(before: seq<Byte>, after: seq<Byte>, lo: int, hi: int) {
    && |before| == |after|
    && forall a :: 0 <= a < |before| && !(lo <= a < hi) ==> before[a] == after[a]
  }

  lemma SameOutsideTwice(a: seq<Byte>, b: seq<Byte>, c: seq<Byte>, lo: int, hi: int)
    requires SameOutside(a, b, lo, hi) && SameOutside(b, c, lo, hi)
    ensures SameOutside(a, c, lo, hi)
  {}

  method Store64(mem: array<Byte>, at: nat, value: Word)
    requires at + 8 <= mem.Length
    modifies mem
    ensures Load64(mem[..], at) == value
    ensures SameOutside(old(mem[..]), mem[..], at, at + 8)
  {
    var bytes := Little(value, 8);
    forall k | 0 <= k < 8 {
      mem[at + k] := bytes[k];
    }
    WidthsOfWords();
    NumberOfLittle(value, 8);
    assert mem[..][at..at + 8] == bytes;
  }
}
