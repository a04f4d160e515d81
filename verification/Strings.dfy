/** strings.c: the copy, fill and compare loops, on flat memory. */
module Strings {
  import opened Bytes
  import opened FlatMemory

  /** A C string s starts at the address. */
  ghost predicate IsString(m: seq<Byte>, at: nat, s: seq<Byte>) {
    at + |s| < |m| && m[at..at + |s|] == s && m[at + |s|] == 0
  }

  /** The characters of a C string: none of them is the terminator. */
  predicate NoNul(s: seq<Byte>) {
    forall i :: 0 <= i < |s| ==> s[i] != 0
  }

  /** The C string at the address ends before `end`. */
  ghost predicate Terminated(m: seq<Byte>, at: nat, end: nat) {
    exists k :: at <= k < end && k < |m| && m[k] == 0
  }

  /** A string's length is the distance to the first terminator. */
  lemma StringEnd(m: seq<Byte>, at: nat, s: seq<Byte>)
    requires IsString(m, at, s) && NoNul(s)
    ensures forall a :: at <= a < at + |s| ==> m[a] != 0
  {
    forall a | at <= a < at + |s| ensures m[a] != 0 {
      assert m[a] == m[at..at + |s|][a - at];
    }
  }

  /** Whether a string starts somewhere is settled by the bytes up to a terminator. */
  lemma StringIsLocal(m: seq<Byte>, n: seq<Byte>, at: nat, end: nat, s: seq<Byte>)
    requires |m| == |n| && Terminated(m, at, end) && NoNul(s)
    requires forall a :: at <= a < end && a < |m| ==> m[a] == n[a]
    requires IsString(m, at, s)
    ensures IsString(n, at, s)
  {
    StringEnd(m, at, s);
    assert m[at..at + |s|] == n[at..at + |s|];
  }

  /** The bytes at the address first depart from s by the given difference. */
  ghost predicate FirstDifference(m: seq<Byte>, at: nat, s: seq<Byte>, difference: int) {
    exists i {:trigger s[i]} :: 0 <= i < |s| && at + i < |m|
      && m[at..at + i] == s[..i] && m[at + i] as int - s[i] as int == difference
  }

  /** string_compare against a constant string, whose terminator is implicit here. */
  method StringCompare(mem: array<Byte>, left: nat, right: seq<Byte>) returns (difference: int)
    requires Terminated(mem[..], left, mem.Length) && NoNul(right)
    ensures difference == 0 <==> IsString(mem[..], left, right)
    ensures difference != 0 ==> FirstDifference(mem[..], left, right + [0], difference)
  {
    ghost var m := mem[..];
    ghost var nul :| left <= nul < |m| && m[nul] == 0;
    var i := 0;
    while left + i < mem.Length && mem[left + i] != 0 && i < |right|
      invariant i <= |right| && left + i <= nul
      invariant m[left..left + i] == right[..i]
    {
      if mem[left + i] != right[i] {
        assert left + |right| < |m| ==> m[left..left + |right|][i] == m[left + i];
        assert (right + [0])[..i] == right[..i] && (right + [0])[i] == right[i];
        return mem[left + i] as int - right[i] as int;
      }
      i := i + 1;
    }
    assert (right + [0])[..i] == right[..i] && (right + [0])[i] == if i < |right| then right[i] else 0;
    difference := mem[left + i] as int - (if i < |right| then right[i] as int else 0);
    if i < |right| {
      assert left + |right| < |m| ==> m[left..left + |right|][i] == m[left + i];
    }
  }

  /** The characters a pointer stands for: those before the terminator. */
  method StringAt(mem: array<Byte>, at: nat) returns (s: seq<Byte>)
    requires Terminated(mem[..], at, mem.Length)
    ensures IsString(mem[..], at, s) && NoNul(s)
  {
    ghost var nul :| at <= nul < mem.Length && mem[nul] == 0;
    s := [];
    while mem[at + |s|] != 0
      invariant at + |s| <= nul && s == mem[at..at + |s|] && NoNul(s)
      decreases nul - |s|
    {
      s := s + [mem[at + |s|]];
    }
  }

  method MemoryCompare(mem: array<Byte>, left: nat, right: seq<Byte>) returns (difference: int)
    requires left + |right| <= mem.Length
    ensures difference == 0 <==> mem[left..left + |right|] == right
    ensures difference != 0 ==> FirstDifference(mem[..], left, right, difference)
  {
    for index := 0 to |right|
      invariant mem[left..left + index] == right[..index]
    {
      if mem[left + index] != right[index] {
        assert mem[left..left + |right|][index] == mem[left + index];
        return mem[left + index] as int - right[index] as int;
      }
    }
    return 0;
  }

  method MemorySet(mem: array<Byte>, destination: nat, value: Byte, count: nat)
    requires destination + count <= mem.Length
    modifies mem
    ensures SameOutside(old(mem[..]), mem[..], destination, destination + count)
    ensures forall a :: destination <= a < destination + count ==> mem[a] == value
  {
    for index := 0 to count
      invariant SameOutside(old(mem[..]), mem[..], destination, destination + index)
      invariant forall a :: destination <= a < destination + index ==> mem[a] == value
    {
      mem[destination + index] := value;
    }
  }

  /** The byte-by-byte forward copy. Where the destination starts inside the source, the
      stretch between the two is repeated. */
  method MemoryCopy(mem: array<Byte>, destination: nat, source: nat, count: nat)
    requires destination + count <= mem.Length && source + count <= mem.Length
    modifies mem
    ensures SameOutside(old(mem[..]), mem[..], destination, destination + count)
    ensures forall a :: destination <= a < destination + count ==>
      var from := a - destination + source;
      mem[a] == if destination <= from < a then mem[from] else old(mem[from])
  {
    for index := 0 to count
      invariant SameOutside(old(mem[..]), mem[..], destination, destination + index)
      invariant forall a :: destination <= a < destination + index ==>
        var from := a - destination + source;
        mem[a] == if destination <= from < a then mem[from] else old(mem[from])
    {
      mem[destination + index] := mem[source + index];
    }
  }
}
