/** The keyboard ring: an interrupt handler that pushes, and a consumer that may be
    interrupted between any two of its memory accesses. */
module Keyboard {
  import opened Bytes

  const RING: nat := 256
  const BACKSPACE: char := '\U{8}'

  // ---------- Scan codes ----------

  /** The character of a key, '\0' where the keymap has no entry. */
  function KeyAt(shift: bool, scan: Byte): char {
    if 0x02 <= scan <= 0x0D then (if shift then "!@#$%^&*()_+" else "1234567890-=")[scan - 0x02]
    else if scan == 0x0E then (if shift then '\0' else BACKSPACE)
    else if scan == 0x0F then (if shift then '\0' else '\t')
    else if 0x10 <= scan <= 0x1C then (if shift then "QWERTYUIOP{}\n" else "qwertyuiop[]\n")[scan - 0x10]
    else if 0x1E <= scan <= 0x29 then (if shift then "ASDFGHJKL:\"~" else "asdfghjkl;'`")[scan - 0x1E]
    else if scan == 0x2B then (if shift then '|' else '\\')
    else if 0x2C <= scan <= 0x35 then (if shift then "ZXCVBNM<>?" else "zxcvbnm,./")[scan - 0x2C]
    else if scan == 0x39 then ' '
    else '\0'
  }

  predicate ShiftDown(scan: Byte) { scan == 0x2A || scan == 0x36 }
  predicate ShiftUp(scan: Byte) { scan == 0xAA || scan == 0xB6 }

  function ShiftAfter(shift: bool, scan: Byte): bool {
    if ShiftDown(scan) then true else if ShiftUp(scan) then false else shift
  }

  /** The character a scan code types, if any: releases and shift keys type nothing. */
  function Typed(shift: bool, scan: Byte): Option<char> {
    if ShiftDown(scan) || scan >= 0x80 || KeyAt(shift, scan) == '\0' then None else Some(KeyAt(shift, scan))
  }

  /** A key that types the character, with or without shift. */
  ghost predicate HasKey(c: char) {
    exists shift: bool, scan: Byte :: Typed(shift, scan) == Some(c)
  }

  lemma RowHasKeys(shift: bool, row: string, first: Byte, c: char)
    requires c in row && first + |row| <= 0x80
    requires forall i :: 0 <= i < |row| ==> Typed(shift, first + i) == Some(row[i])
    ensures HasKey(c)
  {
    var i :| 0 <= i < |row| && row[i] == c;
    assert Typed(shift, first + i) == Some(c);
  }

  lemma DigitRowHasKeys(c: char)
    ensures c in "1234567890-=" || c in "!@#$%^&*()_+" ==> HasKey(c)
  {
    if c in "1234567890-=" {
      RowHasKeys(false, "1234567890-=", 0x02, c);
    } else if c in "!@#$%^&*()_+" {
      RowHasKeys(true, "!@#$%^&*()_+", 0x02, c);
    }
  }

  lemma TopRowHasKeys(c: char)
    ensures c in "qwertyuiop[]\n" || c in "QWERTYUIOP{}\n" ==> HasKey(c)
  {
    if c in "qwertyuiop[]\n" {
      RowHasKeys(false, "qwertyuiop[]\n", 0x10, c);
    } else if c in "QWERTYUIOP{}\n" {
      RowHasKeys(true, "QWERTYUIOP{}\n", 0x10, c);
    }
  }

  lemma HomeRowHasKeys(c: char)
    ensures c in "asdfghjkl;'`" || c in "ASDFGHJKL:\"~" ==> HasKey(c)
  {
    if c in "asdfghjkl;'`" {
      RowHasKeys(false, "asdfghjkl;'`", 0x1E, c);
    } else if c in "ASDFGHJKL:\"~" {
      RowHasKeys(true, "ASDFGHJKL:\"~", 0x1E, c);
    }
  }

  lemma BottomRowHasKeys(c: char)
    ensures c in "zxcvbnm,./" || c in "ZXCVBNM<>?" ==> HasKey(c)
  {
    if c in "zxcvbnm,./" {
      RowHasKeys(false, "zxcvbnm,./", 0x2C, c);
    } else if c in "ZXCVBNM<>?" {
      RowHasKeys(true, "ZXCVBNM<>?", 0x2C, c);
    }
  }

  /** The keys that type no printable character. */
  lemma ControlKeys()
    ensures Typed(false, 0x0E) == Some('\U{0008}') && Typed(false, 0x0F) == Some('\t')
    ensures forall shift :: Typed(shift, 0x1C) == Some('\n')
  {}

  lemma SingleKeys()
    ensures HasKey('\\') && HasKey('|') && HasKey(' ')
  {
    assert Typed(false, 0x2B) == Some('\\') && Typed(true, 0x2B) == Some('|') && Typed(false, 0x39) == Some(' ');
  }

  /** Every printable ASCII character can be typed. */
  lemma PrintableHasKey(c: char)
    requires ' ' <= c <= '~'
    ensures HasKey(c)
  {
    hide HasKey;
    DigitRowHasKeys(c);
    TopRowHasKeys(c);
    HomeRowHasKeys(c);
    BottomRowHasKeys(c);
    SingleKeys();
  }

  // ---------- The ring ----------

  datatype Ring = Ring(buffer: seq<char>, head: Byte, tail: Byte, shift: bool) {
    ghost predicate Valid() { |buffer| == RING }
  }

  /** 8-bit index arithmetic. */
  function Wrap8(x: nat): (r: Byte)
    requires x < 512
    ensures r == x % 256
  {
    if x < 256 then x else x - 256
  }

  function Succ(i: Byte): Byte {
    Wrap8(i + 1)
  }

  function Pending(r: Ring): (n: nat)
    ensures n < RING
  {
    Wrap8(r.head + 256 - r.tail)
  }

  /** The characters waiting, oldest first. */
  function Contents(r: Ring): (s: seq<char>)
    requires r.Valid()
    ensures |s| == Pending(r)
  {
    seq(Pending(r), i requires 0 <= i < Pending(r) => r.buffer[Wrap8(r.tail + i)])
  }

  /** buffer_push: dropped when the next head would meet the tail. */
  function Push(r: Ring, c: char): (p: Ring)
    requires r.Valid()
    ensures p.Valid()
  {
    if Succ(r.head) == r.tail then r else r.(buffer := r.buffer[r.head := c], head := Succ(r.head))
  }

  /** keyboard_irq_handler. */
  function Irq(r: Ring, scan: Byte): (p: Ring)
    requires r.Valid()
    ensures p.Valid()
  {
    var s := r.(shift := ShiftAfter(r.shift, scan));
    match Typed(r.shift, scan)
    case None => s
    case Some(c) => Push(s, c)
  }

  lemma PushAppends(r: Ring, c: char)
    requires r.Valid()
    ensures Pending(r) == RING - 1 <==> Push(r, c) == r
    ensures Pending(r) == RING - 1 <==> Push(r, c).head == r.head
    ensures Pending(r) < RING - 1 ==> Contents(Push(r, c)) == Contents(r) + [c]
    ensures 0 < Pending(r) ==> Push(r, c).buffer[r.tail] == r.buffer[r.tail]
  {
    if Pending(r) < RING - 1 {
      var p := Push(r, c);
      assert Pending(p) == Pending(r) + 1;
      assert Wrap8(r.tail + Pending(r)) == r.head;
      assert Contents(p)[Pending(r)] == c;
      forall i | 0 <= i < Pending(r) ensures Contents(p)[i] == Contents(r)[i] {
        assert Wrap8(r.tail + i) != r.head;
      }
    }
  }

  lemma AdvanceDrops(r: Ring)
    requires r.Valid() && 0 < Pending(r)
    ensures Contents(r)[0] == r.buffer[r.tail]
    ensures Contents(r.(tail := Succ(r.tail))) == Contents(r)[1..]
  {
    var p := r.(tail := Succ(r.tail));
    assert Contents(r)[0] == r.buffer[Wrap8(r.tail + 0)];
    assert Pending(p) == Pending(r) - 1;
    forall i | 0 <= i < Pending(p) ensures Contents(p)[i] == Contents(r)[i + 1] {
      assert Wrap8(Succ(r.tail) + i) == Wrap8(r.tail + i + 1);
    }
  }

  // ---------- The consumer, one memory access at a time ----------

  /** Where the consumer is in keyboard_pop, with what it has loaded. The two loads of the
      emptiness test may come in either order. */
  datatype Pc =
    | Idle
    | HasHead(head: Byte)
    | HasTail(tail: Byte)
    | NotEmpty
    | HasIndex(index: Byte)
    | HasChar(c: char)
    | Storing(c: char, newTail: Byte)

  datatype System = System(ring: Ring, pc: Pc, accepted: seq<char>, popped: seq<char>)

  datatype Event = Interrupt(scan: Byte) | Access(tailFirst: bool)

  function Start(buffer: seq<char>): System {
    System(Ring(buffer, 0, 0, false), Idle, [], [])
  }

  /** The next access of the consumer. */
  function Consume(s: System, tailFirst: bool): System
    requires s.ring.Valid()
  {
    match s.pc
    case Idle => s.(pc := if tailFirst then HasTail(s.ring.tail) else HasHead(s.ring.head))
    case HasHead(h) => s.(pc := if h == s.ring.tail then Idle else NotEmpty)
    case HasTail(t) => s.(pc := if s.ring.head == t then Idle else NotEmpty)
    case NotEmpty => s.(pc := HasIndex(s.ring.tail))
    case HasIndex(i) => s.(pc := HasChar(s.ring.buffer[i]))
    case HasChar(c) => s.(pc := Storing(c, Succ(s.ring.tail)))
    case Storing(c, t) => s.(ring := s.ring.(tail := t), pc := Idle, popped := s.popped + [c])
  }

  /** A key interrupt runs to completion between two accesses; the character counts as
      accepted when it moved the head. */
  function Handle(s: System, scan: Byte): System
    requires s.ring.Valid()
  {
    var r := Irq(s.ring, scan);
    var typed := Typed(s.ring.shift, scan);
    s.(ring := r,
       accepted := if r.head != s.ring.head && typed.Some? then s.accepted + [typed.value] else s.accepted)
  }

  function Next(s: System, e: Event): (t: System)
    requires s.ring.Valid()
    ensures t.ring.Valid()
  {
    match e
    case Interrupt(scan) => Handle(s, scan)
    case Access(tailFirst) => Consume(s, tailFirst)
  }

  function Run(s: System, es: seq<Event>): (t: System)
    requires s.ring.Valid()
    ensures t.ring.Valid()
  {
    if es == [] then s else Next(Run(s, es[..|es| - 1]), es[|es| - 1])
  }

  /** What the consumer has loaded is still true when it is used. */
  ghost predicate Consistent(s: System) {
    && s.ring.Valid()
    && s.accepted == s.popped + Contents(s.ring)
    && match s.pc
       case Idle => true
       case HasHead(h) => h != s.ring.tail ==> 0 < Pending(s.ring)
       case HasTail(t) => t == s.ring.tail
       case NotEmpty => 0 < Pending(s.ring)
       case HasIndex(i) => 0 < Pending(s.ring) && i == s.ring.tail
       case HasChar(c) => 0 < Pending(s.ring) && c == s.ring.buffer[s.ring.tail]
       case Storing(c, t) => 0 < Pending(s.ring) && c == s.ring.buffer[s.ring.tail] && t == Succ(s.ring.tail)
  }

  lemma InterruptKeepsConsistent(s: System, scan: Byte)
    requires Consistent(s)
    ensures Consistent(Handle(s, scan))
    ensures Handle(s, scan).ring.tail == s.ring.tail && Pending(s.ring) <= Pending(Handle(s, scan).ring)
    ensures 0 < Pending(s.ring) ==> Handle(s, scan).ring.buffer[s.ring.tail] == s.ring.buffer[s.ring.tail]
  {
    var r := s.ring.(shift := ShiftAfter(s.ring.shift, scan));
    assert Contents(r) == Contents(s.ring);
    match Typed(s.ring.shift, scan)
    case None =>
    case Some(c) => PushAppends(r, c);
  }

  lemma AccessKeepsConsistent(s: System, tailFirst: bool)
    requires Consistent(s)
    ensures Consistent(Consume(s, tailFirst))
  {
    if s.pc.Storing? {
      AdvanceDrops(s.ring);
    }
  }

  /** In every interleaving of interrupts with the accesses of keyboard_pop, the accepted
      characters are the popped ones followed by those in the ring: none is lost,
      duplicated, reordered or overwritten. */
  lemma {:induction false} EveryInterleavingIsConsistent(buffer: seq<char>, es: seq<Event>)
    requires |buffer| == RING
    ensures Consistent(Run(Start(buffer), es))
  {
    if es != [] {
      EveryInterleavingIsConsistent(buffer, es[..|es| - 1]);
      match es[|es| - 1]
      case Interrupt(scan) => InterruptKeepsConsistent(Run(Start(buffer), es[..|es| - 1]), scan);
      case Access(tailFirst) => AccessKeepsConsistent(Run(Start(buffer), es[..|es| - 1]), tailFirst);
    }
  }

  /** The six accesses of one pop, when the ring is not empty. */
  lemma PopAccesses(s: System, first: bool, rest: bool)
    requires Consistent(s) && s.pc.Idle? && 0 < Pending(s.ring)
    ensures
      var three := Consume(Consume(Consume(s, first), rest), rest);
      Consume(Consume(Consume(three, rest), rest), rest)
      == s.(ring := s.ring.(tail := Succ(s.ring.tail)), popped := s.popped + [Contents(s.ring)[0]])
  {
    AdvanceDrops(s.ring);
    assert s.ring.head != s.ring.tail;
    var three := Consume(Consume(Consume(s, first), rest), rest);
    assert three == s.(pc := HasIndex(s.ring.tail));
  }

  function ThreeSteps(first: bool, rest: bool): seq<Event> {
    [Access(first), Access(rest), Access(rest)]
  }

  /** Without an interrupt in between, they deliver the oldest character. */
  lemma UninterruptedPop(s: System, first: bool, rest: bool)
    requires Consistent(s) && s.pc.Idle? && 0 < Pending(s.ring)
    ensures
      Run(s, ThreeSteps(first, rest) + ThreeSteps(rest, rest))
      == s.(ring := s.ring.(tail := Succ(s.ring.tail)), popped := s.popped + [Contents(s.ring)[0]])
  {
    PopAccesses(s, first, rest);
    hide Consume, Contents, Pending, Succ, Run, ThreeSteps;
    ThreeAccesses(s, [], first, rest);
    ThreeAccesses(s, ThreeSteps(first, rest), rest, rest);
    NothingRun(s);
    assert [] + ThreeSteps(first, rest) == ThreeSteps(first, rest);
  }

  lemma NothingRun(s: System)
    requires s.ring.Valid()
    ensures Run(s, []) == s
  {}

  lemma ThreeAccesses(s: System, es: seq<Event>, first: bool, rest: bool)
    requires s.ring.Valid()
    ensures Run(s, es + ThreeSteps(first, rest)) == Consume(Consume(Consume(Run(s, es), first), rest), rest)
  {
    hide Consume, Run;
    var a, b := Access(first), Access(rest);
    RunFrom(s, es, a);
    RunFrom(s, es + [a], b);
    RunFrom(s, es + [a] + [b], b);
    assert es + [a] + [b] + [b] == es + ThreeSteps(first, rest);
  }

  lemma RunFrom(s: System, es: seq<Event>, e: Event)
    requires s.ring.Valid()
    ensures Run(s, es + [e]) == Next(Run(s, es), e)
  {
    assert (es + [e])[..|es|] == es;
  }

  /** The keys typed in a run of interrupts, with the shift state they leave. */
  function TypedText(es: seq<Event>): (string, bool) {
    if es == [] then ("", false) else
    var (text, shift) := TypedText(es[..|es| - 1]);
    match es[|es| - 1]
    case Access(_) => (text, shift)
    case Interrupt(scan) =>
      (text + (match Typed(shift, scan) case None => "" case Some(c) => [c]), ShiftAfter(shift, scan))
  }

  /** A shift key went down, and none has come up since. */
  ghost predicate ShiftHeld(es: seq<Event>) {
    exists n :: 0 <= n < |es| && es[n].Interrupt? && (es[n].scan == 0x2A || es[n].scan == 0x36)
      && forall m :: n < m < |es| && es[m].Interrupt? ==> es[m].scan != 0xAA && es[m].scan != 0xB6
  }

  lemma ShiftHeldNext(es: seq<Event>)
    requires es != []
    ensures
      var front, last := es[..|es| - 1], es[|es| - 1];
      ShiftHeld(es) <==>
        || (last.Interrupt? && (last.scan == 0x2A || last.scan == 0x36))
        || (ShiftHeld(front) && !(last.Interrupt? && (last.scan == 0xAA || last.scan == 0xB6)))
  {
    var front, last := es[..|es| - 1], es[|es| - 1];
    assert forall n :: 0 <= n < |front| ==> front[n] == es[n];
    if ShiftHeld(es) {
      var n :| 0 <= n < |es| && es[n].Interrupt? && (es[n].scan == 0x2A || es[n].scan == 0x36)
        && forall m :: n < m < |es| && es[m].Interrupt? ==> es[m].scan != 0xAA && es[m].scan != 0xB6;
      assert n < |front| ==> front[n] == es[n];
    }
    if last.Interrupt? && (last.scan == 0x2A || last.scan == 0x36) {
      assert es[|es| - 1].Interrupt?;
    }
  }

  /** In every interleaving the handler takes shift for held exactly when, of the codes of the
      two shift keys, the last to come in was one of a key going down. */
  lemma {:induction false} ShiftFollowsTheKeys(buffer: seq<char>, es: seq<Event>)
    requires |buffer| == RING
    ensures Run(Start(buffer), es).ring.shift <==> ShiftHeld(es)
  {
    hide ShiftHeld;
    if es == [] {
      NothingHeld();
    } else {
      ShiftFollowsTheKeys(buffer, es[..|es| - 1]);
      ShiftHeldNext(es);
    }
  }

  lemma NothingHeld()
    ensures !ShiftHeld([])
  {}

  lemma TextWithKey(es: seq<Event>, scan: Byte)
    ensures
      var (text, shift) := TypedText(es);
      TypedText(es + [Interrupt(scan)])
      == (text + (match Typed(shift, scan) case None => "" case Some(c) => [c]), ShiftAfter(shift, scan))
  {
    assert (es + [Interrupt(scan)])[..|es|] == es;
  }

  /** Shift down, A, shift up, A. */
  lemma ShiftedThenPlain()
    ensures TypedText([Interrupt(0x2A), Interrupt(0x1E), Interrupt(0xAA), Interrupt(0x1E)]).0 == "Aa"
  {
    var down, key, up := Interrupt(0x2A), Interrupt(0x1E), Interrupt(0xAA);
    TextWithKey([], 0x2A);
    TextWithKey([] + [down], 0x1E);
    TextWithKey([] + [down] + [key], 0xAA);
    TextWithKey([] + [down] + [key] + [up], 0x1E);
    assert [] + [down] + [key] + [up] + [key] == [down, key, up, key];
  }

  /** In the state a key comes in, it types a character and 255 are already waiting. */
  ghost predicate Refuses(s: System, scan: Byte) {
    Typed(s.ring.shift, scan).Some? && Pending(s.ring) == RING - 1
  }

  ghost predicate RefusedAt(s: System, es: seq<Event>, n: nat)
    requires s.ring.Valid() && n < |es|
  {
    es[n].Interrupt? && Refuses(Run(s, es[..n]), es[n].scan)
  }

  /** No key that types a character comes in while 255 are waiting. */
  ghost predicate NoneRefused(s: System, es: seq<Event>)
    requires s.ring.Valid()
  {
    forall n :: 0 <= n < |es| ==> !RefusedAt(s, es, n)
  }

  /** A key adds its character to the accepted ones unless it is refused. */
  lemma HandleAccepts(s: System, scan: Byte)
    requires s.ring.Valid()
    ensures
      var text := match Typed(s.ring.shift, scan) case None => "" case Some(c) => [c];
      Handle(s, scan).accepted == s.accepted + if Refuses(s, scan) then "" else text
    ensures Handle(s, scan).ring.shift == ShiftAfter(s.ring.shift, scan)
  {
    var r := s.ring.(shift := ShiftAfter(s.ring.shift, scan));
    match Typed(s.ring.shift, scan)
    case None =>
    case Some(c) => PushAppends(r, c);
  }

  lemma NoneRefusedYet(s: System)
    requires s.ring.Valid()
    ensures NoneRefused(s, [])
  {}

  lemma AppendCancels(a: string, b: string, t: string)
    ensures a + t == b + t <==> a == b
  {
    if a + t == b + t {
      assert a == (a + t)[..|a|] && b == (b + t)[..|b|];
    }
  }

  lemma NoneRefusedNext(s: System, es: seq<Event>)
    requires s.ring.Valid() && es != []
    ensures NoneRefused(s, es) <==> NoneRefused(s, es[..|es| - 1]) && !RefusedAt(s, es, |es| - 1)
  {
    var front := es[..|es| - 1];
    forall n | 0 <= n < |front| ensures RefusedAt(s, front, n) == RefusedAt(s, es, n) {
      hide Refuses, Run;
      assert front[..n] == es[..n];
    }
    hide RefusedAt;
  }

  /** What was accepted is exactly what was typed if and only if no key that types a character
      came in while 255 characters were waiting. */
  lemma {:induction false} NothingTypedIsLost(buffer: seq<char>, es: seq<Event>)
    requires |buffer| == RING
    ensures Run(Start(buffer), es).accepted == TypedText(es).0 <==> NoneRefused(Start(buffer), es)
    ensures |Run(Start(buffer), es).accepted| <= |TypedText(es).0|
    ensures Run(Start(buffer), es).ring.shift == TypedText(es).1
  {
    hide Handle, Typed, ShiftAfter, Pending, NoneRefused;
    if es == [] {
      NoneRefusedYet(Start(buffer));
    } else {
      var front, last := es[..|es| - 1], es[|es| - 1];
      NothingTypedIsLost(buffer, front);
      NoneRefusedNext(Start(buffer), es);
      if last.Interrupt? {
        HandleAccepts(Run(Start(buffer), front), last.scan);
        AppendCancels(Run(Start(buffer), front).accepted, TypedText(front).0, TypedText(es).0[|TypedText(front).0|..]);
      }
    }
  }

  /** What has been popped, followed by what waits in the ring, is what was typed, under the
      same condition and no other. */
  lemma TypedIsDelivered(buffer: seq<char>, es: seq<Event>)
    requires |buffer| == RING
    ensures TypedText(es).0 == Run(Start(buffer), es).popped + Contents(Run(Start(buffer), es).ring)
        <==> NoneRefused(Start(buffer), es)
  {
    EveryInterleavingIsConsistent(buffer, es);
    NothingTypedIsLost(buffer, es);
  }

  /** The `a` key pressed n times while nobody pops. */
  function Presses(n: nat): (es: seq<Event>)
    ensures |es| == n
  {
    seq(n, _ => Interrupt(0x1E))
  }

  lemma {:induction false} PressesFill(buffer: seq<char>, n: nat)
    requires |buffer| == RING && n < RING
    ensures
      var s := Run(Start(buffer), Presses(n));
      !s.ring.shift && s.ring.head == n && s.ring.tail == 0 && |s.accepted| == n
    ensures |TypedText(Presses(n)).0| == n && !TypedText(Presses(n)).1
  {
    if n > 0 {
      assert Presses(n)[..n - 1] == Presses(n - 1);
      PressesFill(buffer, n - 1);
    }
  }

  /** Of 256 characters typed without a pop, the last is lost. */
  lemma LastOf256IsLost(buffer: seq<char>)
    requires |buffer| == RING
    ensures |TypedText(Presses(256)).0| == 256 && |Run(Start(buffer), Presses(256)).accepted| == 255
  {
    assert Presses(256)[..255] == Presses(255);
    PressesFill(buffer, 255);
  }

  /** No key yields the terminator or a carriage return. */
  lemma KeysArePrintable(shift: bool, scan: Byte)
    ensures Typed(shift, scan).Some? ==> Typed(shift, scan).value != '\0' && Typed(shift, scan).value != '\r'
  {}

  lemma {:induction false} AcceptedArePrintable(buffer: seq<char>, es: seq<Event>)
    requires |buffer| == RING
    ensures forall c :: c in Run(Start(buffer), es).accepted ==> c != '\0' && c != '\r'
  {
    hide Handle, Typed, Refuses;
    if es != [] {
      var before := Run(Start(buffer), es[..|es| - 1]);
      AcceptedArePrintable(buffer, es[..|es| - 1]);
      if es[|es| - 1].Interrupt? {
        HandleAccepts(before, es[|es| - 1].scan);
        KeysArePrintable(before.ring.shift, es[|es| - 1].scan);
      }
    }
  }

  /** So a popped '\0' always means that the ring is empty, and no '\r' ever reaches the shell. */
  lemma PoppedArePrintable(buffer: seq<char>, es: seq<Event>)
    requires |buffer| == RING
    ensures forall c :: c in Run(Start(buffer), es).popped ==> c != '\0' && c != '\r'
  {
    EveryInterleavingIsConsistent(buffer, es);
    AcceptedArePrintable(buffer, es);
    var s := Run(Start(buffer), es);
    assert forall c :: c in s.popped ==> c in s.popped + Contents(s.ring);
  }

  // ---------- The driver ----------

  class Keyboard {
    const buffer: array<char>
    var head: Byte
    var tail: Byte
    var shift: bool

    ghost predicate Valid()
      reads this
    {
      buffer.Length == RING
    }

    ghost function View(): (r: Ring)
      requires Valid()
      reads this, buffer
      ensures r.Valid()
    {
      Ring(buffer[..], head, tail, shift)
    }

    constructor ()
      ensures Valid() && fresh(buffer) && Contents(View()) == []
    {
      buffer := new char[RING];
      head, tail, shift := 0, 0, false;
    }

    method BufferPush(character: char)
      requires Valid()
      modifies this`head, buffer
      ensures View() == Push(old(View()), character)
    {
      var nextHead: Byte := (head + 1) % 256;
      if nextHead == tail {
        return;
      }
      buffer[head] := character;
      head := nextHead;
    }

    method IrqHandler(scanCode: Byte)
      requires Valid()
      modifies this`head, this`shift, buffer
      ensures View() == Irq(old(View()), scanCode)
    {
      if scanCode == 0x2A || scanCode == 0x36 {
        shift := true;
        return;
      }
      if scanCode == 0xAA || scanCode == 0xB6 {
        shift := false;
        return;
      }
      if scanCode >= 0x80 {
        return;
      }
      var character := KeyAt(shift, scanCode);
      if character != '\0' {
        BufferPush(character);
      }
    }

    /** keyboard_pop when no interrupt comes in between. */
    method Pop() returns (character: char)
      requires Valid()
      modifies this`tail
      ensures old(Contents(View())) == [] ==> character == '\0' && View() == old(View())
      ensures old(Contents(View())) != [] ==>
        character == old(Contents(View()))[0] && Contents(View()) == old(Contents(View()))[1..]
    {
      if head == tail {
        return '\0';
      }
      AdvanceDrops(View());
      character := buffer[tail];
      tail := (tail + 1) % 256;
    }
  }
}
