/** The heap as its clients see it: bytes written into a live block stay there until that
    block is freed, whatever else is allocated, freed or written in between. */
module HeapClients {
  import opened Bytes
  import opened HeapBlocks
  import opened HeapLaws
  import opened KernelHeap

  datatype Action = Ask(request: Request) | Write(at: nat, value: Byte)

  ghost predicate InPayload(b: Block, at: nat) {
    b.Payload() <= at < b.End()
  }

  /** Clients free only live pointers and write only into live payloads. */
  ghost predicate Permitted(bs: seq<Block>, act: Action) {
    match act
    case Ask(request) => Legal(bs, request)
    case Write(at, _) => exists b :: b in Live(bs) && InPayload(b, at)
  }

  ghost function After(bs: seq<Block>, act: Action): seq<Block>
    requires Permitted(bs, act)
  {
    if act.Ask? then Step(bs, act.request) else bs
  }

  /** What the clients have written and not given back. */
  type Notes = map<nat, Byte>

  ghost function Noted(bs: seq<Block>, notes: Notes, act: Action): Notes
    requires Permitted(bs, act)
  {
    match act
    case Write(at, value) => notes[at := value]
    case Ask(Get(_)) => notes
    case Ask(Give(p)) =>
      if p == 0 then notes else map a | a in notes && !InPayload(bs[Find(bs, p)], a) :: notes[a]
  }

  ghost predicate PermittedRun(bs: seq<Block>, acts: seq<Action>)
    decreases |acts|
  {
    acts == [] || (Permitted(bs, acts[0]) && PermittedRun(After(bs, acts[0]), acts[1..]))
  }

  ghost function NotesOf(bs: seq<Block>, notes: Notes, acts: seq<Action>): Notes
    requires PermittedRun(bs, acts)
    decreases |acts|
  {
    if acts == [] then notes else NotesOf(After(bs, acts[0]), Noted(bs, notes, acts[0]), acts[1..])
  }

  lemma GetKeepsLive(bs: seq<Block>, lo: nat, hi: nat, size: Word)
    requires Canonical(bs, lo, hi)
    ensures Canonical(Malloc(bs, size).0, lo, hi) && Live(bs) <= Live(Malloc(bs, size).0)
  {
    MallocKeepsCanonical(bs, lo, hi, size);
    hide Canonical, Malloc, Live;
    if Malloc(bs, size).1 == 0 {
      NullChangesNothing(bs, size);
    } else {
      GrantedBlock(bs, lo, hi, size);
    }
  }

  lemma GiveKeepsLive(bs: seq<Block>, lo: nat, hi: nat, p: nat, b: Block)
    requires Canonical(bs, lo, hi) && (p == 0 || IsLive(bs, p)) && b in Live(bs) && p != b.Payload()
    ensures Canonical(Free(bs, p), lo, hi) && b in Live(Free(bs, p))
  {
    if p != 0 {
      hide Canonical, Free, Live;
      FreeRemovesBlock(bs, lo, hi, p);
    }
  }

  lemma StaysLive(bs: seq<Block>, lo: nat, hi: nat, act: Action, b: Block)
    requires Canonical(bs, lo, hi) && Permitted(bs, act) && b in Live(bs) && act != Ask(Give(b.Payload()))
    ensures Canonical(After(bs, act), lo, hi) && b in Live(After(bs, act))
  {
    hide Canonical, Live, Malloc, Free;
    match act
    case Write(_, _) =>
    case Ask(Get(size)) => GetKeepsLive(bs, lo, hi, size);
    case Ask(Give(p)) => GiveKeepsLive(bs, lo, hi, p, b);
  }

  lemma StaysNoted(bs: seq<Block>, lo: nat, hi: nat, notes: Notes, act: Action, b: Block, at: nat)
    requires Canonical(bs, lo, hi) && Permitted(bs, act) && b in Live(bs) && InPayload(b, at) && at in notes
    requires act != Ask(Give(b.Payload())) && !(act.Write? && act.at == at)
    ensures at in Noted(bs, notes, act) && Noted(bs, notes, act)[at] == notes[at]
  {
    if act.Ask? && act.request.Give? && act.request.ptr != 0 {
      var freed := bs[Find(bs, act.request.ptr)];
      BlocksDisjoint(bs, lo, hi, b, freed);
    }
  }

  /** A byte stays noted, whatever else is done, until it is overwritten or its block is freed. */
  lemma {:induction false} NotedUntilFreed(bs: seq<Block>, lo: nat, hi: nat, notes: Notes, acts: seq<Action>, b: Block, at: nat)
    requires Canonical(bs, lo, hi) && PermittedRun(bs, acts) && b in Live(bs) && InPayload(b, at) && at in notes
    requires forall k :: 0 <= k < |acts| ==> acts[k] != Ask(Give(b.Payload())) && !(acts[k].Write? && acts[k].at == at)
    ensures at in NotesOf(bs, notes, acts) && NotesOf(bs, notes, acts)[at] == notes[at]
    decreases |acts|
  {
    hide Canonical, Live, Permitted, After, Noted;
    if acts != [] {
      StaysLive(bs, lo, hi, acts[0], b);
      StaysNoted(bs, lo, hi, notes, acts[0], b, at);
      NotedUntilFreed(After(bs, acts[0]), lo, hi, Noted(bs, notes, acts[0]), acts[1..], b, at);
    }
  }

  /** So a byte written first is noted at the end of such a run, and Serve leaves it in memory. */
  lemma WrittenIsNoted(bs: seq<Block>, lo: nat, hi: nat, notes: Notes, acts: seq<Action>, b: Block)
    requires Canonical(bs, lo, hi) && PermittedRun(bs, acts) && acts != [] && acts[0].Write?
    requires b in Live(bs) && InPayload(b, acts[0].at)
    requires forall k :: 0 < k < |acts| ==> acts[k] != Ask(Give(b.Payload())) && !(acts[k].Write? && acts[k].at == acts[0].at)
    ensures acts[0].at in NotesOf(bs, notes, acts) && NotesOf(bs, notes, acts)[acts[0].at] == acts[0].value
  {
    NotedUntilFreed(bs, lo, hi, notes[acts[0].at := acts[0].value], acts[1..], b, acts[0].at);
  }

  /** Every noted byte lies in a live payload and is what memory holds there. */
  ghost predicate Kept(m: seq<Byte>, bs: seq<Block>, notes: Notes) {
    forall a :: a in notes ==> a < |m| && m[a] == notes[a] && exists b :: b in Live(bs) && InPayload(b, a)
  }

  lemma NullChangesNothing(bs: seq<Block>, size: Word)
    requires Malloc(bs, size).1 == 0
    ensures Malloc(bs, size).0 == bs
  {
    hide FirstFit, Carve;
  }

  lemma GetKeeps(before: seq<Byte>, after: seq<Byte>, bs: seq<Block>, lo: nat, hi: nat, size: Word, notes: Notes)
    requires Canonical(bs, lo, hi) && Kept(before, bs, notes) && Preserved(before, after, Live(bs), lo, hi)
    ensures Kept(after, Malloc(bs, size).0, notes)
  {
    var cs := Malloc(bs, size).0;
    GetKeepsLive(bs, lo, hi, size);
    hide Canonical, Malloc, Live;
    forall a | a in notes
      ensures a < |after| && after[a] == notes[a] && exists b :: b in Live(cs) && InPayload(b, a)
    {
      var b :| b in Live(bs) && InPayload(b, a);
      assert b in Live(cs);
    }
  }

  lemma GiveKeeps(before: seq<Byte>, after: seq<Byte>, bs: seq<Block>, lo: nat, hi: nat, p: nat, notes: Notes)
    requires Canonical(bs, lo, hi) && Kept(before, bs, notes) && p != 0 && IsLive(bs, p)
    requires Preserved(before, after, Live(Free(bs, p)), lo, hi)
    ensures Kept(after, Free(bs, p), Noted(bs, notes, Ask(Give(p))))
  {
    hide Free, Canonical;
    FreeRemovesBlock(bs, lo, hi, p);
    var left := Noted(bs, notes, Ask(Give(p)));
    forall a | a in left
      ensures a < |after| && after[a] == left[a] && exists b :: b in Live(Free(bs, p)) && InPayload(b, a)
    {
      var b :| b in Live(bs) && InPayload(b, a);
      assert b in Live(Free(bs, p));
    }
  }

  lemma WriteKeeps(before: seq<Byte>, bs: seq<Block>, lo: nat, hi: nat, at: nat, value: Byte, notes: Notes)
    requires Canonical(bs, lo, hi) && Kept(before, bs, notes) && at < |before|
    requires Permitted(bs, Write(at, value))
    ensures Kept(before[at := value], bs, notes[at := value])
  {}

  lemma LivePayloadInRange(bs: seq<Block>, lo: nat, hi: nat, at: nat, value: Byte)
    requires Tiles(bs, lo, hi) && Permitted(bs, Write(at, value))
    ensures lo <= at < hi && !InHeader(bs, at)
  {
    var b :| b in Live(bs) && InPayload(b, at);
    TilesAscend(bs, lo, hi);
    var i :| 0 <= i < |bs| && bs[i] == b;
  }

  /** Serve any permitted sequence of allocations, frees and writes: at the end memory holds
      every byte that was written and not given back. */
  method Serve(heap: Heap, acts: seq<Action>)
    requires heap.Valid() && PermittedRun(heap.blocks, acts)
    modifies heap`blocks, heap.mem
    ensures heap.Valid()
    ensures Kept(heap.mem[..], heap.blocks, NotesOf(old(heap.blocks), map[], acts))
  {
    hide Tiles, Aligned, Coalesced, Malloc, Release;
    ghost var notes: Notes := map[];
    for k := 0 to |acts|
      invariant heap.Valid() && PermittedRun(heap.blocks, acts[k..])
      invariant Kept(heap.mem[..], heap.blocks, notes)
      invariant NotesOf(heap.blocks, notes, acts[k..]) == NotesOf(old(heap.blocks), map[], acts)
    {
      ghost var bs, lo, hi, before := heap.blocks, heap.head, heap.head + heap.totalBytes, heap.mem[..];
      assert acts[k..][0] == acts[k] && acts[k..][1..] == acts[k + 1..];
      match acts[k] {
        case Ask(Get(size)) =>
          var _ := heap.Kmalloc(size);
          GetKeeps(before, heap.mem[..], bs, lo, hi, size, notes);
        case Ask(Give(p)) =>
          heap.Kfree(p);
          if p != 0 {
            GiveKeeps(before, heap.mem[..], bs, lo, hi, p, notes);
          }
        case Write(at, value) =>
          LivePayloadInRange(bs, lo, hi, at, value);
          heap.Poke(at, value);
          WriteKeeps(before, bs, lo, hi, at, value, notes);
      }
      notes := Noted(bs, notes, acts[k]);
    }
  }
}
