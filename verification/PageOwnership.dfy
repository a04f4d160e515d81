/** Which pages are handed out, over every run of page_alloc and page_free in which clients
    free only pages they were given, whole grants or parts of them. */
module PageOwnership {
  import opened Bytes
  import opened Pages

  /** The used pages, and those handed out and not yet given back. */
  datatype Pool = Pool(used: seq<bool>, owned: set<nat>)

  function PagesOf(start: nat, count: nat): (s: set<nat>)
    ensures forall p :: p in s <==> start <= p < start + count
  {
    if count == 0 then {} else PagesOf(start, count - 1) + {start + count - 1}
  }

  /** The used pages are exactly the reserved and the owned ones, and no page is both. */
  ghost predicate Sound(pool: Pool, reserved: seq<bool>) {
    && |pool.used| == |reserved|
    && (forall p :: p in pool.owned ==> p < |reserved| && !reserved[p])
    && forall p: nat :: p < |reserved| ==> (pool.used[p] <==> reserved[p] || p in pool.owned)
  }

  datatype Event = Alloc(count: nat) | Free(address: nat, count: nat)

  /** page_free is only given null or pages that are owned. */
  predicate Legal(pool: Pool, e: Event) {
    e.Free? && e.address != 0 ==> PagesOf(e.address / PAGE_SIZE, e.count) <= pool.owned
  }

  /** The first of the pages that page_alloc(count) marks, if it finds any. */
  ghost function Granted(pool: Pool, count: nat): Option<nat> {
    if count == 0 then None else FirstRun(pool.used, count, 0)
  }

  ghost function Step(pool: Pool, e: Event): Pool {
    match e
    case Alloc(count) => (
      match Granted(pool, count)
      case None => pool
      case Some(start) =>
        Pool(Marked(pool.used, start, start + count, true), pool.owned + PagesOf(start, count))
    )
    case Free(address, count) =>
      if address == 0 then pool else
      var page := address / PAGE_SIZE;
      Pool(Marked(pool.used, page, page + count, false), pool.owned - PagesOf(page, count))
  }

  /** The address page_alloc answers with; null when there is no run, and for page 0. */
  ghost function Reply(pool: Pool, e: Event): nat {
    if e.Alloc? && Granted(pool, e.count).Some? then Granted(pool, e.count).value * PAGE_SIZE else 0
  }

  ghost predicate LegalRun(pool: Pool, es: seq<Event>)
    decreases |es|
  {
    es == [] || (Legal(pool, es[0]) && LegalRun(Step(pool, es[0]), es[1..]))
  }

  ghost function Run(pool: Pool, es: seq<Event>): Pool
    decreases |es|
  {
    if es == [] then pool else Run(Step(pool, es[0]), es[1..])
  }

  ghost function Replies(pool: Pool, es: seq<Event>): seq<nat>
    decreases |es|
  {
    if es == [] then [] else [Reply(pool, es[0])] + Replies(Step(pool, es[0]), es[1..])
  }

  /** A grant consists of pages nobody owned and nothing reserved. */
  lemma AllocKeepsSound(pool: Pool, reserved: seq<bool>, count: nat)
    requires Sound(pool, reserved)
    ensures Sound(Step(pool, Alloc(count)), reserved)
    ensures
      match Granted(pool, count)
      case None => true
      case Some(start) =>
        && start + count <= |reserved| && PagesOf(start, count) !! pool.owned
        && forall p :: p in PagesOf(start, count) ==> !reserved[p]
  {
    hide FirstRun;
    match Granted(pool, count)
    case None =>
    case Some(start) => assert RunFree(pool.used, start, count);
  }

  lemma StepKeepsSound(pool: Pool, reserved: seq<bool>, e: Event)
    requires Sound(pool, reserved) && Legal(pool, e)
    ensures Sound(Step(pool, e), reserved)
  {
    if e.Alloc? {
      AllocKeepsSound(pool, reserved, e.count);
    }
  }

  /** Soundness survives every run. */
  lemma {:induction false} RunKeepsSound(pool: Pool, reserved: seq<bool>, es: seq<Event>)
    requires Sound(pool, reserved) && LegalRun(pool, es)
    ensures Sound(Run(pool, es), reserved)
    decreases |es|
  {
    hide Sound, Legal, Step;
    if es != [] {
      StepKeepsSound(pool, reserved, es[0]);
      RunKeepsSound(Step(pool, es[0]), reserved, es[1..]);
    }
  }

  /** After every run, whatever page_alloc grants next is in mapped memory, neither reserved
      nor owned by anyone. */
  lemma GrantsAreFresh(reserved: seq<bool>, es: seq<Event>, count: nat)
    requires LegalRun(Pool(reserved, {}), es)
    ensures
      var pool := Run(Pool(reserved, {}), es);
      match Granted(pool, count)
      case None => true
      case Some(start) =>
        && start + count <= |reserved| && PagesOf(start, count) !! pool.owned
        && forall p :: p in PagesOf(start, count) ==> !reserved[p]
  {
    hide FirstRun;
    RunKeepsSound(Pool(reserved, {}), reserved, es);
    AllocKeepsSound(Run(Pool(reserved, {}), es), reserved, count);
  }

  /** Only the reserved pages are in use exactly when everything has been given back. */
  lemma NothingLeaks(reserved: seq<bool>, es: seq<Event>)
    requires LegalRun(Pool(reserved, {}), es)
    ensures Run(Pool(reserved, {}), es).used == reserved <==> Run(Pool(reserved, {}), es).owned == {}
  {
    RunKeepsSound(Pool(reserved, {}), reserved, es);
    var pool := Run(Pool(reserved, {}), es);
    if pool.owned != {} {
      var p :| p in pool.owned;
      assert pool.used[p] != reserved[p];
    }
  }

  // ---------- Page counts ----------

  lemma {:induction false} SoundCounts(pool: Pool, reserved: seq<bool>)
    requires Sound(pool, reserved)
    ensures CountUsed(pool.used) == CountUsed(reserved) + |pool.owned|
    decreases |reserved|
  {
    if reserved == [] {
      assert pool.owned == {};
    } else {
      var n := |reserved| - 1;
      SoundCounts(Pool(pool.used[..n], pool.owned - {n}), reserved[..n]);
    }
  }

  /** In every reachable state the used pages number the reserved ones plus those owned. */
  lemma RunConserves(reserved: seq<bool>, es: seq<Event>)
    requires LegalRun(Pool(reserved, {}), es)
    ensures
      var pool := Run(Pool(reserved, {}), es);
      CountUsed(pool.used) == CountUsed(reserved) + |pool.owned|
  {
    RunKeepsSound(Pool(reserved, {}), reserved, es);
    SoundCounts(Run(Pool(reserved, {}), es), reserved);
  }

  // ---------- The allocator, driven through a run ----------

  lemma NextEvent(pool: Pool, es: seq<Event>, k: nat)
    requires k < |es|
    ensures Run(pool, es[k..]) == Run(Step(pool, es[k]), es[k + 1..])
    ensures Replies(pool, es[k..]) == [Reply(pool, es[k])] + Replies(Step(pool, es[k]), es[k + 1..])
  {
    hide Step, Reply;
    assert es[k..][0] == es[k] && es[k..][1..] == es[k + 1..];
  }

  lemma NoEvents(pool: Pool)
    ensures Run(pool, []) == pool && Replies(pool, []) == []
  {}

  /** One call, and what it does to the pool. */
  method ServeOne(pages: PageAllocator, e: Event, ghost pool: Pool) returns (reply: nat)
    requires pages.Valid() && pages.Used() == pool.used
    modifies pages.bitmap
    ensures pages.Used() == Step(pool, e).used && reply == Reply(pool, e)
  {
    hide FirstRun, Marked;
    reply := 0;
    match e {
      case Alloc(count) => reply := pages.PageAlloc(count);
      case Free(address, count) => pages.PageFree(address, count);
    }
  }

  /** Serving a run of calls leaves the bitmap, and gives the answers, that the run leads to. */
  method Serve(pages: PageAllocator, es: seq<Event>, ghost owned: set<nat>) returns (replies: seq<nat>)
    requires pages.Valid()
    modifies pages.bitmap
    ensures pages.Used() == Run(Pool(old(pages.Used()), owned), es).used
    ensures replies == Replies(Pool(old(pages.Used()), owned), es)
  {
    hide Run, Replies, Step, Reply;
    replies := [];
    ghost var start := Pool(pages.Used(), owned);
    ghost var pool := start;
    for k := 0 to |es|
      invariant pool.used == pages.Used()
      invariant Run(pool, es[k..]) == Run(start, es)
      invariant replies + Replies(pool, es[k..]) == Replies(start, es)
    {
      NextEvent(pool, es, k);
      var reply := ServeOne(pages, es[k], pool);
      pool := Step(pool, es[k]);
      replies := replies + [reply];
    }
    NoEvents(pool);
    assert es[|es|..] == [];
  }
}
