/**
 The CHIP heap over two banks: the primary one, and a region handed over once at run time. The
 backing `sys_heap` is any allocator that grants free, aligned room of its own region or refuses.
 */
module SysHeapMalloc {
  import opened Wrappers

  const ALIGNMENT: int := 8
  const MIN_REGION: int := 256

  /** A backing heap: its region, its live blocks by address, and its usage counters. */
  datatype Bank = Bank(base: int, size: int, live: map<int, int>, used: int, maxUsed: int)

  /** Room granted: where, and how many bytes the block really takes. */
  datatype Grant = Grant(addr: int, size: int)

  datatype Heaps = Heaps(primary: Bank, reclaimed: Bank, reclaimedActive: bool)

  /** How `sys_heap` answers; the first argument tells otherwise equal moments apart. */
  datatype Backend = Backend(
    alloc: (nat, Bank, int, int) -> Option<Grant>,
    realloc: (nat, Bank, int, int, int) -> Option<Grant>)

  predicate Within(b: Bank, addr: int) {
    b.base <= addr < b.base + b.size
  }

  predicate Apart(a: int, m: int, b: int, n: int) {
    a + m <= b || b + n <= a
  }

  ghost predicate Grantable(b: Bank, align: int, want: int, g: Grant) {
    && align > 0 && g.addr % align == 0
    && g.size >= want && g.size > 0
    && b.base <= g.addr && g.addr + g.size <= b.base + b.size
    && forall a :: a in b.live ==> Apart(a, b.live[a], g.addr, g.size)
  }

  /** What is relied on for one allocation, and for one resize of a live block. */
  ghost predicate AllocSound(be: Backend, t: nat, b: Bank, align: int, size: int) {
    be.alloc(t, b, align, size).Some? ==> Grantable(b, align, size, be.alloc(t, b, align, size).value)
  }

  ghost predicate ReallocSound(be: Backend, t: nat, b: Bank, addr: int, align: int, size: int) {
    addr in b.live && be.realloc(t, b, addr, align, size).Some? ==>
      Grantable(Without(b, addr), align, size, be.realloc(t, b, addr, align, size).value)
  }

  ghost predicate Sound(be: Backend) {
    && (forall t, b, align, size :: AllocSound(be, t, b, align, size))
    && (forall t, b, addr, align, size :: ReallocSound(be, t, b, addr, align, size))
  }

  function Larger(x: int, y: int): int {
    if x > y then x else y
  }

  /** The bytes of all live blocks. */
  ghost function Total(live: map<int, int>): int
    decreases |live|
  {
    if exists a :: a in live then
      var a :| a in live;
      live[a] + Total(live - {a})
    else 0
  }

  /** Whichever block is counted first. */
  lemma {:induction false} TotalWithout(live: map<int, int>, a: int)
    requires a in live
    ensures Total(live) == live[a] + Total(live - {a})
    decreases |live|
  {
    var b :| b in live && Total(live) == live[b] + Total(live - {b});
    if a != b {
      TotalWithout(live - {b}, a);
      TotalWithout(live - {a}, b);
      assert live - {a} - {b} == live - {b} - {a};
    }
  }

  lemma TotalWith(live: map<int, int>, a: int, size: int)
    requires a !in live
    ensures Total(live[a := size]) == Total(live) + size
  {
    TotalWithout(live[a := size], a);
    assert live[a := size] - {a} == live;
  }

  function With(b: Bank, g: Grant): Bank {
    b.(live := b.live[g.addr := g.size], used := b.used + g.size,
       maxUsed := Larger(b.maxUsed, b.used + g.size))
  }

  function Without(b: Bank, addr: int): Bank
    requires addr in b.live
  {
    b.(live := b.live - {addr}, used := b.used - b.live[addr])
  }

  // ----- the operations -----

  /** A new state and the pointer handed out. */
  datatype Result = Result(heaps: Heaps, mem: Option<int>)

  /** Primary first; the reclaimed bank only when the primary refuses. */
  function HeapChoice(be: Backend, t: nat, h: Heaps, align: int, size: int): Result {
    var al := if align < ALIGNMENT then ALIGNMENT else align;
    match be.alloc(t, h.primary, al, size)
    case Some(g) => Result(h.(primary := With(h.primary, g)), Some(g.addr))
    case None =>
      if !h.reclaimedActive then Result(h, None)
      else
        match be.alloc(t + 1, h.reclaimed, al, size)
        case Some(g) => Result(h.(reclaimed := With(h.reclaimed, g)), Some(g.addr))
        case None => Result(h, None)
  }

  /** The bank whose region holds the address. */
  predicate InPrimary(h: Heaps, addr: int) {
    Within(h.primary, addr)
  }

  function FreeAt(h: Heaps, addr: int): Heaps {
    if InPrimary(h, addr) then
      if addr in h.primary.live then h.(primary := Without(h.primary, addr)) else h
    else if h.reclaimedActive && Within(h.reclaimed, addr) && addr in h.reclaimed.live then
      h.(reclaimed := Without(h.reclaimed, addr))
    else h
  }

  function Owner(h: Heaps, addr: int): Bank {
    if InPrimary(h, addr) then h.primary else h.reclaimed
  }

  function SetOwner(h: Heaps, addr: int, b: Bank): Heaps {
    if InPrimary(h, addr) then h.(primary := b) else h.(reclaimed := b)
  }

  /** A null pointer allocates, a zero size frees; otherwise resize in the owning bank, or move. */
  function ReallocAt(be: Backend, t: nat, h: Heaps, mem: Option<int>, size: int): Result
    requires mem.Some? ==> mem.value in Owner(h, mem.value).live
  {
    if mem.None? then HeapChoice(be, t, h, ALIGNMENT, size)
    else if size == 0 then Result(FreeAt(h, mem.value), None)
    else
      match be.realloc(t, Owner(h, mem.value), mem.value, ALIGNMENT, size)
      case Some(g) =>
        Result(SetOwner(h, mem.value, With(Without(Owner(h, mem.value), mem.value), g)), Some(g.addr))
      case None =>
        var moved := HeapChoice(be, t + 1, h, ALIGNMENT, size);
        if moved.mem.None? then moved else Result(FreeAt(moved.heaps, mem.value), moved.mem)
  }

  datatype ChipError = NoError | IncorrectState | InvalidArgument | LockFailed | StatsFailed

  function RoundDown(size: int): int {
    size - size % ALIGNMENT
  }

  datatype Added = Added(heaps: Heaps, error: ChipError)

  function AddRegion(h: Heaps, base: int, size: int): Added {
    if h.reclaimedActive then Added(h, IncorrectState)
    else if base == 0 then Added(h, InvalidArgument)
    else if RoundDown(size) < MIN_REGION then Added(h, InvalidArgument)
    else Added(h.(reclaimed := Bank(base, RoundDown(size), map[], 0, 0), reclaimedActive := true), NoError)
  }

  // ----- the invariant -----

  ghost predicate BankOk(b: Bank) {
    && (forall a :: a in b.live ==>
          b.live[a] > 0 && a % ALIGNMENT == 0 && b.base <= a && a + b.live[a] <= b.base + b.size)
    && (forall a, a' :: a in b.live && a' in b.live && a != a' ==> Apart(a, b.live[a], a', b.live[a']))
    && b.used == Total(b.live)
  }

  /** Live blocks are aligned, apart, each inside one registered bank; nothing lives in an unregistered one. */
  ghost predicate Inv(h: Heaps) {
    && BankOk(h.primary) && BankOk(h.reclaimed)
    && (h.reclaimedActive ==> Apart(h.primary.base, h.primary.size, h.reclaimed.base, h.reclaimed.size))
    && (!h.reclaimedActive ==> h.reclaimed.live == map[] && h.reclaimed.used == h.reclaimed.maxUsed == 0)
  }

  ghost predicate Live(h: Heaps, addr: int) {
    addr in h.primary.live || addr in h.reclaimed.live
  }

  /** The bank found by address is the bank that issued the block, and only that one has it. */
  lemma OwnerIsIssuer(h: Heaps, addr: int)
    requires Inv(h) && Live(h, addr)
    ensures InPrimary(h, addr) <==> addr in h.primary.live
    ensures addr in h.reclaimed.live <==> addr !in h.primary.live
    ensures addr in Owner(h, addr).live
    ensures addr in h.reclaimed.live ==> h.reclaimedActive && Within(h.reclaimed, addr)
  {
  }

  /** How many bytes the live block at an address takes. */
  ghost function SizeOf(h: Heaps, addr: int): int
    requires Live(h, addr)
  {
    if addr in h.primary.live then h.primary.live[addr] else h.reclaimed.live[addr]
  }

  ghost predicate AllApart(h: Heaps) {
    forall a, b :: Live(h, a) && Live(h, b) && a != b ==> Apart(a, SizeOf(h, a), b, SizeOf(h, b))
  }

  /** No two live blocks overlap, whichever banks they are in, and no address is live in both. */
  lemma LiveBlocksApart(h: Heaps)
    requires Inv(h)
    ensures AllApart(h)
    ensures forall a :: a in h.primary.live ==> a !in h.reclaimed.live
  {
    forall a | a in h.primary.live ensures a !in h.reclaimed.live {
      OwnerIsIssuer(h, a);
    }
    forall a, b | Live(h, a) && Live(h, b) && a != b ensures Apart(a, SizeOf(h, a), b, SizeOf(h, b)) {
      OwnerIsIssuer(h, a);
      OwnerIsIssuer(h, b);
    }
  }

  lemma GrantKeepsBank(b: Bank, align: int, want: int, g: Grant)
    requires BankOk(b) && Grantable(b, align, want, g) && align % ALIGNMENT == 0
    ensures g.addr !in b.live && BankOk(With(b, g))
  {
    var q := g.addr / align;
    assert g.addr == q * align;
    AlignedMultiple(q, align);
    assert g.addr in b.live ==> Apart(g.addr, b.live[g.addr], g.addr, g.size);
    TotalWith(b.live, g.addr, g.size);
  }

  lemma AlignedMultiple(q: int, align: int)
    requires align % ALIGNMENT == 0
    ensures (q * align) % ALIGNMENT == 0
  {
    assert q * align == (q * (align / ALIGNMENT)) * ALIGNMENT;
  }

  lemma ReleaseKeepsBank(b: Bank, addr: int)
    requires BankOk(b) && addr in b.live
    ensures BankOk(Without(b, addr))
  {
    TotalWithout(b.live, addr);
  }

  /**
   An allocation adds one fresh block, to the reclaimed bank only if the primary refused; it fails
   exactly if every registered bank refuses.
   */
  lemma AllocKeeps(be: Backend, t: nat, h: Heaps, align: int, size: int)
    requires Inv(h) && Sound(be) && (align >= ALIGNMENT ==> align % ALIGNMENT == 0)
    ensures var r := HeapChoice(be, t, h, align, size);
            && Inv(r.heaps)
            && (r.mem.None? ==> r.heaps == h)
            && (r.mem.None? <==>
                  var al := if align < 8 then 8 else align;
                  && be.alloc(t, h.primary, al, size).None?
                  && (h.reclaimedActive ==> be.alloc(t + 1, h.reclaimed, al, size).None?))
            && (r.mem.Some? ==>
                  && !Live(h, r.mem.value) && Live(r.heaps, r.mem.value)
                  && r.mem.value % 8 == 0 && (align > 8 ==> r.mem.value % align == 0)
                  && Owner(r.heaps, r.mem.value).live[r.mem.value] >= size
                  && (forall a :: Live(r.heaps, a) <==> Live(h, a) || a == r.mem.value))
            && (r.mem.Some? && r.mem.value in r.heaps.reclaimed.live ==>
                  && h.reclaimedActive && r.heaps.primary == h.primary
                  && be.alloc(t, h.primary, if align < ALIGNMENT then ALIGNMENT else align, size).None?)
  {
    var al := if align < ALIGNMENT then ALIGNMENT else align;
    assert AllocSound(be, t, h.primary, al, size);
    assert AllocSound(be, t + 1, h.reclaimed, al, size);
    match be.alloc(t, h.primary, al, size)
    case Some(g) =>
      GrantKeepsBank(h.primary, al, size, g);
      var h' := h.(primary := With(h.primary, g));
      assert Live(h', g.addr);
      OwnerIsIssuer(h', g.addr);
    case None =>
      if h.reclaimedActive && be.alloc(t + 1, h.reclaimed, al, size).Some? {
        var g := be.alloc(t + 1, h.reclaimed, al, size).value;
        GrantKeepsBank(h.reclaimed, al, size, g);
        var h' := h.(reclaimed := With(h.reclaimed, g));
        assert Live(h', g.addr);
        OwnerIsIssuer(h', g.addr);
      }
  }

  /** A free takes exactly the named block out of the bank that issued it. */
  lemma FreeKeeps(h: Heaps, addr: int)
    requires Inv(h) && Live(h, addr)
    ensures var h' := FreeAt(h, addr);
            && Inv(h')
            && (addr in h.primary.live ==> h' == h.(primary := Without(h.primary, addr)))
            && (addr in h.reclaimed.live ==> h' == h.(reclaimed := Without(h.reclaimed, addr)))
            && (forall a :: Live(h', a) <==> Live(h, a) && a != addr)
  {
    OwnerIsIssuer(h, addr);
    ReleaseKeepsBank(Owner(h, addr), addr);
  }

  /**
   A resize leaves one block of the new size; if it fails, the old block is untouched. The block ends
   up in the reclaimed bank exactly when it was there and that bank resized it, which asks nothing of
   the primary, or when its own bank could not resize it and the primary refused to take it. A resize
   to a size other than zero fails exactly if its own bank and every registered bank refuse.
   */
  lemma ReallocKeeps(be: Backend, t: nat, h: Heaps, addr: int, size: int)
    requires Inv(h) && Sound(be) && Live(h, addr)
    ensures addr in Owner(h, addr).live
    ensures var r := ReallocAt(be, t, h, Some(addr), size);
            && Inv(r.heaps)
            && (r.mem.None? && size != 0 ==> r.heaps == h)
            && (size == 0 ==> r.heaps == FreeAt(h, addr) && r.mem.None?)
            && (size != 0 ==>
                  (r.mem.None? <==>
                     && be.realloc(t, Owner(h, addr), addr, 8, size).None?
                     && be.alloc(t + 1, h.primary, 8, size).None?
                     && (h.reclaimedActive ==> be.alloc(t + 2, h.reclaimed, 8, size).None?)))
            && (r.mem.Some? ==>
                  && Live(r.heaps, r.mem.value)
                  && Owner(r.heaps, r.mem.value).live[r.mem.value] >= size
                  && (forall a :: Live(r.heaps, a) <==> (Live(h, a) && a != addr) || a == r.mem.value)
                  && (r.mem.value in r.heaps.reclaimed.live <==>
                        if be.realloc(t, Owner(h, addr), addr, ALIGNMENT, size).Some? then addr in h.reclaimed.live
                        else be.alloc(t + 1, h.primary, ALIGNMENT, size).None?)
                  && (r.mem.value in r.heaps.reclaimed.live ==> h.reclaimedActive))
  {
    OwnerIsIssuer(h, addr);
    var b := Owner(h, addr);
    if size == 0 {
      FreeKeeps(h, addr);
    } else if be.realloc(t, b, addr, ALIGNMENT, size).Some? {
      var g := be.realloc(t, b, addr, ALIGNMENT, size).value;
      assert ReallocSound(be, t, b, addr, ALIGNMENT, size);
      ReleaseKeepsBank(b, addr);
      GrantKeepsBank(Without(b, addr), ALIGNMENT, size, g);
      var h' := SetOwner(h, addr, With(Without(b, addr), g));
      assert Live(h', g.addr);
      OwnerIsIssuer(h', g.addr);
    } else {
      AllocKeeps(be, t + 1, h, ALIGNMENT, size);
      var moved := HeapChoice(be, t + 1, h, ALIGNMENT, size);
      if moved.mem.Some? {
        assert Live(moved.heaps, addr);
        FreeKeeps(moved.heaps, addr);
        OwnerIsIssuer(moved.heaps, moved.mem.value);
        OwnerIsIssuer(FreeAt(moved.heaps, addr), moved.mem.value);
      }
    }
  }

  /** A region is taken at most once, and changes no block. */
  lemma AddRegionKeeps(h: Heaps, base: int, size: int)
    requires Inv(h) && Apart(h.primary.base, h.primary.size, base, size) && size >= 0
    ensures var r := AddRegion(h, base, size);
            && Inv(r.heaps)
            && (forall a :: Live(r.heaps, a) <==> Live(h, a))
            && (r.error == NoError <==> !h.reclaimedActive && base != 0 && size >= 256)
            && (r.error == NoError ==>
                  && r.heaps.reclaimedActive && r.heaps.reclaimed.base == base && r.heaps.reclaimed.live == map[]
                  && r.heaps.reclaimed.size % 8 == 0 && size - 8 < r.heaps.reclaimed.size <= size)
            && (r.error != NoError ==>
                  r.heaps == h && r.error == if h.reclaimedActive then IncorrectState else InvalidArgument)
  {
    assert MIN_REGION % ALIGNMENT == 0;
  }

  // ----- whole runs -----

  datatype Request =
    | MallocReq(size: int)
    | FreeReq(mem: Option<int>)
    | ReallocReq(mem: Option<int>, size: int)
    | AddReq(base: int, size: int)

  /** Callers pass null or a live pointer, and hand over only a region of their own. */
  ghost predicate Legal(h: Heaps, r: Request) {
    match r
    case MallocReq(_) => true
    case FreeReq(mem) => mem.Some? ==> Live(h, mem.value)
    case ReallocReq(mem, _) => mem.Some? ==> Live(h, mem.value)
    case AddReq(base, size) => size >= 0 && Apart(h.primary.base, h.primary.size, base, size)
  }

  ghost function Serve(be: Backend, t: nat, h: Heaps, r: Request): Result
    requires Inv(h) && Legal(h, r)
  {
    match r
    case MallocReq(size) => HeapChoice(be, t, h, ALIGNMENT, size)
    case FreeReq(mem) => Result(if mem.Some? then FreeAt(h, mem.value) else h, None)
    case ReallocReq(mem, size) =>
      assert mem.Some? ==> mem.value in Owner(h, mem.value).live;
      ReallocAt(be, t, h, mem, size)
    case AddReq(base, size) => Result(AddRegion(h, base, size).heaps, None)
  }

  /** The reclaimed bank resizes a block of its own. */
  predicate ResizesReclaimed(be: Backend, t: nat, h: Heaps, r: Request) {
    && r.ReallocReq? && r.mem.Some? && r.mem.value in h.reclaimed.live
    && be.realloc(t, h.reclaimed, r.mem.value, ALIGNMENT, r.size).Some?
  }

  /** The primary bank, asked for this request, refuses it. */
  predicate PrimaryRefuses(be: Backend, t: nat, h: Heaps, r: Request) {
    match r
    case MallocReq(size) => be.alloc(t, h.primary, ALIGNMENT, size).None?
    case ReallocReq(None, size) => be.alloc(t, h.primary, ALIGNMENT, size).None?
    case ReallocReq(Some(_), size) => be.alloc(t + 1, h.primary, ALIGNMENT, size).None?
    case _ => false
  }

  /** A block handed out by the reclaimed bank: the bank is registered, and one of the two reasons holds. */
  ghost predicate PrimaryFirst(be: Backend, t: nat, h: Heaps, r: Request)
    requires Inv(h) && Legal(h, r)
  {
    var a := Serve(be, t, h, r);
    a.mem.Some? && a.mem.value in a.heaps.reclaimed.live ==>
      h.reclaimedActive && (ResizesReclaimed(be, t, h, r) || PrimaryRefuses(be, t, h, r))
  }

  /** The request fails, other than by freeing, exactly if no bank that could serve it will. */
  ghost predicate FailsIfRefused(be: Backend, t: nat, h: Heaps, r: Request)
    requires Inv(h) && Legal(h, r)
  {
    var failed := Serve(be, t, h, r).mem.None?;
    match r
    case MallocReq(size) => failed <==> BanksRefuse(be, t, h, size)
    case ReallocReq(None, size) => failed <==> BanksRefuse(be, t, h, size)
    case ReallocReq(Some(addr), size) =>
      size != 0 ==>
        (failed <==> be.realloc(t, Owner(h, addr), addr, 8, size).None? && BanksRefuse(be, t + 1, h, size))
    case _ => true
  }

  predicate BanksRefuse(be: Backend, t: nat, h: Heaps, size: int) {
    && be.alloc(t, h.primary, 8, size).None?
    && (h.reclaimedActive ==> be.alloc(t + 1, h.reclaimed, 8, size).None?)
  }

  lemma ServeKeeps(be: Backend, t: nat, h: Heaps, r: Request)
    requires Inv(h) && Sound(be) && Legal(h, r)
    ensures Inv(Serve(be, t, h, r).heaps)
    ensures SameRegions(h, Serve(be, t, h, r).heaps)
    ensures PrimaryFirst(be, t, h, r) && FailsIfRefused(be, t, h, r)
  {
    match r
    case MallocReq(size) =>
      AllocKeeps(be, t, h, ALIGNMENT, size);
      AllocRegions(be, t, h, ALIGNMENT, size);
    case FreeReq(mem) =>
      if mem.Some? {
        FreeKeeps(h, mem.value);
      }
    case ReallocReq(mem, size) =>
      if mem.Some? {
        ReallocKeeps(be, t, h, mem.value, size);
        ReallocRegions(be, t, h, mem, size);
      } else {
        AllocKeeps(be, t, h, ALIGNMENT, size);
        AllocRegions(be, t, h, ALIGNMENT, size);
      }
    case AddReq(base, size) => AddRegionKeeps(h, base, size);
  }

  /** The primary region never moves, nor does the reclaimed one once registered; no bank is unregistered. */
  predicate SameRegions(h: Heaps, h': Heaps) {
    && h'.primary.base == h.primary.base && h'.primary.size == h.primary.size
    && (h.reclaimedActive ==>
          h'.reclaimedActive && h'.reclaimed.base == h.reclaimed.base && h'.reclaimed.size == h.reclaimed.size)
  }

  lemma AllocRegions(be: Backend, t: nat, h: Heaps, align: int, size: int)
    ensures SameRegions(h, HeapChoice(be, t, h, align, size).heaps)
  {
  }

  lemma FreeRegions(h: Heaps, addr: int)
    ensures SameRegions(h, FreeAt(h, addr))
  {
  }

  lemma ReallocRegions(be: Backend, t: nat, h: Heaps, mem: Option<int>, size: int)
    requires mem.Some? && mem.value in Owner(h, mem.value).live
    ensures SameRegions(h, ReallocAt(be, t, h, mem, size).heaps)
  {
    FreeRegions(h, mem.value);
    var moved := HeapChoice(be, t + 1, h, ALIGNMENT, size);
    AllocRegions(be, t + 1, h, ALIGNMENT, size);
    FreeRegions(moved.heaps, mem.value);
  }

  /** `rs` served one after the other lead from h to h'. */
  ghost predicate Serves(be: Backend, t: nat, h: Heaps, rs: seq<Request>, h': Heaps)
    requires Inv(h) && Sound(be)
    decreases |rs|
  {
    if rs == [] then h == h'
    else
      Legal(h, rs[0]) &&
      (ServeKeeps(be, t, h, rs[0]);
       Serves(be, t + 3, Serve(be, t, h, rs[0]).heaps, rs[1..], h'))
  }

  /** Every request of the run was served primary first, and failed only where it had to. */
  ghost predicate AllServed(be: Backend, t: nat, h: Heaps, rs: seq<Request>)
    requires Inv(h) && Sound(be)
    decreases |rs|
  {
    rs == [] ||
    (&& Legal(h, rs[0])
     && PrimaryFirst(be, t, h, rs[0]) && FailsIfRefused(be, t, h, rs[0])
     && (ServeKeeps(be, t, h, rs[0]);
         AllServed(be, t + 3, Serve(be, t, h, rs[0]).heaps, rs[1..])))
  }

  /**
   Any sequence of legal requests keeps every block aligned, apart from all others and inside its own
   registered bank, hands out reclaimed memory only where the primary refused or the block was there, and
   fails only where every bank refused.
   */
  lemma {:induction false} RunKeeps(be: Backend, t: nat, h: Heaps, rs: seq<Request>, h': Heaps)
    requires Inv(h) && Sound(be) && Serves(be, t, h, rs, h')
    ensures Inv(h') && AllApart(h') && SameRegions(h, h')
    ensures AllServed(be, t, h, rs)
    decreases |rs|
  {
    if rs == [] {
      LiveBlocksApart(h);
    } else {
      ServeKeeps(be, t, h, rs[0]);
      RunKeeps(be, t + 3, Serve(be, t, h, rs[0]).heaps, rs[1..], h');
    }
  }

  /** A primary bank that has room, and a reclaimed one whose only block can grow where it stands. */
  function RoomyBackend(): Backend {
    Backend(
      (t: nat, b: Bank, align: int, size: int) =>
        if b == Bank(0, 512, map[], 0, 0) && align == ALIGNMENT && size == 16 then Some(Grant(0, 16)) else None,
      (t: nat, b: Bank, addr: int, align: int, size: int) =>
        if b.base == 1000 && b.size == 512 && b.live == map[1000 := 8] && align == ALIGNMENT && size == 16
        then Some(Grant(1000, 16)) else None)
  }

  /** So "only when the primary refused" fails of a resize: the primary had room and was never asked. */
  lemma ResizeBypassesPrimary() returns (be: Backend, h: Heaps, h': Heaps)
    ensures Sound(be) && Inv(h) && Legal(h, ReallocReq(Some(1000), 16))
    ensures Serve(be, 0, h, ReallocReq(Some(1000), 16)) == Result(h', Some(1000)) && 1000 in h'.reclaimed.live
    ensures !PrimaryRefuses(be, 0, h, ReallocReq(Some(1000), 16))
  {
    be := RoomyBackend();
    h := Heaps(Bank(0, 512, map[], 0, 0), Bank(1000, 512, map[1000 := 8], 8, 8), true);
    forall t, b: Bank, addr, align, size ensures ReallocSound(be, t, b, addr, align, size) {
      if addr in b.live && be.realloc(t, b, addr, align, size).Some? {
        assert addr == 1000 && Without(b, addr).live == map[];
      }
    }
    TotalWithout(h.reclaimed.live, 1000);
    assert h.reclaimed.live - {1000} == map[];
    h' := Serve(be, 0, h, ReallocReq(Some(1000), 16)).heaps;
  }

  lemma InvIgnoresPeaks(h: Heaps, h': Heaps)
    requires Inv(h) && (!h.reclaimedActive ==> h'.reclaimed == h.reclaimed)
    requires h' == h.(primary := h.primary.(maxUsed := h'.primary.maxUsed),
                      reclaimed := h.reclaimed.(maxUsed := h'.reclaimed.maxUsed))
    ensures Inv(h')
  {
  }

  // ----- usage peaks -----

  datatype Usage = Usage(primary: int, reclaimed: int)

  function PeakPrimary(trace: seq<Usage>): int
    requires trace != []
  {
    if |trace| == 1 then trace[0].primary else Larger(PeakPrimary(trace[..|trace| - 1]), trace[|trace| - 1].primary)
  }

  function PeakReclaimed(trace: seq<Usage>): int
    requires trace != []
  {
    if |trace| == 1 then trace[0].reclaimed
    else Larger(PeakReclaimed(trace[..|trace| - 1]), trace[|trace| - 1].reclaimed)
  }

  /** The true combined peak. */
  function PeakTotal(trace: seq<Usage>): int
    requires trace != []
  {
    var last := trace[|trace| - 1];
    if |trace| == 1 then last.primary + last.reclaimed
    else Larger(PeakTotal(trace[..|trace| - 1]), last.primary + last.reclaimed)
  }

  lemma {:induction false} PeaksBound(trace: seq<Usage>, i: nat)
    requires i < |trace|
    ensures trace[i].primary <= PeakPrimary(trace) && trace[i].reclaimed <= PeakReclaimed(trace)
    ensures trace[i].primary + trace[i].reclaimed <= PeakTotal(trace)
  {
    if i < |trace| - 1 {
      PeaksBound(trace[..|trace| - 1], i);
    }
  }

  lemma {:induction false} PeakTotalAttained(trace: seq<Usage>) returns (i: nat)
    requires trace != []
    ensures i < |trace| && trace[i].primary + trace[i].reclaimed == PeakTotal(trace)
  {
    var n := |trace| - 1;
    if n == 0 || PeakTotal(trace) == trace[n].primary + trace[n].reclaimed {
      i := n;
    } else {
      i := PeakTotalAttained(trace[..n]);
    }
  }

  ghost predicate BothAtPeak(trace: seq<Usage>, i: nat)
    requires i < |trace|
  {
    trace[i].primary == PeakPrimary(trace) && trace[i].reclaimed == PeakReclaimed(trace)
  }

  /** The sum of the peaks bounds the peak of the sums, and is exact just when both banks peaked together. */
  lemma SumOfPeaks(trace: seq<Usage>)
    requires trace != []
    ensures PeakTotal(trace) <= PeakPrimary(trace) + PeakReclaimed(trace)
    ensures PeakTotal(trace) == PeakPrimary(trace) + PeakReclaimed(trace)
       <==> exists i :: 0 <= i < |trace| && BothAtPeak(trace, i)
  {
    var j := PeakTotalAttained(trace);
    PeaksBound(trace, j);
    if PeakTotal(trace) == PeakPrimary(trace) + PeakReclaimed(trace) {
      assert BothAtPeak(trace, j);
    }
    if i :| 0 <= i < |trace| && BothAtPeak(trace, i) {
      PeaksBound(trace, i);
    }
  }

  // ----- the allocator -----

  datatype Stats = Stats(free: int, used: int, maxUsed: int)

  class SysHeap {
    const be: Backend
    var heaps: Heaps
    var clock: nat
    /** What both banks held after every single heap operation since the peaks were last reset. */
    ghost var history: seq<Usage>

    ghost predicate Valid()
      reads this
    {
      && Sound(be) && Inv(heaps)
      && history != []
      && history[|history| - 1] == Usage(heaps.primary.used, heaps.reclaimed.used)
      && heaps.primary.maxUsed == PeakPrimary(history)
      && heaps.reclaimed.maxUsed == PeakReclaimed(history)
    }

    constructor (be: Backend, base: int, size: int)
      requires Sound(be) && size >= 0
      ensures Valid() && this.be == be
      ensures heaps == Heaps(Bank(base, size, map[], 0, 0), Bank(0, 0, map[], 0, 0), false)
    {
      this.be := be;
      heaps := Heaps(Bank(base, size, map[], 0, 0), Bank(0, 0, map[], 0, 0), false);
      clock := 0;
      history := [Usage(0, 0)];
    }

    ghost method Record()
      requires history != []
      modifies this`history
      ensures history == old(history) + [Usage(heaps.primary.used, heaps.reclaimed.used)]
      ensures PeakPrimary(history) == Larger(PeakPrimary(old(history)), heaps.primary.used)
      ensures PeakReclaimed(history) == Larger(PeakReclaimed(old(history)), heaps.reclaimed.used)
    {
      history := history + [Usage(heaps.primary.used, heaps.reclaimed.used)];
      assert history[..|history| - 1] == old(history);
    }

    /** The bank in question takes the block. */
    method Take(inPrimary: bool, g: Grant)
      requires Valid()
      requires Inv(if inPrimary then heaps.(primary := With(heaps.primary, g))
                   else heaps.(reclaimed := With(heaps.reclaimed, g)))
      modifies this`heaps, this`history
      ensures Valid()
      ensures heaps == if inPrimary then old(heaps).(primary := With(old(heaps).primary, g))
                       else old(heaps).(reclaimed := With(old(heaps).reclaimed, g))
    {
      PeaksBound(history, |history| - 1);
      if inPrimary {
        heaps := heaps.(primary := With(heaps.primary, g));
      } else {
        heaps := heaps.(reclaimed := With(heaps.reclaimed, g));
      }
      Record();
    }

    /** One bank is asked. */
    method Ask(inPrimary: bool, al: int, size: int) returns (mem: Option<int>)
      requires Valid() && al > 0 && al % ALIGNMENT == 0 && (inPrimary || heaps.reclaimedActive)
      modifies this
      ensures Valid() && clock == old(clock) + 1
      ensures var g := be.alloc(old(clock), if inPrimary then old(heaps).primary else old(heaps).reclaimed, al, size);
              if g.None? then mem == None && heaps == old(heaps)
              else
                && mem == Some(g.value.addr)
                && heaps == if inPrimary then old(heaps).(primary := With(old(heaps).primary, g.value))
                            else old(heaps).(reclaimed := With(old(heaps).reclaimed, g.value))
    {
      var b := if inPrimary then heaps.primary else heaps.reclaimed;
      var g := be.alloc(clock, b, al, size);
      clock := clock + 1;
      mem := None;
      if g.Some? {
        assert AllocSound(be, clock - 1, b, al, size);
        GrantKeepsBank(b, al, size, g.value);
        Take(inPrimary, g.value);
        mem := Some(g.value.addr);
      }
    }

    method Choose(align: int, size: int) returns (mem: Option<int>)
      requires Valid() && (align >= ALIGNMENT ==> align % ALIGNMENT == 0)
      modifies this
      ensures Valid()
      ensures Result(heaps, mem) == HeapChoice(be, old(clock), old(heaps), align, size)
    {
      var al := if align < ALIGNMENT then ALIGNMENT else align;
      mem := Ask(true, al, size);
      if mem.None? && heaps.reclaimedActive {
        mem := Ask(false, al, size);
      }
    }

    method Malloc(locked: bool, size: int) returns (mem: Option<int>)
      requires Valid()
      modifies this
      ensures Valid()
      ensures locked ==> Result(heaps, mem) == HeapChoice(be, old(clock), old(heaps), ALIGNMENT, size)
      ensures !locked ==> mem == None && heaps == old(heaps)
    {
      if !locked {
        return None;
      }
      mem := Choose(ALIGNMENT, size);
    }

    method Free(locked: bool, mem: Option<int>)
      requires Valid() && (mem.Some? ==> Live(heaps, mem.value))
      modifies this
      ensures Valid()
      ensures heaps == if locked && mem.Some? then FreeAt(old(heaps), mem.value) else old(heaps)
    {
      if !locked || mem.None? {
        return;
      }
      FreeKeeps(heaps, mem.value);
      PeaksBound(history, |history| - 1);
      if InPrimary(heaps, mem.value) {
        heaps := heaps.(primary := Without(heaps.primary, mem.value));
      } else {
        heaps := heaps.(reclaimed := Without(heaps.reclaimed, mem.value));
      }
      Record();
    }

    method Realloc(locked: bool, mem: Option<int>, size: int) returns (r: Option<int>)
      requires Valid() && (mem.Some? ==> Live(heaps, mem.value) && mem.value in Owner(heaps, mem.value).live)
      modifies this
      ensures Valid()
      ensures locked ==> Result(heaps, r) == ReallocAt(be, old(clock), old(heaps), mem, size)
      ensures !locked ==> r == None && heaps == old(heaps)
    {
      if !locked {
        return None;
      }
      if mem.None? {
        r := Choose(ALIGNMENT, size);
        return;
      }
      ReallocKeeps(be, clock, heaps, mem.value, size);
      if size == 0 {
        Free(true, mem);
        return None;
      }
      var g := be.realloc(clock, Owner(heaps, mem.value), mem.value, ALIGNMENT, size);
      clock := clock + 1;
      if g.Some? {
        Replace(mem.value, g.value);
        return Some(g.value.addr);
      }
      r := Move(mem.value, size);
    }

    /** A fresh block first, and only then the old one goes. */
    method Move(addr: int, size: int) returns (r: Option<int>)
      requires Valid() && Live(heaps, addr)
      modifies this
      ensures Valid()
      ensures var moved := HeapChoice(be, old(clock), old(heaps), ALIGNMENT, size);
              r == moved.mem && heaps == if r.Some? then FreeAt(moved.heaps, addr) else moved.heaps
    {
      AllocKeeps(be, clock, heaps, ALIGNMENT, size);
      r := Choose(ALIGNMENT, size);
      if r.Some? {
        Free(true, Some(addr));
      }
    }

    /** One resize inside the owning bank. */
    method Replace(addr: int, g: Grant)
      requires Valid() && addr in Owner(heaps, addr).live
      requires Inv(SetOwner(heaps, addr, With(Without(Owner(heaps, addr), addr), g)))
      modifies this`heaps, this`history
      ensures Valid()
      ensures heaps == SetOwner(old(heaps), addr, With(Without(Owner(old(heaps), addr), addr), g))
    {
      PeaksBound(history, |history| - 1);
      heaps := SetOwner(heaps, addr, With(Without(Owner(heaps, addr), addr), g));
      Record();
    }

    method AddReclaimedRegion(locked: bool, base: int, size: int) returns (error: ChipError)
      requires Valid() && size >= 0 && Apart(heaps.primary.base, heaps.primary.size, base, size)
      modifies this
      ensures Valid()
      ensures locked ==> Added(heaps, error) == AddRegion(old(heaps), base, size)
      ensures !locked ==> error == LockFailed && heaps == old(heaps)
    {
      if !locked {
        return LockFailed;
      }
      AddRegionKeeps(heaps, base, size);
      if heaps.reclaimedActive {
        return IncorrectState;
      }
      if base == 0 {
        return InvalidArgument;
      }
      var usable := RoundDown(size);
      if usable < MIN_REGION {
        return InvalidArgument;
      }
      heaps := heaps.(reclaimed := Bank(base, usable, map[], 0, 0));
      heaps := heaps.(reclaimedActive := true);
      return NoError;
    }

    /**
     The reported maximum bounds the true combined peak, and is exact when the banks peaked together.
     What each bank counts as free is its own affair; the reclaimed bank may also fail to say.
     */
    method GetStats(primaryFree: int, reclaimedFree: Option<int>) returns (error: ChipError, stats: Stats)
      requires Valid()
      ensures error == if heaps.reclaimedActive && reclaimedFree.None? then StatsFailed else NoError
      ensures error == NoError ==>
                && stats.free == primaryFree + (if heaps.reclaimedActive then reclaimedFree.value else 0)
                && stats.used == Total(heaps.primary.live) + Total(heaps.reclaimed.live)
                && PeakTotal(history) <= stats.maxUsed
                && (stats.maxUsed == PeakTotal(history)
                    <==> exists i :: 0 <= i < |history| && BothAtPeak(history, i))
    {
      stats := Stats(primaryFree, heaps.primary.used, heaps.primary.maxUsed);
      if heaps.reclaimedActive {
        if reclaimedFree.None? {
          return StatsFailed, stats;
        }
        stats := Stats(stats.free + reclaimedFree.value, stats.used + heaps.reclaimed.used,
                       stats.maxUsed + heaps.reclaimed.maxUsed);
      }
      SumOfPeaks(history);
      error := NoError;
    }

    method ResetMaxStats()
      requires Valid()
      modifies this
      ensures Valid()
      ensures history == [Usage(heaps.primary.used, heaps.reclaimed.used)]
      ensures heaps.primary == old(heaps.primary).(maxUsed := old(heaps.primary.used))
      ensures heaps.reclaimed == old(heaps.reclaimed).(maxUsed := old(heaps.reclaimed.used))
      ensures heaps.reclaimedActive == old(heaps.reclaimedActive)
    {
      heaps := heaps.(primary := heaps.primary.(maxUsed := heaps.primary.used));
      if heaps.reclaimedActive {
        heaps := heaps.(reclaimed := heaps.reclaimed.(maxUsed := heaps.reclaimed.used));
      }
      history := [Usage(heaps.primary.used, heaps.reclaimed.used)];
      InvIgnoresPeaks(old(heaps), heaps);
    }
  }
}
