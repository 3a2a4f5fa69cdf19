/** The AGP memory list of a device (drivers/gpu/drm/drm_agpsupport.c).

    Next to the fields of struct drm_agp_head the model keeps what the backend knows: which blocks
    are outstanding, and where each of them is bound. What the allocator and the backend answer is
    part of each operation.
  */
module AgpMemory {
  import opened Errno
  import opened Options
  import opened Words

  const PAGE_SIZE: int := 4096

  datatype Entry = Entry(handle: int, memory: int, bound: int, pages: int)

  // backend: the outstanding blocks, with the page each bound one is bound at.
  datatype Agp = Agp(
    base: int,
    legacy: bool,
    acquired: bool,
    enabled: bool,
    memory: seq<Entry>,
    backend: map<int, Option<int>>)

  datatype Op =
    | Acquire(ret: int)                                      // what agp_acquire returns
    | Release
    | Enable
    | Alloc(size: int, entryOk: bool, block: Option<int>)    // kzalloc, and agp_alloc_memory
    | Bind(handle: int, offset: int, ret: int)               // what drm_bind_agp returns
    | Unbind(handle: int, ret: int)                          // what drm_unbind_agp returns
    | Free(handle: int, ret: int)                            // the same, if it is called
    | Clear(rets: map<int, int>)                             // the same, for each block

  /* ---------- addresses ---------- */

  // (offset + PAGE_SIZE - 1) / PAGE_SIZE on unsigned long, stored in an int.
  function PageOf(offset: int): int {
    WrapS32(WrapU64(offset + PAGE_SIZE - 1) / PAGE_SIZE)
  }

  // base + (page << PAGE_SHIFT), the shift on int, the sum on unsigned long.
  function BoundAt(base: int, page: int): int {
    WrapU64(base + WrapS32(page * PAGE_SIZE))
  }

  predicate InRange(base: int, offset: int) {
    0 < base && 0 <= offset && offset + PAGE_SIZE - 1 < TWO_31 && base + TWO_31 <= TWO_64
  }

  // The offset rounded up to a page.
  function RoundUp(offset: int): int {
    WrapU64(offset + PAGE_SIZE - 1) / PAGE_SIZE * PAGE_SIZE
  }

  // The truncations are congruences.
  lemma ShiftedPage(offset: int) returns (j: int)
    ensures 0 <= RoundUp(offset) < TWO_64
    ensures WrapS32(PageOf(offset) * PAGE_SIZE) == RoundUp(offset) - j * TWO_32
  {
    var n := WrapU64(offset + PAGE_SIZE - 1) / PAGE_SIZE;
    var k := (n + TWO_31) / TWO_32;
    assert PageOf(offset) == n - k * TWO_32;
    var m := (PageOf(offset) * PAGE_SIZE + TWO_31) / TWO_32;
    j := k * PAGE_SIZE + m;
  }

  // The address kept, from the base and the offset: the rounded offset is read as an int.
  lemma BoundIs(base: int, offset: int)
    ensures BoundAt(base, PageOf(offset)) == WrapU64(base + WrapS32(RoundUp(offset)))
  {
    var j := ShiftedPage(offset);
    ModUnique(RoundUp(offset) + TWO_31, j, WrapS32(PageOf(offset) * PAGE_SIZE) + TWO_31, TWO_32);
  }

  // The address kept is the base plus the rounded offset, as unsigned longs add, exactly when the
  // latter survives being an int on the way.
  lemma BoundExactIff(base: int, offset: int)
    ensures BoundAt(base, PageOf(offset)) == WrapU64(base + RoundUp(offset)) <==>
      RoundUp(offset) < TWO_31 || RoundUp(offset) >= TWO_64 - TWO_31
  {
    var j := ShiftedPage(offset);
    var s, r := WrapS32(PageOf(offset) * PAGE_SIZE), RoundUp(offset);
    var x, y := (base + s) / TWO_64, (base + r) / TWO_64;
    assert WrapU64(base + s) == base + s - x * TWO_64 && WrapU64(base + r) == base + r - y * TWO_64;
    if r >= TWO_64 - TWO_31 {
      assert j == TWO_32;
    }
  }

  // For offsets that an int can hold the address is the base plus the offset rounded up to a page.
  lemma BoundInRange(base: int, offset: int)
    requires InRange(base, offset)
    ensures BoundAt(base, PageOf(offset)) == base + (offset + PAGE_SIZE - 1) / PAGE_SIZE * PAGE_SIZE
    ensures BoundAt(base, PageOf(offset)) > 0
  {
    var n := offset + PAGE_SIZE - 1;
    var page := n / PAGE_SIZE;
    ModUnique(n, 0, n, TWO_64);
    ModUnique(page + TWO_31, 0, page + TWO_31, TWO_32);
    ModUnique(page * PAGE_SIZE + TWO_31, 0, page * PAGE_SIZE + TWO_31, TWO_32);
    ModUnique(base + page * PAGE_SIZE, 0, base + page * PAGE_SIZE, TWO_64);
  }

  /* ---------- the effect of each operation ---------- */

  // The first entry with the handle.
  function Find(memory: seq<Entry>, handle: int): (i: Option<nat>)
    ensures i.Some? ==> i.value < |memory| && memory[i.value].handle == handle
    ensures i.None? ==> forall e :: e in memory ==> e.handle != handle
  {
    if memory == [] then None
    else if memory[0].handle == handle then Some(0)
    else
      match Find(memory[1..], handle)
      case None => None
      case Some(i) => Some(i + 1)
  }

  // drm_unbind_agp: a bound block becomes unbound if the backend agrees.
  function Unbound(backend: map<int, Option<int>>, block: int, ret: int): map<int, Option<int>> {
    if block in backend && ret == 0 then backend[block := None] else backend
  }

  // drm_free_agp: the backend takes back a block that is not bound.
  function Freed(backend: map<int, Option<int>>, block: int): map<int, Option<int>> {
    if block in backend && backend[block] == None then backend - {block} else backend
  }

  // The entry's block goes back to the backend.
  function Returned(backend: map<int, Option<int>>, e: Entry, ret: int): map<int, Option<int>> {
    Freed(if e.bound != 0 then Unbound(backend, e.memory, ret) else backend, e.memory)
  }

  function RetFor(rets: map<int, int>, block: int): int {
    if block in rets then rets[block] else 0
  }

  function ReturnAll(backend: map<int, Option<int>>, memory: seq<Entry>, rets: map<int, int>): map<int, Option<int>> {
    if memory == [] then backend
    else
      var e := memory[|memory| - 1];
      Returned(ReturnAll(backend, memory[..|memory| - 1], rets), e, RetFor(rets, e.memory))
  }

  function Remove(memory: seq<Entry>, i: nat): seq<Entry>
    requires i < |memory|
  {
    memory[..i] + memory[i + 1..]
  }

  function Step(a: Agp, op: Op): (Agp, int) {
    match op
    case Acquire(ret) =>
      if a.acquired then (a, -EBUSY) else if ret != 0 then (a, -ret) else (a.(acquired := true), 0)
    case Release => if !a.acquired then (a, -EINVAL) else (a.(acquired := false), 0)
    case Enable => if !a.acquired then (a, -EINVAL) else (a.(enabled := true), 0)
    case Alloc(size, entryOk, block) =>
      if !a.acquired then (a, -EINVAL)
      else if !entryOk || block.None? then (a, -ENOMEM)
      else
        var pages := WrapU64(size + PAGE_SIZE - 1) / PAGE_SIZE;
        (a.(memory := [Entry(block.value, block.value, 0, pages)] + a.memory,
            backend := a.backend[block.value := None]), 0)
    case Bind(handle, offset, ret) =>
      var i := Find(a.memory, handle);
      if !a.acquired || i.None? || a.memory[i.value].bound != 0 then (a, -EINVAL)
      else if ret != 0 then (a, ret)
      else
        var e, page := a.memory[i.value], PageOf(offset);
        (a.(memory := a.memory[i.value := e.(bound := BoundAt(a.base, page))],
            backend := a.backend[e.memory := Some(page)]), 0)
    case Unbind(handle, ret) =>
      var i := Find(a.memory, handle);
      if !a.acquired || i.None? || a.memory[i.value].bound == 0 then (a, -EINVAL)
      else if ret != 0 then (a, ret)
      else
        var e := a.memory[i.value];
        (a.(memory := a.memory[i.value := e.(bound := 0)], backend := Unbound(a.backend, e.memory, ret)), 0)
    case Free(handle, ret) =>
      var i := Find(a.memory, handle);
      if !a.acquired || i.None? then (a, -EINVAL)
      else
        (a.(memory := Remove(a.memory, i.value), backend := Returned(a.backend, a.memory[i.value], ret)), 0)
    case Clear(rets) =>
      if !a.legacy then (a, 0)
      else
        (a.(memory := [], backend := ReturnAll(a.backend, a.memory, rets), acquired := false, enabled := false), 0)
  }

  // A new block is not one that is outstanding, and NULL is no block.
  predicate Possible(a: Agp, op: Op) {
    op.Alloc? && op.block.Some? ==> op.block.value > 0 && op.block.value !in a.backend
  }

  /* ---------- resource conservation ---------- */

  // The entry stands for an outstanding block, and its bound field tells where that is bound.
  predicate EntryOk(a: Agp, i: nat)
    requires i < |a.memory|
  {
    var e := a.memory[i];
    && e.handle == e.memory > 0 && e.memory in a.backend
    && (e.bound != 0 <==> a.backend[e.memory].Some?)
    && (a.backend[e.memory].Some? ==> e.bound == BoundAt(a.base, a.backend[e.memory].value))
  }

  // Some entry stands for the block.
  predicate Listed(memory: seq<Entry>, block: int) {
    exists i :: 0 <= i < |memory| && memory[i].memory == block
  }

  predicate HandlesDistinct(memory: seq<Entry>) {
    forall i, j :: 0 <= i < j < |memory| ==> memory[i].handle != memory[j].handle
  }

  ghost predicate Inv(a: Agp) {
    && HandlesDistinct(a.memory)
    && (forall i :: 0 <= i < |a.memory| ==> EntryOk(a, i))
    && (forall b :: b in a.backend ==> Listed(a.memory, b))
  }

  lemma AllocKeepsInv(a: Agp, op: Op)
    requires Inv(a) && Possible(a, op) && op.Alloc?
    ensures Inv(Step(a, op).0)
  {
    var a' := Step(a, op).0;
    if a' != a {
      forall i | 0 <= i < |a'.memory|
        ensures EntryOk(a', i) && (i > 0 ==> a'.memory[i].handle != a'.memory[0].handle)
      {
        assert i > 0 ==> a'.memory[i] == a.memory[i - 1] && EntryOk(a, i - 1);
      }
      forall b | b in a'.backend
        ensures Listed(a'.memory, b)
      {
        if b == op.block.value {
          assert a'.memory[0].memory == b;
        } else {
          var i :| 0 <= i < |a.memory| && a.memory[i].memory == b;
          assert a'.memory[i + 1].memory == b;
        }
      }
    }
  }

  // Changing one entry and its block together.
  lemma UpdateEntry(a: Agp, i: nat, e: Entry, where: Option<int>)
    requires Inv(a) && i < |a.memory| && e.handle == a.memory[i].handle && e.memory == a.memory[i].memory
    requires (e.bound != 0 <==> where.Some?) && (where.Some? ==> e.bound == BoundAt(a.base, where.value))
    ensures Inv(a.(memory := a.memory[i := e], backend := a.backend[e.memory := where]))
  {
    var a' := a.(memory := a.memory[i := e], backend := a.backend[e.memory := where]);
    assert EntryOk(a, i);
    forall j | 0 <= j < |a'.memory|
      ensures EntryOk(a', j)
    {
      assert EntryOk(a, j);
    }
    forall b | b in a'.backend
      ensures Listed(a'.memory, b)
    {
      assert Listed(a.memory, b);
      var j :| 0 <= j < |a.memory| && a.memory[j].memory == b;
      assert a'.memory[j].memory == b;
    }
  }

  // The base and the offset do not cancel out.
  predicate OffsetOk(base: int, offset: int) {
    (base + WrapS32(RoundUp(offset))) % TWO_64 != 0
  }

  // A successful bind keeps the bookkeeping exactly when base and offset do not cancel out, since
  // zero stands for unbound.
  lemma BindKeepsInvIff(a: Agp, op: Op)
    requires Inv(a) && op.Bind? && Step(a, op).1 == 0
    ensures Inv(Step(a, op).0) <==> OffsetOk(a.base, op.offset)
  {
    BoundIs(a.base, op.offset);
    var i, page := Find(a.memory, op.handle).value, PageOf(op.offset);
    var e := a.memory[i].(bound := BoundAt(a.base, page));
    if e.bound != 0 {
      UpdateEntry(a, i, e, Some(page));
    } else {
      assert !EntryOk(Step(a, op).0, i);
    }
  }

  lemma UnbindKeepsInv(a: Agp, op: Op)
    requires Inv(a) && op.Unbind?
    ensures Inv(Step(a, op).0)
  {
    var i := Find(a.memory, op.handle);
    if Step(a, op).0 != a {
      assert EntryOk(a, i.value);
      UpdateEntry(a, i.value, a.memory[i.value].(bound := 0), None);
    }
  }

  lemma RemoveKeepsInv(a: Agp, i: nat)
    requires Inv(a) && i < |a.memory|
    ensures Inv(a.(memory := Remove(a.memory, i), backend := a.backend - {a.memory[i].memory}))
  {
    var block := a.memory[i].memory;
    var a' := a.(memory := Remove(a.memory, i), backend := a.backend - {block});
    assert EntryOk(a, i);
    forall j | 0 <= j < |a'.memory|
      ensures EntryOk(a', j)
    {
      var k := if j < i then j else j + 1;
      assert a'.memory[j] == a.memory[k] && EntryOk(a, k);
    }
    forall b | b in a'.backend
      ensures Listed(a'.memory, b)
    {
      var k :| 0 <= k < |a.memory| && a.memory[k].memory == b;
      assert a'.memory[if k < i then k else k - 1].memory == b;
    }
  }

  // Freeing an entry conserves the blocks exactly when its block was not bound or could be unbound:
  // the result of unbinding is ignored, and the backend keeps a block that is still bound.
  lemma FreeKeepsInvIff(a: Agp, op: Op)
    requires Inv(a) && op.Free? && Step(a, op).1 == 0
    ensures Inv(Step(a, op).0) <==>
      a.memory[Find(a.memory, op.handle).value].bound == 0 || op.ret == 0
  {
    var i := Find(a.memory, op.handle).value;
    var e, a' := a.memory[i], Step(a, op).0;
    assert EntryOk(a, i);
    if e.bound == 0 || op.ret == 0 {
      assert a'.backend == a.backend - {e.memory};
      RemoveKeepsInv(a, i);
    } else {
      assert a'.backend == a.backend;
      forall j | 0 <= j < |a'.memory|
        ensures a'.memory[j].memory != e.memory
      {
        var k := if j < i then j else j + 1;
        assert a'.memory[j] == a.memory[k] && EntryOk(a, k) && k != i;
      }
      assert e.memory in a'.backend && !Listed(a'.memory, e.memory);
    }
  }

  // The backend takes the entry's block back.
  predicate GoesBack(e: Entry, rets: map<int, int>) {
    e.bound == 0 || RetFor(rets, e.memory) == 0
  }

  // What clearing the first k entries does to the block of the i-th.
  lemma {:induction false} ReturnPrefix(a: Agp, k: nat, rets: map<int, int>, i: nat)
    requires Inv(a) && k <= |a.memory| && i < |a.memory|
    ensures var b, left := a.memory[i].memory, ReturnAll(a.backend, a.memory[..k], rets);
      && left.Keys <= a.backend.Keys && b in a.backend
      && (b in left <==> !(i < k && GoesBack(a.memory[i], rets)))
      && (b in left ==> left[b] == a.backend[b])
    decreases k
  {
    assert EntryOk(a, i);
    if k > 0 {
      assert a.memory[..k][..k - 1] == a.memory[..k - 1];
      assert EntryOk(a, k - 1);
      ReturnPrefix(a, k - 1, rets, i);
      ReturnPrefix(a, k - 1, rets, k - 1);
    }
  }

  // Clearing a legacy device leaves no entry, and outstanding exactly the bound blocks whose
  // unbinding failed. On other devices it does nothing.
  lemma ClearLeaves(a: Agp, rets: map<int, int>, b: int)
    requires Inv(a)
    ensures var a' := Step(a, Clear(rets)).0;
      if !a.legacy then a' == a
      else
        && a'.memory == [] && !a'.acquired && !a'.enabled
        && (b in a'.backend <==> b in a.backend && a.backend[b].Some? && RetFor(rets, b) != 0)
  {
    assert a.memory[..|a.memory|] == a.memory;
    if a.legacy {
      if b in a.backend {
        assert Listed(a.memory, b);
        var i :| 0 <= i < |a.memory| && a.memory[i].memory == b;
        assert EntryOk(a, i);
        ReturnPrefix(a, |a.memory|, rets, i);
      } else if a.memory != [] {
        ReturnPrefix(a, |a.memory|, rets, 0);
      }
    }
  }

  // So it leaves nothing allocated or bound, and the bookkeeping intact, exactly when every bound
  // block could be unbound.
  lemma ClearKeepsInvIff(a: Agp, rets: map<int, int>)
    requires Inv(a) && a.legacy
    ensures Inv(Step(a, Clear(rets)).0) <==> Step(a, Clear(rets)).0.backend == map[]
    ensures Inv(Step(a, Clear(rets)).0) <==>
      forall b :: b in a.backend && a.backend[b].Some? ==> RetFor(rets, b) == 0
  {
    var a' := Step(a, Clear(rets)).0;
    forall b
      ensures b in a'.backend <==> b in a.backend && a.backend[b].Some? && RetFor(rets, b) != 0
    {
      ClearLeaves(a, rets, b);
    }
    assert a'.memory == [] by { ClearLeaves(a, rets, 0); }
    assert forall b :: !Listed(a'.memory, b);
    if forall b :: b !in a'.backend {
      assert a'.backend == map[];
    }
  }

  /* ---------- runs ---------- */

  // The entry that a call finds, if the device is acquired.
  function Found(a: Agp, handle: int): Option<Entry> {
    var i := Find(a.memory, handle);
    if a.acquired && i.Some? then Some(a.memory[i.value]) else None
  }

  // What the caller and the backend owe the bookkeeping: no block is bound at address zero, and
  // what is bound can be unbound when it is freed.
  predicate Sound(a: Agp, op: Op) {
    match op
    case Bind(handle, offset, ret) =>
      Found(a, handle).Some? && Found(a, handle).value.bound == 0 && ret == 0 ==> OffsetOk(a.base, offset)
    case Free(handle, ret) => Found(a, handle).Some? && Found(a, handle).value.bound != 0 ==> ret == 0
    case Clear(rets) => a.legacy ==> forall b | b in a.backend && a.backend[b].Some? :: RetFor(rets, b) == 0
    case _ => true
  }

  // An operation keeps the bookkeeping exactly when they do.
  lemma StepKeepsInvIff(a: Agp, op: Op)
    requires Inv(a) && Possible(a, op)
    ensures Inv(Step(a, op).0) <==> Sound(a, op)
  {
    var a' := Step(a, op).0;
    match op
    case Alloc(_, _, _) => AllocKeepsInv(a, op);
    case Bind(_, _, _) =>
      if Step(a, op).1 == 0 {
        BindKeepsInvIff(a, op);
      }
    case Unbind(_, _) => UnbindKeepsInv(a, op);
    case Free(_, _) =>
      if Found(a, op.handle).Some? {
        FreeKeepsInvIff(a, op);
      }
    case Clear(rets) =>
      if a.legacy {
        ClearKeepsInvIff(a, rets);
      }
    case _ =>
      assert a'.memory == a.memory && a'.backend == a.backend;
      assert forall i :: 0 <= i < |a.memory| ==> EntryOk(a, i) ==> EntryOk(a', i);
  }

  /* ---------- what calls do ---------- */

  // When a call succeeds, and that it changes nothing when it does not.
  lemma StepReturns(a: Agp, op: Op)
    ensures Step(a, op).1 == 0 <==>
      match op
      case Acquire(ret) => !a.acquired && ret == 0
      case Release => a.acquired
      case Enable => a.acquired
      case Alloc(_, entryOk, block) => a.acquired && entryOk && block.Some?
      case Bind(handle, _, ret) => Found(a, handle).Some? && Found(a, handle).value.bound == 0 && ret == 0
      case Unbind(handle, ret) => Found(a, handle).Some? && Found(a, handle).value.bound != 0 && ret == 0
      case Free(handle, _) => Found(a, handle).Some?
      case Clear(_) => true
    ensures Step(a, op).1 != 0 ==> Step(a, op).0 == a
  {
  }

  // The errors: a second acquisition finds the device busy. The other calls need an acquired device, an
  // entry with the handle, unbound for binding and bound for unbinding, and memory; what the backend
  // answers is passed on, negated by acquiring.
  lemma StepErrors(a: Agp, op: Op)
    requires Step(a, op).1 != 0
    ensures match op
      case Acquire(ret) => Step(a, op).1 == if a.acquired then -EBUSY else -ret
      case Alloc(_, _, _) => Step(a, op).1 == if a.acquired then -ENOMEM else -EINVAL
      case Bind(handle, _, ret) =>
        Step(a, op).1 == if Found(a, handle).Some? && Found(a, handle).value.bound == 0 then ret else -EINVAL
      case Unbind(handle, ret) =>
        Step(a, op).1 == if Found(a, handle).Some? && Found(a, handle).value.bound != 0 then ret else -EINVAL
      case _ => Step(a, op).1 == -EINVAL
  {
  }

  // Acquiring and enabling set one flag each. Releasing undoes acquiring, and the device can be
  // acquired again.
  lemma AcquireRelease(a: Agp)
    requires !a.acquired
    ensures var a' := Step(a, Acquire(0)).0;
      && a' == Agp(a.base, a.legacy, true, a.enabled, a.memory, a.backend)
      && Step(a', Release) == (a, 0)
      && Step(a', Enable).0 == Agp(a.base, a.legacy, true, true, a.memory, a.backend)
  {
  }

  // The least number of pages that hold so many bytes.
  predicate Holds(pages: int, size: int) {
    (pages - 1) * 4096 < size <= pages * 4096
  }

  // A new block heads the list, unbound, with as many pages as it takes.
  lemma AllocDoes(a: Agp, op: Op)
    requires op.Alloc? && Step(a, op).1 == 0
    ensures var a', b := Step(a, op).0, op.block.value;
      && a'.memory != [] && a'.memory[1..] == a.memory
      && a'.memory[0] == Entry(b, b, 0, a'.memory[0].pages) && a'.backend == a.backend[b := None]
      && (0 <= op.size && op.size + 4095 < TWO_64 ==> Holds(a'.memory[0].pages, op.size))
      && (a'.base, a'.legacy, a'.acquired, a'.enabled) == (a.base, a.legacy, a.acquired, a.enabled)
  {
    if 0 <= op.size && op.size + 4095 < TWO_64 {
      ModUnique(op.size + 4095, 0, op.size + 4095, TWO_64);
    }
  }

  // Only entry i and its block differ.
  predicate OnlyEntry(a: Agp, a': Agp, i: nat)
    requires i < |a.memory|
  {
    && |a'.memory| == |a.memory| && (forall j :: 0 <= j < |a.memory| && j != i ==> a'.memory[j] == a.memory[j])
    && a'.memory[i] == a.memory[i].(bound := a'.memory[i].bound)
    && a'.backend.Keys == a.backend.Keys
    && (forall b | b in a.backend && b != a.memory[i].memory :: a'.backend[b] == a.backend[b])
    && (a'.base, a'.legacy, a'.acquired, a'.enabled) == (a.base, a.legacy, a.acquired, a.enabled)
  }

  // Binding and unbinding touch the entry with the handle and its block, and nothing else. The block
  // is bound at the page asked for, or not any more.
  lemma BindUnbindTouch(a: Agp, op: Op)
    requires Inv(a) && (op.Bind? || op.Unbind?) && Step(a, op).1 == 0
    ensures var a', i := Step(a, op).0, Find(a.memory, op.handle);
      && i.Some? && OnlyEntry(a, a', i.value) && op.handle in a'.backend
      && (op.Bind? ==> a'.backend[op.handle] == Some(PageOf(op.offset)))
      && (op.Unbind? ==> a'.backend[op.handle] == None && a'.memory[i.value].bound == 0)
  {
    var i := Find(a.memory, op.handle).value;
    assert EntryOk(a, i);
    assert a.memory[i].memory in a.backend;
    assert Step(a, op).0.backend.Keys == a.backend.Keys;
  }

  // The page is the offset rounded up, for offsets an int can hold.
  lemma PageOfHolds(offset: int)
    requires 0 <= offset && offset + 4095 < TWO_31
    ensures Holds(PageOf(offset), offset)
  {
    var n := (offset + 4095) / 4096;
    ModUnique(offset + 4095, 0, offset + 4095, TWO_64);
    ModUnique(n + TWO_31, 0, n + TWO_31, TWO_32);
  }

  lemma RemoveParts(memory: seq<Entry>, i: nat)
    requires i < |memory| && HandlesDistinct(memory)
    ensures var rest := Remove(memory, i);
      && memory == rest[..i] + [memory[i]] + rest[i..]
      && forall e :: e in rest ==> e.handle != memory[i].handle
  {
    var rest := Remove(memory, i);
    assert rest[..i] == memory[..i] && rest[i..] == memory[i + 1..];
    assert memory == memory[..i] + [memory[i]] + memory[i + 1..];
    forall k | 0 <= k < |rest|
      ensures rest[k].handle != memory[i].handle
    {
      assert rest[k] == memory[if k < i then k else k + 1];
    }
  }

  // Freeing takes the entry out of the list, and its block back unless it stays bound; all others stay.
  lemma FreeDoes(a: Agp, op: Op)
    requires Inv(a) && op.Free? && Step(a, op).1 == 0
    ensures var a', i := Step(a, op).0, Find(a.memory, op.handle);
      && i.Some? && a.memory == a'.memory[..i.value] + [a.memory[i.value]] + a'.memory[i.value..]
      && (forall e :: e in a'.memory ==> e.handle != op.handle)
      && a'.backend == (if a.memory[i.value].bound == 0 || op.ret == 0 then a.backend - {op.handle} else a.backend)
      && (a'.base, a'.legacy, a'.acquired, a'.enabled) == (a.base, a.legacy, a.acquired, a.enabled)
  {
    var i, a' := Find(a.memory, op.handle).value, Step(a, op).0;
    assert EntryOk(a, i);
    RemoveParts(a.memory, i);
    if a.memory[i].bound == 0 || op.ret == 0 {
      assert a'.backend == a.backend - {op.handle};
    }
  }

  /* ---------- what calls undo ---------- */

  // Giving a new block back leaves no trace of it.
  lemma AllocFree(a: Agp, op: Op, ret: int)
    requires Inv(a) && Possible(a, op) && op.Alloc? && Step(a, op).1 == 0
    ensures Step(Step(a, op).0, Free(op.block.value, ret)) == (a, 0)
  {
    var b, a' := op.block.value, Step(a, op).0;
    assert a'.memory[0].handle == b && Find(a'.memory, b) == Some(0);
    assert Remove(a'.memory, 0) == a.memory;
    assert a'.backend - {b} == a.backend;
  }

  // Neither does unbinding what was bound, unless it was bound at address zero.
  lemma BindUnbind(a: Agp, op: Op)
    requires Inv(a) && op.Bind? && Step(a, op).1 == 0
    ensures Step(Step(a, op).0, Unbind(op.handle, 0)) == (a, 0) <==> OffsetOk(a.base, op.offset)
  {
    var i, a' := Find(a.memory, op.handle).value, Step(a, op).0;
    BoundIs(a.base, op.offset);
    assert EntryOk(a, i);
    FindUpdated(a.memory, op.handle, a'.memory[i]);
    assert a'.memory[i := a.memory[i]] == a.memory;
    assert a'.backend[a.memory[i].memory := None] == a.backend;
  }

  lemma {:induction false} FindUpdated(memory: seq<Entry>, handle: int, e: Entry)
    requires Find(memory, handle).Some? && e.handle == handle
    ensures Find(memory[Find(memory, handle).value := e], handle) == Find(memory, handle)
    decreases |memory|
  {
    if memory[0].handle != handle {
      FindUpdated(memory[1..], handle, e);
      var i := Find(memory, handle).value;
      assert memory[i := e][1..] == memory[1..][i - 1 := e];
    }
  }

  datatype Run = Run(ops: seq<Op>, states: seq<Agp>)

  predicate StepAt(r: Run, i: nat)
    requires i < |r.ops| && i + 1 < |r.states|
  {
    Possible(r.states[i], r.ops[i]) && r.states[i + 1] == Step(r.states[i], r.ops[i]).0
  }

  ghost predicate Legal(r: Run) {
    && |r.states| == |r.ops| + 1
    && r.states[0].memory == [] && r.states[0].backend == map[]
    && forall i :: 0 <= i < |r.ops| ==> StepAt(r, i)
  }

  // Over every run the list and the backend agree: the entries are exactly the outstanding blocks,
  // handles are distinct, and bound fields say where blocks are bound.
  lemma {:induction false} RunKeepsInv(r: Run, i: nat)
    requires Legal(r) && i < |r.states|
    requires forall j :: 0 <= j < i ==> Sound(r.states[j], r.ops[j])
    ensures Inv(r.states[i])
  {
    if i > 0 {
      RunKeepsInv(r, i - 1);
      assert StepAt(r, i - 1);
      StepKeepsInvIff(r.states[i - 1], r.ops[i - 1]);
    }
  }

  // Where a block is bound over a run: at the base plus the requested offset, rounded up to a page.
  lemma BoundWhereAsked(r: Run, i: nat)
    requires Legal(r) && i < |r.ops| && r.ops[i].Bind? && Step(r.states[i], r.ops[i]).1 == 0
    requires forall j :: 0 <= j < i ==> Sound(r.states[j], r.ops[j])
    requires InRange(r.states[i].base, r.ops[i].offset)
    ensures var a', k := r.states[i + 1], Find(r.states[i].memory, r.ops[i].handle);
      && k.Some? && k.value < |a'.memory| && a'.memory[k.value].handle == r.ops[i].handle
      && a'.memory[k.value].bound == a'.base + (r.ops[i].offset + PAGE_SIZE - 1) / PAGE_SIZE * PAGE_SIZE
      && r.ops[i].handle in a'.backend && a'.backend[r.ops[i].handle].Some?
  {
    RunKeepsInv(r, i);
    assert StepAt(r, i);
    var a, k := r.states[i], Find(r.states[i].memory, r.ops[i].handle).value;
    assert EntryOk(a, k);
    BoundInRange(a.base, r.ops[i].offset);
  }

  // The device is given up.
  predicate GivesUp(a: Agp, op: Op) {
    a.acquired && (op.Release? || (op.Clear? && a.legacy))
  }

  // The device is acquired by one caller at a time: between two successful acquisitions it is
  // given up.
  lemma {:induction false} AcquiredOnce(r: Run, i: nat, j: nat)
    requires Legal(r) && i < j < |r.ops| && r.ops[i].Acquire? && r.ops[j].Acquire?
    requires Step(r.states[i], r.ops[i]).1 == 0 && Step(r.states[j], r.ops[j]).1 == 0
    ensures exists k :: i < k < j && GivesUp(r.states[k], r.ops[k])
  {
    assert StepAt(r, i);
    if forall k :: i < k < j ==> !GivesUp(r.states[k], r.ops[k]) {
      StaysAcquired(r, i + 1, j);
    }
  }

  lemma {:induction false} StaysAcquired(r: Run, i: nat, j: nat)
    requires Legal(r) && i <= j < |r.states| && r.states[i].acquired
    requires forall k :: i <= k < j ==> !GivesUp(r.states[k], r.ops[k])
    ensures r.states[j].acquired
    decreases j - i
  {
    if i < j {
      StaysAcquired(r, i, j - 1);
      assert StepAt(r, j - 1);
    }
  }

  /* ---------- what the conditions keep out ---------- */

  function Last(r: Run): Agp
    requires r.states != []
  {
    r.states[|r.states| - 1]
  }

  lemma Extend(r: Run, op: Op) returns (r': Run)
    requires Legal(r) && Possible(Last(r), op)
    ensures Legal(r') && Last(r') == Step(Last(r), op).0
  {
    r' := Run(r.ops + [op], r.states + [Step(Last(r), op).0]);
    forall i | 0 <= i < |r'.ops|
      ensures StepAt(r', i)
    {
      assert i < |r.ops| ==> StepAt(r, i);
    }
  }

  // A run that binds the block with handle 1.
  lemma BindOne(offset: int) returns (r: Run)
    ensures Legal(r) && Last(r) == Agp(4096, true, true, false,
      [Entry(1, 1, BoundAt(4096, PageOf(offset)), 1)], map[1 := Some(PageOf(offset))])
  {
    r := Run([], [Agp(4096, true, false, false, [], map[])]);
    r := Extend(r, Acquire(0));
    r := Extend(r, Alloc(4096, true, Some(1)));
    r := Extend(r, Bind(1, offset, 0));
  }

  // The block cannot be unbound when it is freed: it stays bound, and no entry tells of it.
  lemma FreedBlockLeaks() returns (r: Run)
    ensures Legal(r) && Last(r).memory == [] && Last(r).backend == map[1 := Some(0)]
  {
    r := BindOne(0);
    r := Extend(r, Free(1, -EINVAL));
  }

  // The same when the device is cleared.
  lemma ClearedBlockLeaks() returns (r: Run)
    ensures Legal(r) && Last(r).memory == [] && Last(r).backend == map[1 := Some(0)]
  {
    r := BindOne(0);
    var a, rets := Last(r), map[1 := -EINVAL];
    assert a.memory[..|a.memory| - 1] == [];
    assert ReturnAll(a.backend, a.memory, rets) == a.backend;
    r := Extend(r, Clear(rets));
  }

  // An offset of 2^31 comes out below the base.
  lemma LargeOffsetWrongAddress() returns (r: Run)
    ensures Legal(r) && |Last(r).memory| == 1
    ensures Last(r).memory[0].bound == TWO_64 - TWO_31 + 4096 != 4096 + RoundUp(TWO_31)
  {
    r := BindOne(TWO_31);
  }

  // An offset that cancels the base is bound at zero, and counts as unbound.
  lemma BoundAtZero() returns (r: Run)
    ensures Legal(r) && Last(r).backend == map[1 := Some(PageOf(TWO_64 - 4096))]
    ensures |Last(r).memory| == 1 && Last(r).memory[0].bound == 0
  {
    var offset := TWO_64 - 4096;
    assert RoundUp(offset) == offset && WrapS32(offset) == -4096 by {
      ModUnique(offset + TWO_31, TWO_32, TWO_31 - 4096, TWO_32);
    }
    BoundIs(4096, offset);
    r := BindOne(offset);
  }

  /* ---------- the operations in place ---------- */

  // struct drm_agp_head of a device, if it has one, and the backend behind it.
  class AgpDevice {
    const present: bool
    const base: int
    const legacy: bool
    var acquired: bool
    var enabled: bool
    var memory: seq<Entry>
    ghost var backend: map<int, Option<int>>

    ghost function View(): Agp
      reads this
    {
      Agp(base, legacy, acquired, enabled, memory, backend)
    }

    // What a call does: the operation if there is an AGP head, else the given error.
    twostate predicate Did(op: Op, ret: int, missing: int)
      reads this
    {
      if present then (View(), ret) == Step(old(View()), op) else View() == old(View()) && ret == missing
    }

    // The bookkeeping is kept, if caller and backend do their part.
    twostate predicate KeptInv(op: Op)
      reads this
    {
      old(Inv(View())) && Possible(old(View()), op) && Sound(old(View()), op) ==> Inv(View())
    }

    lemma MayKeepInv(op: Op)
      ensures Inv(View()) && Possible(View(), op) && Sound(View(), op) ==> Inv(Step(View(), op).0)
    {
      if Inv(View()) && Possible(View(), op) {
        StepKeepsInvIff(View(), op);
      }
    }

    constructor (present: bool, base: int, legacy: bool)
      ensures Inv(View()) && this.present == present && this.base == base && this.legacy == legacy
      ensures !acquired && !enabled && memory == [] && backend == map[]
    {
      this.present, this.base, this.legacy := present, base, legacy;
      acquired, enabled, memory, backend := false, false, [], map[];
    }

    // drm_agp_acquire
    method DoAcquire(backendRet: int) returns (ret: int)
      modifies this
      ensures Did(Acquire(backendRet), ret, -ENODEV) && KeptInv(Acquire(backendRet))
    {
      MayKeepInv(Acquire(backendRet));
      if !present {
        return -ENODEV;
      }
      if acquired {
        return -EBUSY;
      }
      if backendRet != 0 {
        return -backendRet;
      }
      acquired := true;
      return 0;
    }

    // drm_agp_release
    method DoRelease() returns (ret: int)
      modifies this
      ensures Did(Release, ret, -EINVAL) && KeptInv(Release)
    {
      MayKeepInv(Release);
      if !present || !acquired {
        return -EINVAL;
      }
      acquired := false;
      return 0;
    }

    // drm_agp_enable
    method DoEnable() returns (ret: int)
      modifies this
      ensures Did(Enable, ret, -EINVAL) && KeptInv(Enable)
    {
      MayKeepInv(Enable);
      if !present || !acquired {
        return -EINVAL;
      }
      enabled := true;
      return 0;
    }

    // drm_agp_alloc
    method DoAlloc(size: int, entryOk: bool, block: Option<int>) returns (ret: int, handle: int)
      modifies this
      ensures Did(Alloc(size, entryOk, block), ret, -EINVAL) && KeptInv(Alloc(size, entryOk, block))
      ensures ret == 0 ==> block == Some(handle)
    {
      MayKeepInv(Alloc(size, entryOk, block));
      handle := 0;
      if !present || !acquired {
        return -EINVAL, handle;
      }
      if !entryOk {
        return -ENOMEM, handle;
      }
      var pages := WrapU64(size + PAGE_SIZE - 1) / PAGE_SIZE;
      if block.None? {
        return -ENOMEM, handle;
      }
      backend := backend[block.value := None];
      memory := [Entry(block.value, block.value, 0, pages)] + memory;
      return 0, block.value;
    }

    // drm_agp_lookup_entry walks the list.
    method Lookup(handle: int) returns (i: Option<nat>)
      ensures i == Find(memory, handle)
    {
      var k := 0;
      while k < |memory|
        invariant k <= |memory|
        invariant Find(memory, handle) ==
          match Find(memory[k..], handle) case None => None case Some(j) => Some(k + j)
      {
        assert memory[k..][1..] == memory[k + 1..];
        if memory[k].handle == handle {
          return Some(k);
        }
        k := k + 1;
      }
      return None;
    }

    // drm_agp_bind
    method DoBind(handle: int, offset: int, backendRet: int) returns (ret: int)
      modifies this
      ensures Did(Bind(handle, offset, backendRet), ret, -EINVAL) && KeptInv(Bind(handle, offset, backendRet))
    {
      MayKeepInv(Bind(handle, offset, backendRet));
      if !present || !acquired {
        return -EINVAL;
      }
      var i := Lookup(handle);
      if i.None? || memory[i.value].bound != 0 {
        return -EINVAL;
      }
      var e, page := memory[i.value], PageOf(offset);
      if backendRet != 0 {
        return backendRet;
      }
      backend := backend[e.memory := Some(page)];
      memory := memory[i.value := e.(bound := BoundAt(base, page))];
      return 0;
    }

    // drm_agp_unbind
    method DoUnbind(handle: int, backendRet: int) returns (ret: int)
      modifies this
      ensures Did(Unbind(handle, backendRet), ret, -EINVAL) && KeptInv(Unbind(handle, backendRet))
    {
      MayKeepInv(Unbind(handle, backendRet));
      if !present || !acquired {
        return -EINVAL;
      }
      var i := Lookup(handle);
      if i.None? || memory[i.value].bound == 0 {
        return -EINVAL;
      }
      var e := memory[i.value];
      backend := Unbound(backend, e.memory, backendRet);
      if backendRet == 0 {
        memory := memory[i.value := e.(bound := 0)];
      }
      return backendRet;
    }

    // drm_agp_free
    method DoFree(handle: int, backendRet: int) returns (ret: int)
      modifies this
      ensures Did(Free(handle, backendRet), ret, -EINVAL) && KeptInv(Free(handle, backendRet))
    {
      MayKeepInv(Free(handle, backendRet));
      if !present || !acquired {
        return -EINVAL;
      }
      var i := Lookup(handle);
      if i.None? {
        return -EINVAL;
      }
      var e := memory[i.value];
      if e.bound != 0 {
        backend := Unbound(backend, e.memory, backendRet);
      }
      memory := Remove(memory, i.value);
      backend := Freed(backend, e.memory);
      return 0;
    }

    // drm_legacy_agp_clear
    method DoClear(ghost rets: map<int, int>)
      modifies this
      ensures Did(Clear(rets), 0, 0) && KeptInv(Clear(rets))
    {
      MayKeepInv(Clear(rets));
      if !present || !legacy {
        return;
      }
      var k := 0;
      while k < |memory|
        invariant k <= |memory| && acquired == old(acquired) && enabled == old(enabled) && memory == old(memory)
        invariant backend == ReturnAll(old(backend), memory[..k], rets)
      {
        assert memory[..k + 1][..k] == memory[..k];
        var e := memory[k];
        if e.bound != 0 {
          backend := Unbound(backend, e.memory, RetFor(rets, e.memory));
        }
        backend := Freed(backend, e.memory);
        k := k + 1;
      }
      assert memory[..k] == memory;
      memory := [];
      if acquired {
        var ret := DoRelease();
      }
      acquired := false;
      enabled := false;
    }
  }
}
