/** The lock-free single-producer single-consumer job queue (include/drm/spsc_queue.h).

    The queue is a transition system with one transition per access to shared memory. The
    producer and the consumer interleave freely, under sequential consistency. `Apply` is the
    transition function; a run is a sequence of actions. The class `JobQueue` holds the same
    state in fields, and each of its methods performs one action in place.
  */
module SpscQueue {
  import opened Options

  // Nodes are identified by their address.
  type Node = nat

  // A place that holds a pointer to a node: queue->head, or some node->next.
  datatype Slot = HeadSlot | NextOf(node: Node)

  // Where the producer stands inside spsc_queue_push.
  datatype Producer =
    | PIdle
    | PCleared(node: Node)             // node->next is NULL, the tail not yet exchanged
    | PSwapped(node: Node, slot: Slot)  // the tail exchanged, the link not yet written
    | PLinked(node: Node, slot: Slot)   // the link written, job_count not yet incremented

  // Where the consumer stands inside spsc_queue_pop.
  datatype Consumer =
    | CIdle
    | CGot(node: Node)                            // head read, not NULL
    | CNext(node: Node, next: Option<Node>)       // node->next read
    | CCas(node: Node)                            // NULL written to head, about to compare-and-swap
    | CWait(node: Node)                           // in the wait loop, about to read node->next
    | CWaitGot(node: Node, next: Option<Node>)    // in the wait loop, about to write head
    | CDone(node: Node)                           // head is final, job_count not yet decremented

  datatype State = State(
    head: Option<Node>,
    tail: Slot,
    jobCount: int,
    next: map<Node, Option<Node>>,
    prod: Producer,
    cons: Consumer)

  datatype Action =
    | PushClear(node: Node) | PushSwap | PushLink | PushCount
    | PopReadHead | PopReadNext | PopWriteHead | PopCas | PopWaitRead | PopWaitWrite | PopCount

  /* ---------- the transition system ---------- */

  // The next fields are memory the queue does not own, so they start out arbitrary.
  function Init(next: map<Node, Option<Node>>): State {
    State(None, HeadSlot, 0, next, PIdle, CIdle)
  }

  // A node is in flight from the start of the push that enters it to the return of the pop that
  // yields it. `queued` lists the nodes that are linked and not yet taken.
  function InFlight(s: State, queued: seq<Node>): set<Node> {
    (set n | n in queued)
    + (if s.prod.PCleared? || s.prod.PSwapped? then {s.prod.node} else {})
    + (if s.cons.CIdle? then {} else {s.cons.node})
  }

  // Whether the control points allow the action; the operands are checked by `Safe`.
  predicate Enabled(s: State, a: Action) {
    match a
    case PushClear(_) => s.prod.PIdle?
    case PushSwap => s.prod.PCleared?
    case PushLink => s.prod.PSwapped?
    case PushCount => s.prod.PLinked?
    case PopReadHead => s.cons.CIdle?
    case PopReadNext => s.cons.CGot?
    case PopWriteHead => s.cons.CNext?
    case PopCas => s.cons.CCas?
    case PopWaitRead => s.cons.CWait?
    case PopWaitWrite => s.cons.CWaitGot?
    case PopCount => s.cons.CDone?
  }

  // Every pointer the action follows points to a node whose memory is known.
  predicate Safe(s: State, a: Action)
    requires Enabled(s, a)
  {
    match a
    case PushLink => s.prod.slot.NextOf? ==> s.prod.slot.node in s.next
    case PopReadNext => s.cons.node in s.next
    case PopWaitRead => s.cons.node in s.next
    case _ => true
  }

  function Apply(s: State, a: Action): State
    requires Enabled(s, a) && Safe(s, a)
  {
    match a
    case PushClear(n) =>
      s.(next := s.next[n := None], prod := PCleared(n))
    case PushSwap =>
      s.(tail := NextOf(s.prod.node), prod := PSwapped(s.prod.node, s.tail))
    case PushLink =>
      var n, sl := s.prod.node, s.prod.slot;
      if sl.HeadSlot? then
        s.(head := Some(n), prod := PLinked(n, sl))
      else
        s.(next := s.next[sl.node := Some(n)], prod := PLinked(n, sl))
    case PushCount =>
      s.(jobCount := s.jobCount + 1, prod := PIdle)
    case PopReadHead =>
      if s.head.None? then s else s.(cons := CGot(s.head.value))
    case PopReadNext =>
      s.(cons := CNext(s.cons.node, s.next[s.cons.node]))
    case PopWriteHead =>
      s.(head := s.cons.next, cons := if s.cons.next.None? then CCas(s.cons.node) else CDone(s.cons.node))
    case PopCas =>
      if s.tail == NextOf(s.cons.node) then
        s.(tail := HeadSlot, cons := CDone(s.cons.node))
      else
        s.(cons := CWait(s.cons.node))
    case PopWaitRead =>
      s.(cons := CWaitGot(s.cons.node, s.next[s.cons.node]))
    case PopWaitWrite =>
      s.(head := s.cons.next, cons := if s.cons.next.None? then CWait(s.cons.node) else CDone(s.cons.node))
    case PopCount =>
      s.(jobCount := s.jobCount - 1, cons := CIdle)
  }

  // What spsc_queue_push returns after its count: whether the exchanged tail was &queue->head.
  function PushResult(s: State): bool
    requires s.prod.PLinked?
  {
    s.prod.slot == HeadSlot
  }

  // spsc_queue_pop returns NULL right after reading a NULL head.
  predicate PopsNull(s: State, a: Action) {
    a.PopReadHead? && s.cons.CIdle? && s.head.None?
  }

  /* ---------- the abstract queue ---------- */

  // The FIFO queue: a push enters its node at the link write, a pop takes it at the head read.
  function AbsStep(s: State, queued: seq<Node>, a: Action): seq<Node>
    requires Enabled(s, a)
  {
    if a.PushLink? then queued + [s.prod.node]
    else if a.PopReadHead? && s.head.Some? && queued != [] then queued[1..]
    else queued
  }

  function First(queued: seq<Node>): Option<Node> {
    if queued == [] then None else Some(queued[0])
  }

  // The consumer still has its node as the origin of the chain.
  predicate Attached(s: State) {
    s.cons.CGot? || s.cons.CNext? || s.cons.CCas? || s.cons.CWait? || s.cons.CWaitGot?
  }

  // The nodes of the linked chain, the taken one included while it is attached.
  function Chain(s: State, queued: seq<Node>): seq<Node> {
    if Attached(s) then [s.cons.node] + queued else queued
  }

  // The slot the next link has to be written to.
  function EndSlot(s: State, queued: seq<Node>): Slot {
    var c := Chain(s, queued);
    if c == [] then HeadSlot else NextOf(c[|c| - 1])
  }

  predicate Distinct(c: seq<Node>) {
    forall i, j :: 0 <= i < j < |c| ==> c[i] != c[j]
  }

  // Memory links the i-th node of the chain to its successor, the last one to NULL.
  predicate LinkedAt(next: map<Node, Option<Node>>, c: seq<Node>, i: nat)
    requires i < |c|
  {
    c[i] in next && next[c[i]] == (if i + 1 < |c| then Some(c[i + 1]) else None)
  }

  predicate Linked(next: map<Node, Option<Node>>, c: seq<Node>) {
    forall i :: 0 <= i < |c| ==> LinkedAt(next, c, i)
  }

  predicate ProducerInv(s: State, queued: seq<Node>) {
    var c := Chain(s, queued);
    match s.prod
    case PIdle => s.tail == EndSlot(s, queued)
    case PCleared(n) =>
      && s.tail == EndSlot(s, queued)
      && n !in c && n in s.next && s.next[n] == None
    case PSwapped(n, sl) =>
      && s.tail == NextOf(n) && sl == EndSlot(s, queued)
      && n !in c && n in s.next && s.next[n] == None
    case PLinked(_, _) => s.tail == EndSlot(s, queued)
  }

  // A link has been written behind the consumer's node, or the producer is about to write it.
  predicate LinkComing(s: State, queued: seq<Node>)
    requires !s.cons.CIdle?
  {
    queued != [] || (s.prod.PSwapped? && s.prod.slot == NextOf(s.cons.node))
  }

  predicate ConsumerInv(s: State, queued: seq<Node>) {
    match s.cons
    case CIdle => s.head == First(queued)
    case CGot(n) => s.head == Some(n)
    case CNext(n, nx) => s.head == Some(n) && (nx == None || nx == First(queued))
    case CCas(n) => s.head == None
    case CWait(n) => s.head == None && LinkComing(s, queued)
    case CWaitGot(n, nx) => s.head == None && LinkComing(s, queued) && (nx == None || nx == First(queued))
    case CDone(n) =>
      && s.head == First(queued) && n !in queued
      && ((s.prod.PCleared? || s.prod.PSwapped?) ==> s.prod.node != n)
  }

  // What job_count is short of, or ahead of, the abstract length.
  function CountLag(s: State): int {
    (if s.prod.PLinked? then -1 else 0) + (if s.cons.CIdle? then 0 else 1)
  }

  predicate Inv(s: State, queued: seq<Node>) {
    && Distinct(Chain(s, queued))
    && Linked(s.next, Chain(s, queued))
    && ProducerInv(s, queued)
    && ConsumerInv(s, queued)
    && s.jobCount == |queued| + CountLag(s)
  }

  // The caller's duty: a node being pushed is not in flight. It may have been queued before.
  predicate CallerOk(s: State, queued: seq<Node>, a: Action) {
    a.PushClear? ==> a.node !in InFlight(s, queued)
  }

  lemma InitInv(next: map<Node, Option<Node>>)
    ensures Inv(Init(next), [])
  {
  }

  /* ---------- every action keeps the invariant ---------- */

  predicate IsPush(a: Action) {
    a.PushClear? || a.PushSwap? || a.PushLink? || a.PushCount?
  }

  lemma LinkedTail(next: map<Node, Option<Node>>, c: seq<Node>)
    requires Linked(next, c) && c != []
    ensures Linked(next, c[1..])
  {
    forall i | 0 <= i < |c[1..]|
      ensures LinkedAt(next, c[1..], i)
    {
      assert LinkedAt(next, c, i + 1);
    }
  }

  lemma LinkedExtend(next: map<Node, Option<Node>>, c: seq<Node>, n: Node)
    requires Linked(next, c) && Distinct(c) && n !in c && n in next && next[n] == None
    ensures Linked(if c == [] then next else next[c[|c| - 1] := Some(n)], c + [n])
  {
    var next' := if c == [] then next else next[c[|c| - 1] := Some(n)];
    forall i | 0 <= i < |c + [n]|
      ensures LinkedAt(next', c + [n], i)
    {
      assert i < |c| ==> LinkedAt(next, c, i);
    }
  }

  lemma LinkedFrame(next: map<Node, Option<Node>>, c: seq<Node>, n: Node, v: Option<Node>)
    requires Linked(next, c) && n !in c
    ensures Linked(next[n := v], c)
  {
    var next' := next[n := v];
    forall i | 0 <= i < |c|
      ensures LinkedAt(next', c, i)
    {
      assert LinkedAt(next, c, i);
    }
  }

  // The link goes to the end of the chain, which is memory of the queue.
  lemma LinkIsSafe(s: State, queued: seq<Node>)
    requires Inv(s, queued) && s.prod.PSwapped?
    ensures Safe(s, PushLink)
  {
    var c := Chain(s, queued);
    assert c != [] ==> LinkedAt(s.next, c, |c| - 1);
  }

  lemma PushKeepsInv(s: State, queued: seq<Node>, a: Action)
    requires Inv(s, queued) && Enabled(s, a) && CallerOk(s, queued, a)
    requires IsPush(a)
    ensures Safe(s, a) && Inv(Apply(s, a), AbsStep(s, queued, a))
  {
    if a.PushLink? {
      LinkIsSafe(s, queued);
    }
    var s', q' := Apply(s, a), AbsStep(s, queued, a);
    if a.PushLink? {
      assert Chain(s', q') == Chain(s, queued) + [s.prod.node];
      LinkedExtend(s.next, Chain(s, queued), s.prod.node);
    } else {
      assert Chain(s', q') == Chain(s, queued);
      if a.PushClear? {
        LinkedFrame(s.next, Chain(s, queued), a.node, None);
      }
    }
  }

  // While the consumer's node is attached, its next field holds the first queued node.
  lemma NextOfTaken(s: State, queued: seq<Node>)
    requires Inv(s, queued) && Attached(s)
    ensures s.cons.node in s.next && s.next[s.cons.node] == First(queued)
  {
    var c := Chain(s, queued);
    assert LinkedAt(s.next, c, 0);
    assert c[0] == s.cons.node && (queued != [] ==> c[1] == queued[0]);
  }

  lemma TakeHeadKeepsInv(s: State, queued: seq<Node>)
    requires Inv(s, queued) && s.cons.CIdle?
    ensures Inv(Apply(s, PopReadHead), AbsStep(s, queued, PopReadHead))
  {
    assert Chain(Apply(s, PopReadHead), AbsStep(s, queued, PopReadHead)) == Chain(s, queued);
  }

  // A compare-and-swap that fails has seen a tail behind the taken node.
  lemma WaitMeansLinkComing(s: State, queued: seq<Node>)
    requires Inv(s, queued) && s.cons.CCas? && s.tail != NextOf(s.cons.node)
    ensures LinkComing(s, queued)
  {
    assert queued == [] ==> EndSlot(s, queued) == NextOf(s.cons.node);
  }

  // The action leaves the taken node inside or outside the chain, as it was.
  lemma PopInsideKeepsInv(s: State, queued: seq<Node>, a: Action)
    requires Inv(s, queued) && Enabled(s, a) && Safe(s, a) && !IsPush(a) && !a.PopReadHead?
    requires Attached(s) ==> Attached(Apply(s, a))
    requires Attached(s) ==> s.cons.node in s.next && s.next[s.cons.node] == First(queued)
    ensures Inv(Apply(s, a), queued)
  {
    var s' := Apply(s, a);
    assert s'.next == s.next && s'.tail == s.tail && s'.prod == s.prod;
    assert Chain(s', queued) == Chain(s, queued);
    if a.PopCas? {
      WaitMeansLinkComing(s, queued);
    }
  }

  // The action lets go of the taken node: head is final from here on.
  lemma PopDetachKeepsInv(s: State, queued: seq<Node>, a: Action)
    requires Inv(s, queued) && Enabled(s, a) && Safe(s, a)
    requires Attached(s) && !Attached(Apply(s, a))
    ensures Inv(Apply(s, a), queued)
  {
    var c, s' := Chain(s, queued), Apply(s, a);
    assert Chain(s', queued) == c[1..];
    LinkedTail(s.next, c);
    assert queued == c[1..];
    assert Distinct(queued) && c[0] !in queued;
    if a.PopCas? {
      assert queued == [];
    } else {
      assert queued != [] && EndSlot(s', queued) == EndSlot(s, queued);
    }
  }

  lemma PopKeepsInv(s: State, queued: seq<Node>, a: Action)
    requires Inv(s, queued) && Enabled(s, a)
    requires !IsPush(a)
    ensures Safe(s, a) && Inv(Apply(s, a), AbsStep(s, queued, a))
  {
    if Attached(s) {
      NextOfTaken(s, queued);
    }
    if Attached(s) && !Attached(Apply(s, a)) {
      PopDetachKeepsInv(s, queued, a);
    } else if a.PopReadHead? {
      TakeHeadKeepsInv(s, queued);
    } else {
      PopInsideKeepsInv(s, queued, a);
    }
  }

  lemma StepKeepsInv(s: State, queued: seq<Node>, a: Action)
    requires Inv(s, queued) && Enabled(s, a) && CallerOk(s, queued, a)
    ensures Safe(s, a) && Inv(Apply(s, a), AbsStep(s, queued, a))
  {
    if IsPush(a) {
      PushKeepsInv(s, queued, a);
    } else {
      PopKeepsInv(s, queued, a);
    }
  }

  /* ---------- runs ---------- */

  // What a run has done, as its participants can see it.
  datatype History = History(
    started: seq<Node>,   // nodes handed to spsc_queue_push
    linked: seq<Node>,    // nodes whose link has been written
    taken: seq<Node>,     // nodes found at the head by spsc_queue_pop
    returned: seq<Node>)  // nodes returned by spsc_queue_pop

  datatype Config = Config(s: State, h: History)

  function Record(s: State, h: History, a: Action): History
    requires Enabled(s, a)
  {
    match a
    case PushClear(n) => h.(started := h.started + [n])
    case PushLink => h.(linked := h.linked + [s.prod.node])
    case PopReadHead => if s.head.None? then h else h.(taken := h.taken + [s.head.value])
    case PopCount => h.(returned := h.returned + [s.cons.node])
    case _ => h
  }

  // The one thing asked of callers: a node is not pushed again before a pop has returned it.
  predicate MayPush(h: History, a: Action) {
    a.PushClear? ==> multiset(h.started)[a.node] == multiset(h.returned)[a.node]
  }

  predicate StepsTo(c: Config, a: Action, c': Config) {
    && Enabled(c.s, a) && Safe(c.s, a) && MayPush(c.h, a)
    && c' == Config(Apply(c.s, a), Record(c.s, c.h, a))
  }

  // A run lists its actions and the configurations before, between and after them.
  datatype Run = Run(actions: seq<Action>, configs: seq<Config>)

  predicate StepAt(r: Run, i: nat)
    requires i < |r.actions| && i + 1 < |r.configs|
  {
    StepsTo(r.configs[i], r.actions[i], r.configs[i + 1])
  }

  predicate Legal(r: Run, mem: map<Node, Option<Node>>) {
    && |r.configs| == |r.actions| + 1
    && r.configs[0] == Config(Init(mem), History([], [], [], []))
    && forall i :: 0 <= i < |r.actions| ==> StepAt(r, i)
  }

  // The abstract queue of a run: linked and not yet taken.
  function Queued(h: History): seq<Node> {
    if |h.taken| <= |h.linked| then h.linked[|h.taken|..] else []
  }

  function Entering(s: State): seq<Node> {
    if s.prod.PCleared? || s.prod.PSwapped? then [s.prod.node] else []
  }

  function Leaving(s: State): seq<Node> {
    if s.cons.CIdle? then [] else [s.cons.node]
  }

  // Nodes leave in the order they were linked, and none is lost or made up.
  predicate HistoryInv(c: Config) {
    && c.h.taken <= c.h.linked
    && c.h.taken == c.h.returned + Leaving(c.s)
    && c.h.started == c.h.linked + Entering(c.s)
  }

  predicate RunInv(c: Config) {
    Inv(c.s, Queued(c.h)) && HistoryInv(c)
  }

  lemma NotLeftOver(gone: seq<Node>, rest: seq<Node>, n: Node)
    requires multiset(gone + rest)[n] == multiset(gone)[n]
    ensures n !in rest
  {
    assert multiset(gone + rest) == multiset(gone) + multiset(rest);
    assert n in rest ==> n in multiset(rest);
  }

  lemma StartedSplits(h: History, entering: seq<Node>, leaving: seq<Node>)
    requires h.taken <= h.linked && h.taken == h.returned + leaving && h.started == h.linked + entering
    ensures h.started == h.returned + (leaving + Queued(h) + entering)
  {
    assert h.linked == h.taken + Queued(h);
  }

  // By history alone, a node that may be pushed is not in flight.
  lemma MayPushIsCallerOk(c: Config, a: Action)
    requires HistoryInv(c) && MayPush(c.h, a)
    ensures CallerOk(c.s, Queued(c.h), a)
  {
    if a.PushClear? {
      var rest := Leaving(c.s) + Queued(c.h) + Entering(c.s);
      StartedSplits(c.h, Entering(c.s), Leaving(c.s));
      NotLeftOver(c.h.returned, rest, a.node);
      assert forall n :: n in InFlight(c.s, Queued(c.h)) ==> n in rest;
    }
  }

  // Every action refines a step of the FIFO queue.
  lemma StepRefinesFifo(s: State, h: History, a: Action)
    requires h.taken <= h.linked && Enabled(s, a)
    requires s.cons.CIdle? ==> s.head == First(Queued(h))
    ensures Record(s, h, a).taken <= Record(s, h, a).linked
    ensures Queued(Record(s, h, a)) == AbsStep(s, Queued(h), a)
  {
    if a.PopReadHead? && s.head.Some? {
      assert h.linked[|h.taken|] == s.head.value;
    }
  }

  lemma StepConserves(s: State, h: History, a: Action)
    requires h.started == h.linked + Entering(s) && h.taken == h.returned + Leaving(s)
    requires Enabled(s, a) && Safe(s, a)
    ensures Record(s, h, a).started == Record(s, h, a).linked + Entering(Apply(s, a))
    ensures Record(s, h, a).taken == Record(s, h, a).returned + Leaving(Apply(s, a))
  {
  }

  lemma StepKeepsRunInv(c: Config, a: Action)
    requires RunInv(c) && Enabled(c.s, a) && MayPush(c.h, a)
    ensures Safe(c.s, a)
    ensures RunInv(Config(Apply(c.s, a), Record(c.s, c.h, a)))
    ensures Queued(Record(c.s, c.h, a)) == AbsStep(c.s, Queued(c.h), a)
  {
    MayPushIsCallerOk(c, a);
    StepKeepsInv(c.s, Queued(c.h), a);
    StepRefinesFifo(c.s, c.h, a);
    StepConserves(c.s, c.h, a);
  }

  lemma {:induction false} RunKeepsInv(r: Run, mem: map<Node, Option<Node>>, i: nat)
    requires Legal(r, mem) && i < |r.configs|
    ensures RunInv(r.configs[i])
  {
    if i > 0 {
      RunKeepsInv(r, mem, i - 1);
      assert StepAt(r, i - 1);
      StepKeepsRunInv(r.configs[i - 1], r.actions[i - 1]);
    } else {
      InitInv(mem);
    }
  }

  /* ---------- what holds over every run ---------- */

  // Nodes come out in push order, none lost, none duplicated: what pops returned is a prefix of
  // what was linked, and the rest of what was linked is what is still queued.
  lemma FifoOrder(r: Run, mem: map<Node, Option<Node>>, i: nat)
    requires Legal(r, mem) && i < |r.configs|
    ensures var h := r.configs[i].h; h.returned <= h.taken <= h.linked <= h.started
    ensures var h := r.configs[i].h; h.linked == h.taken + Queued(h)
  {
    RunKeepsInv(r, mem, i);
  }

  // Every action refines a step of the FIFO queue, and whatever action the control points allow
  // next can be taken: no pointer it reads is wild.
  lemma RefinesFifo(r: Run, mem: map<Node, Option<Node>>, i: nat, a: Action)
    requires Legal(r, mem) && i < |r.configs|
    requires Enabled(r.configs[i].s, a) && MayPush(r.configs[i].h, a)
    ensures Safe(r.configs[i].s, a)
    ensures var s, h := r.configs[i].s, r.configs[i].h;
      var q, q' := Queued(h), Queued(Record(s, h, a));
      match a
      case PushLink => q' == q + [s.prod.node]
      case PopReadHead => if s.head.None? then q == q' == [] else q == [s.head.value] + q'
      case _ => q' == q
  {
    RunKeepsInv(r, mem, i);
    var s, h := r.configs[i].s, r.configs[i].h;
    assert Safe(s, a) by { StepKeepsRunInv(r.configs[i], a); }
    assert a.PopReadHead? ==> s.head == First(Queued(h));
    assert Queued(Record(s, h, a)) == AbsStep(s, Queued(h), a) by { StepRefinesFifo(s, h, a); }
  }

  // A pop that starts now returns NULL exactly when no linked node is waiting. Otherwise the node
  // it takes, which is also what spsc_queue_peek returns, is the oldest one.
  lemma PopNullIffEmpty(r: Run, mem: map<Node, Option<Node>>, i: nat)
    requires Legal(r, mem) && i < |r.configs| && r.configs[i].s.cons.CIdle?
    ensures r.configs[i].s.head == First(Queued(r.configs[i].h))
    ensures PopsNull(r.configs[i].s, PopReadHead) <==> r.configs[i].h.linked == r.configs[i].h.returned
  {
    RunKeepsInv(r, mem, i);
    var c := r.configs[i];
    assert c.h.linked == c.h.taken + Queued(c.h);
  }

  // The node has been returned by as many pops as pushes have been given it.
  predicate Outside(h: History, n: Node) {
    multiset(h.started)[n] == multiset(h.returned)[n]
  }

  lemma OutsideNodeUntouched(s: State, queued: seq<Node>, n: Node, a: Action)
    requires Inv(s, queued) && n !in InFlight(s, queued)
    requires Enabled(s, a) && Safe(s, a) && a != PushClear(n)
    ensures s.tail != NextOf(n) && !(s.prod.PSwapped? && s.prod.slot == NextOf(n))
    ensures var s' := Apply(s, a);
      (n in s.next <==> n in s'.next) && (n in s.next ==> s'.next[n] == s.next[n])
  {
    var c := Chain(s, queued);
    assert n !in c;
    assert c != [] ==> c[|c| - 1] in c;
  }

  // A returned node is private to the caller again: the tail does not lead to it, no pending push
  // will write to it, and no action writes it until it is pushed again.
  lemma ReturnedNodeUntouched(r: Run, mem: map<Node, Option<Node>>, i: nat, n: Node)
    requires Legal(r, mem) && i < |r.actions|
    requires Outside(r.configs[i].h, n) && r.actions[i] != PushClear(n)
    ensures var s := r.configs[i].s;
      s.tail != NextOf(n) && !(s.prod.PSwapped? && s.prod.slot == NextOf(n))
    ensures var s, s' := r.configs[i].s, r.configs[i + 1].s;
      (n in s.next <==> n in s'.next) && (n in s.next ==> s'.next[n] == s.next[n])
  {
    RunKeepsInv(r, mem, i);
    var c := r.configs[i];
    assert StepAt(r, i);
    MayPushIsCallerOk(c, PushClear(n));
    OutsideNodeUntouched(c.s, Queued(c.h), n, r.actions[i]);
  }

  // While the wait loop still reads NULL, the producer stands exactly between its exchange and
  // the link write to the consumer's node, and that write ends the NULL. Once it is written, the
  // next pass of the loop leaves it with the new node at the head.
  lemma WaitLoopIsFreed(r: Run, mem: map<Node, Option<Node>>, i: nat)
    requires Legal(r, mem) && i < |r.configs| && r.configs[i].s.cons.CWait?
    ensures var s := r.configs[i].s; s.cons.node in s.next
    ensures var s := r.configs[i].s;
      s.next[s.cons.node] == None ==>
        && s.prod.PSwapped? && s.prod.slot == NextOf(s.cons.node)
        && Apply(s, PushLink).next[s.cons.node] == Some(s.prod.node)
    ensures var s := r.configs[i].s;
      s.next[s.cons.node] != None ==>
        var s'' := Apply(Apply(s, PopWaitRead), PopWaitWrite);
        s''.cons == CDone(s.cons.node) && s''.head == s.next[s.cons.node]
  {
    RunKeepsInv(r, mem, i);
    NextOfTaken(r.configs[i].s, Queued(r.configs[i].h));
  }

  // spsc_queue_count: off by one for a push or a pop under way, so never below -1, and exact when
  // both sides are idle.
  lemma JobCountLaw(r: Run, mem: map<Node, Option<Node>>, i: nat)
    requires Legal(r, mem) && i < |r.configs|
    ensures var s, h := r.configs[i].s, r.configs[i].h;
      && s.jobCount == |h.linked| - |h.taken|
           - (if s.prod.PLinked? then 1 else 0) + (if s.cons.CIdle? then 0 else 1)
      && s.jobCount >= -1
      && (s.prod.PIdle? && s.cons.CIdle? ==> s.jobCount == |h.started| - |h.returned|)
  {
    RunKeepsInv(r, mem, i);
  }

  // The consumer is outside pop and has nothing to take.
  predicate Starved(c: Config) {
    c.s.cons.CIdle? && Queued(c.h) == []
  }

  lemma StarvedUntilLink(c: Config, a: Action, c': Config)
    requires RunInv(c) && StepsTo(c, a, c')
    requires PopsNull(c.s, a) || (Starved(c) && a != PushLink)
    ensures Starved(c')
  {
    StepKeepsRunInv(c, a);
  }

  lemma {:induction false} EmptyUntilLink(r: Run, mem: map<Node, Option<Node>>, i: nat, j: nat)
    requires Legal(r, mem) && i < j <= |r.actions|
    requires PopsNull(r.configs[i].s, r.actions[i])
    requires forall k :: i < k < j ==> r.actions[k] != PushLink
    ensures Starved(r.configs[j])
  {
    var c, a, c' := r.configs[j - 1], r.actions[j - 1], r.configs[j];
    assert StepAt(r, j - 1);
    RunKeepsInv(r, mem, j - 1);
    if j > i + 1 {
      EmptyUntilLink(r, mem, i, j - 1);
      assert a != PushLink;
    }
    StarvedUntilLink(c, a, c');
  }

  /* ---------- what a push returns ---------- */

  // From its exchange to its count a push works on one node and remembers one slot, whatever pops do
  // meanwhile.
  predicate Pushing(s: State, node: Node, slot: Slot) {
    s.prod == PSwapped(node, slot) || s.prod == PLinked(node, slot)
  }

  lemma {:induction false} PushKeepsSlot(r: Run, mem: map<Node, Option<Node>>, i: nat, k: nat, node: Node, slot: Slot)
    requires Legal(r, mem) && i <= k < |r.configs| && Pushing(r.configs[i].s, node, slot)
    requires forall j :: i <= j < k ==> r.actions[j] != PushCount
    ensures Pushing(r.configs[k].s, node, slot)
    decreases k
  {
    if i < k {
      PushKeepsSlot(r, mem, i, k - 1, node, slot);
      assert StepAt(r, k - 1) && r.actions[k - 1] != PushCount;
    }
  }

  // Nothing is linked and untaken, and no pop still has its node in the chain.
  predicate RunDry(c: Config) {
    c.h.linked == c.h.taken && !Attached(c.s)
  }

  // A push that exchanges the tail at i and counts at k returns true exactly when the queue had run
  // dry at i, whatever pops do in between.
  lemma PushReturns(r: Run, mem: map<Node, Option<Node>>, i: nat, k: nat)
    requires Legal(r, mem) && i < k < |r.actions| && r.actions[i] == PushSwap && r.actions[k] == PushCount
    requires forall j :: i < j < k ==> r.actions[j] != PushCount
    ensures r.configs[i].s.prod.PCleared? && r.configs[k].s.prod.PLinked?
    ensures r.configs[k].s.prod.node == r.configs[i].s.prod.node
    ensures PushResult(r.configs[k].s) <==> RunDry(r.configs[i])
  {
    RunKeepsInv(r, mem, i);
    var c := r.configs[i];
    assert StepAt(r, i) && StepAt(r, k);
    assert c.h.linked == c.h.taken + Queued(c.h);
    PushKeepsSlot(r, mem, i + 1, k, c.s.prod.node, c.s.tail);
  }

  lemma StarvedSlot(c: Config)
    requires RunInv(c) && Starved(c) && c.s.prod.PSwapped?
    ensures c.s.prod.slot == HeadSlot
  {
  }

  // No wake-up is lost: the first node linked after a pop that returned NULL is linked by a push
  // that returns true, even if pops get ahead of its return.
  lemma FirstLinkAfterNullWakes(r: Run, mem: map<Node, Option<Node>>, i: nat, j: nat, k: nat)
    requires Legal(r, mem) && i < j < k < |r.actions|
    requires PopsNull(r.configs[i].s, r.actions[i])
    requires r.actions[j] == PushLink && forall n :: i < n < j ==> r.actions[n] != PushLink
    requires r.actions[k] == PushCount && forall n :: j < n < k ==> r.actions[n] != PushCount
    ensures r.configs[j].s.prod.PSwapped? && r.configs[k].s.prod.PLinked?
    ensures r.configs[k].s.prod.node == r.configs[j].s.prod.node
    ensures PushResult(r.configs[k].s)
  {
    EmptyUntilLink(r, mem, i, j);
    RunKeepsInv(r, mem, j);
    assert StepAt(r, j) && StepAt(r, k);
    StarvedSlot(r.configs[j]);
    PushKeepsSlot(r, mem, j, k, r.configs[j].s.prod.node, HeadSlot);
  }

  /* ---------- the queue in memory ---------- */

  /** The shared fields of struct spsc_queue, the next fields of its nodes, and the control points
      and locals of the two threads. Each method up to `CountDown` is one access to shared memory.
    */
  class JobQueue {
    var head: Option<Node>
    var tail: Slot
    var jobCount: int
    var next: map<Node, Option<Node>>
    var prod: Producer
    var cons: Consumer
    ghost var queued: seq<Node>

    function View(): State
      reads this
    {
      State(head, tail, jobCount, next, prod, cons)
    }

    ghost predicate Valid()
      reads this
    {
      Inv(View(), queued)
    }

    // One action was taken on the fields, and the ghost queue followed it.
    twostate predicate Did(a: Action)
      reads this
    {
      && Enabled(old(View()), a) && Safe(old(View()), a)
      && View() == Apply(old(View()), a)
      && queued == AbsStep(old(View()), old(queued), a)
    }

    constructor (mem: map<Node, Option<Node>>)
      ensures Valid() && View() == Init(mem) && queued == []
    {
      head, tail, jobCount, next := None, HeadSlot, 0, mem;
      prod, cons, queued := PIdle, CIdle, [];
    }

    method Clear(node: Node)
      requires Valid() && prod.PIdle? && node !in InFlight(View(), queued)
      modifies this
      ensures Valid() && Did(PushClear(node))
    {
      StepKeepsInv(View(), queued, PushClear(node));
      next := next[node := None];
      prod := PCleared(node);
    }

    method Swap()
      requires Valid() && prod.PCleared?
      modifies this
      ensures Valid() && Did(PushSwap)
    {
      StepKeepsInv(View(), queued, PushSwap);
      prod, tail := PSwapped(prod.node, tail), NextOf(prod.node);
    }

    method Link()
      requires Valid() && prod.PSwapped?
      modifies this
      ensures Valid() && Did(PushLink)
    {
      StepKeepsInv(View(), queued, PushLink);
      var node, slot := prod.node, prod.slot;
      if slot.HeadSlot? {
        head := Some(node);
      } else {
        next := next[slot.node := Some(node)];
      }
      prod := PLinked(node, slot);
      queued := queued + [node];
    }

    method CountUp() returns (first: bool)
      requires Valid() && prod.PLinked?
      modifies this
      ensures Valid() && Did(PushCount) && first == old(PushResult(View()))
    {
      StepKeepsInv(View(), queued, PushCount);
      first := prod.slot == HeadSlot;
      jobCount := jobCount + 1;
      prod := PIdle;
    }

    method ReadHead()
      requires Valid() && cons.CIdle?
      modifies this
      ensures Valid() && Did(PopReadHead)
    {
      StepKeepsInv(View(), queued, PopReadHead);
      if head.Some? {
        cons := CGot(head.value);
        queued := queued[1..];
      }
    }

    method ReadNext()
      requires Valid() && cons.CGot?
      modifies this
      ensures Valid() && Did(PopReadNext)
    {
      StepKeepsInv(View(), queued, PopReadNext);
      cons := CNext(cons.node, next[cons.node]);
    }

    method WriteHead()
      requires Valid() && cons.CNext?
      modifies this
      ensures Valid() && Did(PopWriteHead)
    {
      StepKeepsInv(View(), queued, PopWriteHead);
      head := cons.next;
      cons := if cons.next.None? then CCas(cons.node) else CDone(cons.node);
    }

    method CompareAndSwap()
      requires Valid() && cons.CCas?
      modifies this
      ensures Valid() && Did(PopCas)
    {
      StepKeepsInv(View(), queued, PopCas);
      if tail == NextOf(cons.node) {
        tail := HeadSlot;
        cons := CDone(cons.node);
      } else {
        cons := CWait(cons.node);
      }
    }

    method WaitRead()
      requires Valid() && cons.CWait?
      modifies this
      ensures Valid() && Did(PopWaitRead)
    {
      StepKeepsInv(View(), queued, PopWaitRead);
      cons := CWaitGot(cons.node, next[cons.node]);
    }

    method WaitWrite()
      requires Valid() && cons.CWaitGot?
      modifies this
      ensures Valid() && Did(PopWaitWrite)
    {
      StepKeepsInv(View(), queued, PopWaitWrite);
      head := cons.next;
      cons := if cons.next.None? then CWait(cons.node) else CDone(cons.node);
    }

    method CountDown() returns (node: Node)
      requires Valid() && cons.CDone?
      modifies this
      ensures Valid() && Did(PopCount) && node == old(cons.node)
    {
      StepKeepsInv(View(), queued, PopCount);
      node := cons.node;
      jobCount := jobCount - 1;
      cons := CIdle;
    }

    // A whole push, no pop interleaved: it reports whether the consumer had run dry.
    method Push(node: Node) returns (first: bool)
      requires Valid() && prod.PIdle? && cons.CIdle? && node !in queued
      modifies this
      ensures Valid() && prod.PIdle? && cons.CIdle?
      ensures queued == old(queued) + [node]
      ensures first <==> old(queued) == []
      ensures jobCount == |queued|
    {
      Clear(node);
      Swap();
      Link();
      first := CountUp();
    }

    // One pass of the wait loop; a producer caught before its link write runs after it.
    method Spin()
      requires Valid() && cons.CWait?
      modifies this
      ensures Valid() && (cons == CDone(old(cons.node)) || cons == CWait(old(cons.node)))
      ensures cons.CDone? ==> queued == old(queued) && prod == old(prod)
      ensures cons.CWait? ==>
        && old(prod).PSwapped? && prod == PLinked(old(prod).node, old(prod).slot)
        && queued == old(queued) + [old(prod).node]
    {
      WaitRead();
      WaitWrite();
      if cons.CWait? {
        NextOfTaken(View(), queued);
        Link();
      }
    }

    // The slow path of a pop. A producer caught between its exchange and its link gets to run when
    // the consumer has spun once, and that is enough to end the wait.
    method Detach()
      requires Valid() && cons.CCas?
      modifies this
      ensures Valid() && cons == CDone(old(cons.node))
      ensures || (prod == old(prod) && queued == old(queued))
              || (old(prod).PSwapped? && queued == old(queued) + [old(prod).node])
    {
      CompareAndSwap();
      while cons.CWait?
        invariant Valid() && (cons.CWait? || cons.CDone?) && cons.node == old(cons.node)
        invariant || (prod == old(prod) && queued == old(queued))
                  || (old(prod).PSwapped? && prod.PLinked? && queued == old(queued) + [old(prod).node])
        decreases if cons.CDone? then 0 else 1, if prod.PSwapped? then 1 else 0
      {
        Spin();
      }
    }

    // From the head read to the point where head is final.
    method Unlink()
      requires Valid() && cons.CGot?
      modifies this
      ensures Valid() && cons == CDone(old(cons.node))
      ensures || queued == old(queued)
              || (old(prod).PSwapped? && queued == old(queued) + [old(prod).node])
    {
      ReadNext();
      WriteHead();
      if cons.CCas? {
        Detach();
      }
    }

    // A whole pop, whatever the producer is doing.
    method Pop() returns (node: Option<Node>)
      requires Valid() && cons.CIdle?
      modifies this
      ensures Valid() && cons.CIdle?
      ensures node == First(old(queued))
      ensures node == None ==> View() == old(View()) && queued == []
      ensures node != None ==>
        || queued == old(queued)[1..]
        || (old(prod).PSwapped? && queued == old(queued)[1..] + [old(prod).node])
    {
      ReadHead();
      if cons.CIdle? {
        return None;
      }
      Unlink();
      var n := CountDown();
      return Some(n);
    }
  }
}
