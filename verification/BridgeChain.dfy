/** Attaching bridges to an encoder, and walking the chain (drivers/gpu/drm/drm_bridge.c).

    Bridges and encoders are named by numbers, so a pointer is an optional number. What an attach
    hook returns is part of the request; hooks do not attach bridges themselves.
  */
module BridgeChain {
  import opened Errno
  import opened Options

  const MODE_OK: int := 0

  datatype Hook = OnAttach | ModeFixup | ModeValid | Disable | PostDisable | ModeSet | PreEnable | Enable

  // funcs: the hooks that are not NULL.
  datatype Bridge = Bridge(funcs: set<Hook>, dev: Option<int>, encoder: Option<nat>, next: Option<nat>)

  // An encoder that has been initialised has a device.
  datatype Encoder = Encoder(dev: int, bridge: Option<nat>)

  datatype State = State(encoders: map<nat, Encoder>, bridges: map<nat, Bridge>)

  datatype Request = Request(encoder: Option<nat>, bridge: Option<nat>, previous: Option<nat>, ret: int)

  /* ---------- attaching ---------- */

  predicate Possible(s: State, r: Request) {
    && (r.encoder.Some? ==> r.encoder.value in s.encoders)
    && (r.bridge.Some? ==> r.bridge.value in s.bridges)
    && (r.previous.Some? ==> r.previous.value in s.bridges)
  }

  // The checks drm_bridge_attach makes, in their order.
  function Check(s: State, r: Request): int
    requires Possible(s, r)
  {
    if r.encoder.None? || r.bridge.None? then -EINVAL
    else if r.previous.Some?
      && (s.bridges[r.previous.value].dev.None? || s.bridges[r.previous.value].encoder != r.encoder) then -EINVAL
    else if s.bridges[r.bridge.value].dev.Some? then -EBUSY
    else if OnAttach in s.bridges[r.bridge.value].funcs && r.ret < 0 then r.ret
    else 0
  }

  // The bridge names its encoder, and hangs off the previous bridge or the encoder.
  function Linked(s: State, e: nat, b: nat, previous: Option<nat>): State
    requires e in s.encoders && b in s.bridges && (previous.Some? ==> previous.value in s.bridges)
  {
    var named := s.bridges[b := s.bridges[b].(dev := Some(s.encoders[e].dev), encoder := Some(e))];
    if previous.Some? then
      s.(bridges := named[previous.value := named[previous.value].(next := Some(b))])
    else
      s.(bridges := named, encoders := s.encoders[e := s.encoders[e].(bridge := Some(b))])
  }

  // A failing hook resets the bridge.
  function Attach(s: State, r: Request): State
    requires Possible(s, r)
  {
    if Check(s, r) == 0 then Linked(s, r.encoder.value, r.bridge.value, r.previous)
    else if Check(s, r.(ret := 0)) == 0 then
      s.(bridges := s.bridges[r.bridge.value := s.bridges[r.bridge.value].(dev := None, encoder := None)])
    else s
  }

  /* ---------- the invariant ---------- */

  // rank: how many bridges were attached before each attached one.
  predicate PointsAt(s: State, rank: map<nat, nat>, p: Option<nat>, e: nat) {
    p.Some? ==> p.value in rank && p.value in s.bridges && s.bridges[p.value].encoder == Some(e)
  }

  // An attached bridge names an encoder, and its successor names the same and was attached later.
  // A bridge that is not attached has no pointers.
  predicate BridgeOk(s: State, rank: map<nat, nat>, b: nat)
    requires b in s.bridges
  {
    var x := s.bridges[b];
    if b in rank then
      && x.dev.Some? && x.encoder.Some? && x.encoder.value in s.encoders && rank[b] < |rank|
      && x.dev == Some(s.encoders[x.encoder.value].dev)
      && PointsAt(s, rank, x.next, x.encoder.value)
      && (x.next.Some? ==> rank[b] < rank[x.next.value])
    else
      x.dev.None? && x.encoder.None? && x.next.None?
  }

  ghost predicate Inv(s: State, rank: map<nat, nat>) {
    && rank.Keys <= s.bridges.Keys
    && (forall b :: b in s.bridges ==> BridgeOk(s, rank, b))
    && (forall e :: e in s.encoders ==> PointsAt(s, rank, s.encoders[e].bridge, e))
  }

  function Ranked(rank: map<nat, nat>, s: State, r: Request): map<nat, nat>
    requires Possible(s, r)
  {
    if Check(s, r) == 0 then rank[r.bridge.value := |rank|] else rank
  }

  // A request that fails changes nothing.
  lemma FailureKeeps(s: State, rank: map<nat, nat>, r: Request)
    requires Inv(s, rank) && Possible(s, r) && Check(s, r) != 0
    ensures Attach(s, r) == s
  {
    if Check(s, r.(ret := 0)) == 0 {
      assert BridgeOk(s, rank, r.bridge.value);
    }
  }

  lemma BridgeAfter(s: State, rank: map<nat, nat>, r: Request, b: nat)
    requires Inv(s, rank) && Possible(s, r) && Check(s, r) == 0 && b in s.bridges
    ensures b in Attach(s, r).bridges && BridgeOk(Attach(s, r), Ranked(rank, s, r), b)
  {
    assert BridgeOk(s, rank, b);
    assert BridgeOk(s, rank, r.bridge.value);
    assert r.previous.Some? ==> BridgeOk(s, rank, r.previous.value);
    assert |Ranked(rank, s, r)| == |rank| + 1;
  }

  lemma AttachKeepsInv(s: State, rank: map<nat, nat>, r: Request)
    requires Inv(s, rank) && Possible(s, r)
    ensures Inv(Attach(s, r), Ranked(rank, s, r))
    ensures Check(s, r) != 0 ==> Attach(s, r) == s
  {
    if Check(s, r) == 0 {
      var s', rank' := Attach(s, r), Ranked(rank, s, r);
      forall b | b in s'.bridges
        ensures BridgeOk(s', rank', b)
      {
        BridgeAfter(s, rank, r, b);
      }
      assert BridgeOk(s, rank, r.bridge.value);
      forall e | e in s'.encoders
        ensures PointsAt(s', rank', s'.encoders[e].bridge, e)
      {
        assert PointsAt(s, rank, s.encoders[e].bridge, e);
      }
    } else {
      FailureKeeps(s, rank, r);
    }
  }

  // The request names an encoder and a bridge, and goes behind a bridge of that encoder, if behind one.
  predicate WellFormed(s: State, rank: map<nat, nat>, r: Request)
    requires Possible(s, r)
  {
    && r.encoder.Some? && r.bridge.Some?
    && (r.previous.Some? ==> r.previous.value in rank && s.bridges[r.previous.value].encoder == r.encoder)
  }

  // What a request returns: an error if it is malformed, another if the bridge is attached already, and
  // then what the attach hook says, if there is one and it fails. Else it succeeds.
  lemma AttachReturns(s: State, rank: map<nat, nat>, r: Request)
    requires Inv(s, rank) && Possible(s, r)
    ensures Check(s, r) ==
      if !WellFormed(s, rank, r) then -EINVAL
      else if r.bridge.value in rank then -EBUSY
      else if OnAttach in s.bridges[r.bridge.value].funcs && r.ret < 0 then r.ret
      else 0
  {
    if r.bridge.Some? {
      assert BridgeOk(s, rank, r.bridge.value);
    }
    if r.previous.Some? {
      assert BridgeOk(s, rank, r.previous.value);
    }
  }

  // What a successful request changes: the bridge names the encoder and its device and has no
  // successor; the previous bridge, or else the encoder, points at it. All else stays.
  lemma AttachDoes(s: State, rank: map<nat, nat>, r: Request)
    requires Inv(s, rank) && Possible(s, r) && Check(s, r) == 0
    ensures var s', e, b := Attach(s, r), r.encoder.value, r.bridge.value;
      && s'.bridges.Keys == s.bridges.Keys && s'.encoders.Keys == s.encoders.Keys
      && s'.bridges[b] == Bridge(s.bridges[b].funcs, Some(s.encoders[e].dev), Some(e), None)
      && (r.previous.Some? ==>
            && s'.bridges[r.previous.value].next == Some(b) && s'.encoders == s.encoders
            && s'.bridges[r.previous.value].(next := None) == s.bridges[r.previous.value].(next := None))
      && (r.previous.None? ==> s'.encoders == s.encoders[e := Encoder(s.encoders[e].dev, Some(b))])
      && (forall x :: x in s.bridges && x != b && r.previous != Some(x) ==> s'.bridges[x] == s.bridges[x])
  {
    assert BridgeOk(s, rank, r.bridge.value);
    if r.previous.Some? {
      assert BridgeOk(s, rank, r.previous.value);
    }
  }

  /* ---------- chains ---------- */

  predicate AtBridge(rank: map<nat, nat>, p: Option<nat>) {
    p.Some? ==> p.value in rank
  }

  // The bridges from p on.
  ghost function Chain(s: State, rank: map<nat, nat>, p: Option<nat>): (c: seq<nat>)
    requires Inv(s, rank) && AtBridge(rank, p)
    ensures p.None? <==> c == []
    ensures p.Some? ==> c[0] == p.value
    decreases if p.None? then 0 else |rank| - rank[p.value]
  {
    if p.None? then []
    else
      assert BridgeOk(s, rank, p.value);
      [p.value] + Chain(s, rank, s.bridges[p.value].next)
  }

  // Where k steps along next lead.
  function Follow(s: State, p: Option<nat>, k: nat): Option<nat>
    decreases k
  {
    if p.None? || k == 0 then p
    else if p.value !in s.bridges then None
    else Follow(s, s.bridges[p.value].next, k - 1)
  }

  // Walking next visits exactly the chain and then stops; all of it names one encoder and the
  // same device, and later bridges were attached later.
  lemma {:induction false} ChainIsPath(s: State, rank: map<nat, nat>, p: Option<nat>, k: nat)
    requires Inv(s, rank) && AtBridge(rank, p)
    ensures var c := Chain(s, rank, p);
      && Follow(s, p, k) == (if k < |c| then Some(c[k]) else None)
      && (k < |c| ==>
           && c[k] in rank && rank[c[k]] >= rank[c[0]] + k
           && s.bridges[c[k]].encoder == s.bridges[c[0]].encoder
           && s.bridges[c[k]].dev == s.bridges[c[0]].dev)
    decreases k
  {
    if p.Some? {
      assert BridgeOk(s, rank, p.value);
      var next := s.bridges[p.value].next;
      if k > 0 {
        ChainIsPath(s, rank, next, k - 1);
        if next.Some? {
          assert BridgeOk(s, rank, next.value);
        }
      }
    }
  }

  // No bridge is reachable from itself.
  lemma Acyclic(s: State, rank: map<nat, nat>, b: nat, k: nat)
    requires Inv(s, rank) && b in s.bridges && k > 0
    ensures Follow(s, Some(b), k) != Some(b)
  {
    assert BridgeOk(s, rank, b);
    if b in rank {
      ChainIsPath(s, rank, Some(b), k);
    } else {
      assert Follow(s, Some(b), k) == Follow(s, None, k - 1);
    }
  }

  /* ---------- what attaching does to the chains ---------- */

  lemma ChainUnfold(s: State, rank: map<nat, nat>, b: nat)
    requires Inv(s, rank) && b in rank
    ensures AtBridge(rank, s.bridges[b].next)
    ensures Chain(s, rank, Some(b)) == [b] + Chain(s, rank, s.bridges[b].next)
  {
    assert BridgeOk(s, rank, b);
  }

  // The next pointers after attaching.
  lemma NextAfter(s: State, rank: map<nat, nat>, r: Request, b: nat)
    requires Inv(s, rank) && Possible(s, r) && Check(s, r) == 0 && b in rank
    ensures r.bridge.value !in rank && Attach(s, r).bridges[r.bridge.value].next == None
    ensures Attach(s, r).bridges[b].next == (if r.previous == Some(b) then r.bridge else s.bridges[b].next)
  {
    assert BridgeOk(s, rank, b) && BridgeOk(s, rank, r.bridge.value);
  }

  // The k-th bridge of the sequence leads to the one after it, the last to none.
  predicate LeadsOn(s: State, c: seq<nat>, k: nat)
    requires k < |c|
  {
    c[k] in s.bridges && s.bridges[c[k]].next == if k + 1 < |c| then Some(c[k + 1]) else None
  }

  lemma {:induction false} ChainLeadsOn(s: State, rank: map<nat, nat>, p: Option<nat>, k: nat)
    requires Inv(s, rank) && AtBridge(rank, p)
    ensures var c := Chain(s, rank, p); k < |c| ==> c[k] in rank && LeadsOn(s, c, k)
    decreases k
  {
    ChainIsPath(s, rank, p, k);
    var c := Chain(s, rank, p);
    if k < |c| {
      ChainUnfold(s, rank, p.value);
      if k > 0 {
        ChainLeadsOn(s, rank, s.bridges[p.value].next, k - 1);
      }
    }
  }

  lemma {:induction false} ChainDistinct(s: State, rank: map<nat, nat>, p: Option<nat>, j: nat, k: nat)
    requires Inv(s, rank) && AtBridge(rank, p) && j < k < |Chain(s, rank, p)|
    ensures Chain(s, rank, p)[j] != Chain(s, rank, p)[k]
    decreases j
  {
    ChainUnfold(s, rank, p.value);
    var next := s.bridges[p.value].next;
    if j > 0 {
      ChainDistinct(s, rank, next, j - 1, k - 1);
    } else {
      assert BridgeOk(s, rank, p.value);
      ChainIsPath(s, rank, next, k - 1);
    }
  }

  // The chain is the only sequence that leads on to its end.
  lemma {:induction false} OnlyChain(s: State, rank: map<nat, nat>, p: Option<nat>, c: seq<nat>)
    requires Inv(s, rank) && AtBridge(rank, p) && p == if c == [] then None else Some(c[0])
    requires forall k :: 0 <= k < |c| ==> LeadsOn(s, c, k)
    ensures Chain(s, rank, p) == c
    decreases |c|
  {
    if c != [] {
      ChainUnfold(s, rank, c[0]);
      assert LeadsOn(s, c, 0);
      forall k | 0 <= k < |c[1..]|
        ensures LeadsOn(s, c[1..], k)
      {
        assert LeadsOn(s, c, k + 1);
      }
      OnlyChain(s, rank, s.bridges[c[0]].next, c[1..]);
    }
  }

  // Attaching leaves the chains alone that do not lead to the previous bridge.
  lemma ChainKept(s: State, rank: map<nat, nat>, r: Request, p: Option<nat>)
    requires Inv(s, rank) && Possible(s, r) && Check(s, r) == 0 && AtBridge(rank, p)
    requires r.previous.None? || r.previous.value !in Chain(s, rank, p)
    ensures Inv(Attach(s, r), Ranked(rank, s, r)) && AtBridge(Ranked(rank, s, r), p)
    ensures Chain(Attach(s, r), Ranked(rank, s, r), p) == Chain(s, rank, p)
  {
    AttachKeepsInv(s, rank, r);
    var c := Chain(s, rank, p);
    forall k | 0 <= k < |c|
      ensures LeadsOn(Attach(s, r), c, k)
    {
      ChainLeadsOn(s, rank, p, k);
      NextAfter(s, rank, r, c[k]);
    }
    OnlyChain(Attach(s, r), Ranked(rank, s, r), p, c);
  }

  // The chains that lead to the previous bridge are cut behind it.
  lemma ChainCut(s: State, rank: map<nat, nat>, r: Request, p: Option<nat>, i: nat)
    requires Inv(s, rank) && Possible(s, r) && Check(s, r) == 0 && AtBridge(rank, p)
    requires i < |Chain(s, rank, p)| && r.previous == Some(Chain(s, rank, p)[i])
    ensures Inv(Attach(s, r), Ranked(rank, s, r)) && AtBridge(Ranked(rank, s, r), p)
    ensures Chain(Attach(s, r), Ranked(rank, s, r), p) == Chain(s, rank, p)[..i + 1] + [r.bridge.value]
  {
    AttachKeepsInv(s, rank, r);
    var c := Chain(s, rank, p);
    var c' := c[..i + 1] + [r.bridge.value];
    forall k | 0 <= k < |c'|
      ensures LeadsOn(Attach(s, r), c', k)
    {
      ChainLeadsOn(s, rank, p, if k <= i then k else i);
      NextAfter(s, rank, r, c[if k <= i then k else i]);
      if k < i {
        ChainDistinct(s, rank, p, k, i);
      }
    }
    OnlyChain(Attach(s, r), Ranked(rank, s, r), p, c');
  }

  // All of an encoder's chain names the encoder and has its device.
  lemma ChainNamesEncoder(s: State, rank: map<nat, nat>, e: nat, k: nat)
    requires Inv(s, rank) && e in s.encoders
    ensures AtBridge(rank, s.encoders[e].bridge)
    ensures var c := Chain(s, rank, s.encoders[e].bridge);
      k < |c| ==> c[k] in s.bridges && s.bridges[c[k]].encoder == Some(e)
                  && s.bridges[c[k]].dev == Some(s.encoders[e].dev)
  {
    assert PointsAt(s, rank, s.encoders[e].bridge, e);
    ChainIsPath(s, rank, s.encoders[e].bridge, k);
    if s.encoders[e].bridge.Some? {
      assert BridgeOk(s, rank, s.encoders[e].bridge.value);
    }
  }

  ghost function EncoderChain(s: State, rank: map<nat, nat>, e: nat): seq<nat>
    requires Inv(s, rank) && e in s.encoders
  {
    assert PointsAt(s, rank, s.encoders[e].bridge, e);
    Chain(s, rank, s.encoders[e].bridge)
  }

  // What a request does to the chain of every encoder. Nothing, if it fails or names another
  // encoder. Without a previous bridge the new one becomes the whole chain. Otherwise it ends the
  // chain right behind the previous one, so it is appended if that was the last.
  lemma AttachChains(s: State, rank: map<nat, nat>, r: Request, e: nat, i: nat)
    requires Inv(s, rank) && Possible(s, r) && e in s.encoders
    ensures Inv(Attach(s, r), Ranked(rank, s, r))
    ensures var c, c' := EncoderChain(s, rank, e), EncoderChain(Attach(s, r), Ranked(rank, s, r), e);
      if Check(s, r) != 0 || r.encoder != Some(e) then c' == c
      else if r.previous.None? then c' == [r.bridge.value]
      else
        && (r.previous.value !in c ==> c' == c)
        && (i < |c| && r.previous.value == c[i] ==> c' == c[..i + 1] + [r.bridge.value])
  {
    AttachKeepsInv(s, rank, r);
    if Check(s, r) == 0 {
      var s', rank' := Attach(s, r), Ranked(rank, s, r);
      var p := s.encoders[e].bridge;
      assert PointsAt(s, rank, p, e);
      if r.previous.None? && r.encoder == Some(e) {
        assert BridgeOk(s, rank, r.bridge.value);
        ChainUnfold(s', rank', r.bridge.value);
      } else {
        var c := Chain(s, rank, p);
        if r.encoder != Some(e) && r.previous.Some? {
          forall k | 0 <= k < |c|
            ensures c[k] != r.previous.value
          {
            ChainNamesEncoder(s, rank, e, k);
          }
        }
        if r.previous.None? || r.previous.value !in c {
          ChainKept(s, rank, r, p);
        } else if i < |c| && r.previous.value == c[i] {
          ChainCut(s, rank, r, p, i);
        }
      }
    }
  }

  /* ---------- when attached bridges are reached ---------- */

  // The chain of its encoder leads to the attached bridge.
  ghost predicate Reached(s: State, rank: map<nat, nat>, b: nat)
    requires Inv(s, rank) && b in rank
  {
    assert BridgeOk(s, rank, b);
    b in EncoderChain(s, rank, s.bridges[b].encoder.value)
  }

  ghost predicate AllReached(s: State, rank: map<nat, nat>)
    requires Inv(s, rank)
  {
    forall b :: b in rank ==> Reached(s, rank, b)
  }

  // The request goes to the end of a chain: nothing hangs there yet.
  predicate AtEnd(s: State, r: Request)
    requires Possible(s, r) && Check(s, r) == 0
  {
    if r.previous.Some? then s.bridges[r.previous.value].next.None?
    else s.encoders[r.encoder.value].bridge.None?
  }

  // Attaching changes which encoder a bridge names for the new bridge only.
  lemma EncoderAfter(s: State, rank: map<nat, nat>, r: Request, b: nat)
    requires Inv(s, rank) && Possible(s, r) && Check(s, r) == 0 && b in rank
    ensures r.bridge.value !in rank && Attach(s, r).bridges[r.bridge.value].encoder == r.encoder
    ensures Attach(s, r).bridges[b].encoder == s.bridges[b].encoder
    ensures s.bridges[b].encoder.Some? && s.bridges[b].encoder.value in s.encoders
  {
    assert BridgeOk(s, rank, b) && BridgeOk(s, rank, r.bridge.value);
  }

  // The previous bridge of a request, if it is reached, has a place in the chain.
  lemma PlaceOfPrevious(s: State, rank: map<nat, nat>, r: Request) returns (i: nat)
    requires Inv(s, rank) && Possible(s, r) && Check(s, r) == 0 && r.previous.Some? && AllReached(s, rank)
    ensures r.encoder.value in s.encoders
    ensures var c := EncoderChain(s, rank, r.encoder.value);
      && i < |c| && c[i] == r.previous.value && c[i] in rank
      && s.bridges[c[i]].next == if i + 1 < |c| then Some(c[i + 1]) else None
  {
    var p, e := r.previous.value, r.encoder.value;
    assert BridgeOk(s, rank, p);
    assert Reached(s, rank, p);
    var c := EncoderChain(s, rank, e);
    i :| 0 <= i < |c| && c[i] == p;
    assert PointsAt(s, rank, s.encoders[e].bridge, e);
    ChainLeadsOn(s, rank, s.encoders[e].bridge, i);
  }

  // At the end of a chain, no bridge is lost.
  lemma EndKeepsReached(s: State, rank: map<nat, nat>, r: Request, b: nat)
    requires Inv(s, rank) && Possible(s, r) && Check(s, r) == 0 && AllReached(s, rank) && AtEnd(s, r)
    requires b in Ranked(rank, s, r)
    ensures Inv(Attach(s, r), Ranked(rank, s, r)) && Reached(Attach(s, r), Ranked(rank, s, r), b)
  {
    AttachKeepsInv(s, rank, r);
    var e, added := r.encoder.value, r.bridge.value;
    var i := 0;
    if r.previous.Some? {
      i := PlaceOfPrevious(s, rank, r);
    }
    AttachChains(s, rank, r, e, i);
    if b == added {
      assert BridgeOk(Attach(s, r), Ranked(rank, s, r), b);
    } else {
      EncoderAfter(s, rank, r, b);
      assert Reached(s, rank, b);
      AttachChains(s, rank, r, s.bridges[b].encoder.value, i);
    }
  }

  // A new first bridge loses the one that was there.
  lemma FirstLoses(s: State, rank: map<nat, nat>, r: Request, b: nat)
    requires Inv(s, rank) && Possible(s, r) && Check(s, r) == 0 && r.previous.None?
    requires s.encoders[r.encoder.value].bridge == Some(b)
    ensures b in rank && Inv(Attach(s, r), Ranked(rank, s, r)) && !Reached(Attach(s, r), Ranked(rank, s, r), b)
  {
    assert PointsAt(s, rank, s.encoders[r.encoder.value].bridge, r.encoder.value);
    AttachChains(s, rank, r, r.encoder.value, 0);
    EncoderAfter(s, rank, r, b);
  }

  // The bridges of a chain behind the i-th are not among those up to it.
  lemma BehindIsElsewhere(s: State, rank: map<nat, nat>, e: nat, i: nat)
    requires Inv(s, rank) && e in s.encoders && i + 1 < |EncoderChain(s, rank, e)|
    ensures var c := EncoderChain(s, rank, e); c[i + 1] !in c[..i + 1]
  {
    assert PointsAt(s, rank, s.encoders[e].bridge, e);
    forall j | 0 <= j <= i
      ensures EncoderChain(s, rank, e)[j] != EncoderChain(s, rank, e)[i + 1]
    {
      ChainDistinct(s, rank, s.encoders[e].bridge, j, i + 1);
    }
  }

  // A new successor loses the one that was there.
  lemma SuccessorLoses(s: State, rank: map<nat, nat>, r: Request, b: nat)
    requires Inv(s, rank) && Possible(s, r) && Check(s, r) == 0 && AllReached(s, rank) && r.previous.Some?
    requires s.bridges[r.previous.value].next == Some(b)
    ensures b in rank && Inv(Attach(s, r), Ranked(rank, s, r)) && !Reached(Attach(s, r), Ranked(rank, s, r), b)
  {
    var i := PlaceOfPrevious(s, rank, r);
    assert BridgeOk(s, rank, r.previous.value);
    BehindIsElsewhere(s, rank, r.encoder.value, i);
    AttachChains(s, rank, r, r.encoder.value, i);
    EncoderAfter(s, rank, r, b);
  }

  // A bridge that is lost stays lost.
  lemma LostStaysLost(s: State, rank: map<nat, nat>, r: Request, b: nat)
    requires Inv(s, rank) && Possible(s, r) && b in rank && !Reached(s, rank, b)
    ensures Inv(Attach(s, r), Ranked(rank, s, r)) && b in Ranked(rank, s, r)
    ensures !Reached(Attach(s, r), Ranked(rank, s, r), b)
  {
    AttachKeepsInv(s, rank, r);
    if Check(s, r) == 0 {
      EncoderAfter(s, rank, r, b);
      var e := s.bridges[b].encoder.value;
      var c := EncoderChain(s, rank, e);
      AttachChains(s, rank, r, e, 0);
      if r.previous.Some? && r.previous.value in c {
        var i :| 0 <= i < |c| && c[i] == r.previous.value;
        AttachChains(s, rank, r, e, i);
      }
    }
  }

  // If all attached bridges are reached, they still are after a successful request exactly when it
  // goes to the end of a chain.
  lemma AttachReachesIff(s: State, rank: map<nat, nat>, r: Request)
    requires Inv(s, rank) && Possible(s, r) && AllReached(s, rank) && Check(s, r) == 0
    ensures Inv(Attach(s, r), Ranked(rank, s, r))
    ensures AllReached(Attach(s, r), Ranked(rank, s, r)) <==> AtEnd(s, r)
  {
    AttachKeepsInv(s, rank, r);
    if AtEnd(s, r) {
      forall b | b in Ranked(rank, s, r)
        ensures Reached(Attach(s, r), Ranked(rank, s, r), b)
      {
        EndKeepsReached(s, rank, r, b);
      }
    } else if r.previous.None? {
      FirstLoses(s, rank, r, s.encoders[r.encoder.value].bridge.value);
    } else {
      SuccessorLoses(s, rank, r, s.bridges[r.previous.value].next.value);
    }
  }

  // After any request all are reached exactly when all were and it fails or goes to an end.
  lemma StepReachesIff(s: State, rank: map<nat, nat>, r: Request)
    requires Inv(s, rank) && Possible(s, r)
    ensures Inv(Attach(s, r), Ranked(rank, s, r))
    ensures AllReached(Attach(s, r), Ranked(rank, s, r)) <==>
      AllReached(s, rank) && (Check(s, r) == 0 ==> AtEnd(s, r))
  {
    AttachKeepsInv(s, rank, r);
    if !AllReached(s, rank) {
      var b :| b in rank && !Reached(s, rank, b);
      LostStaysLost(s, rank, r, b);
    } else if Check(s, r) == 0 {
      AttachReachesIff(s, rank, r);
    }
  }

  /* ---------- runs ---------- */

  datatype Run = Run(requests: seq<Request>, states: seq<State>)

  predicate StepAt(r: Run, i: nat)
    requires i < |r.requests| && i + 1 < |r.states|
  {
    Possible(r.states[i], r.requests[i]) && r.states[i + 1] == Attach(r.states[i], r.requests[i])
  }

  // Initialised encoders without bridges, and bridges that were never attached.
  predicate Initial(s: State) {
    && (forall e | e in s.encoders :: s.encoders[e].bridge == None)
    && (forall b | b in s.bridges :: s.bridges[b] == Bridge(s.bridges[b].funcs, None, None, None))
  }

  ghost predicate Legal(r: Run) {
    && |r.states| == |r.requests| + 1 && Initial(r.states[0])
    && forall i :: 0 <= i < |r.requests| ==> StepAt(r, i)
  }

  ghost function RankAt(r: Run, i: nat): map<nat, nat>
    requires Legal(r) && i < |r.states|
  {
    if i == 0 then map[]
    else
      assert StepAt(r, i - 1);
      Ranked(RankAt(r, i - 1), r.states[i - 1], r.requests[i - 1])
  }

  lemma {:induction false} RunKeepsInv(r: Run, i: nat)
    requires Legal(r) && i < |r.states|
    ensures Inv(r.states[i], RankAt(r, i))
  {
    if i > 0 {
      RunKeepsInv(r, i - 1);
      assert StepAt(r, i - 1);
      AttachKeepsInv(r.states[i - 1], RankAt(r, i - 1), r.requests[i - 1]);
    } else {
      assert forall b :: b in r.states[0].bridges ==> BridgeOk(r.states[0], map[], b);
    }
  }

  // In every reachable state next pointers form no cycle.
  lemma RunAcyclic(r: Run, i: nat, b: nat, k: nat)
    requires Legal(r) && i < |r.states| && b in r.states[i].bridges && k > 0
    ensures Follow(r.states[i], Some(b), k) != Some(b)
  {
    RunKeepsInv(r, i);
    Acyclic(r.states[i], RankAt(r, i), b, k);
  }

  // Every bridge reachable from an encoder names it, and all walks end within as many steps as
  // there are bridges.
  lemma RunNamesEncoder(r: Run, i: nat, e: nat, k: nat)
    requires Legal(r) && i < |r.states| && e in r.states[i].encoders
    ensures var s := r.states[i];
      var b := Follow(s, s.encoders[e].bridge, k);
      && (b.Some? ==> b.value in s.bridges && s.bridges[b.value].encoder == Some(e))
      && (k >= |s.bridges| ==> b.None?)
  {
    RunKeepsInv(r, i);
    var s, rank := r.states[i], RankAt(r, i);
    ChainNamesEncoder(s, rank, e, k);
    ChainIsPath(s, rank, s.encoders[e].bridge, k);
    var c := EncoderChain(s, rank, e);
    if k < |c| {
      assert BridgeOk(s, rank, c[k]);
      KeysSmaller(rank, s.bridges);
    }
  }

  // Request i fails or goes to the end of a chain.
  predicate FitsAt(r: Run, i: nat)
    requires i < |r.requests| && i < |r.states| && Possible(r.states[i], r.requests[i])
  {
    Check(r.states[i], r.requests[i]) == 0 ==> AtEnd(r.states[i], r.requests[i])
  }

  ghost predicate AllFit(r: Run, i: nat)
    requires Legal(r) && i < |r.states|
  {
    forall j :: 0 <= j < i ==> StepAt(r, j) && FitsAt(r, j)
  }

  lemma AllFitNext(r: Run, i: nat)
    requires Legal(r) && i < |r.requests|
    ensures StepAt(r, i) && (AllFit(r, i + 1) <==> AllFit(r, i) && FitsAt(r, i))
  {
    assert StepAt(r, i);
  }

  lemma RunStep(r: Run, i: nat) returns (s: State, rank: map<nat, nat>, q: Request)
    requires Legal(r) && i < |r.requests|
    ensures s == r.states[i] && rank == RankAt(r, i) && q == r.requests[i] && Possible(s, q)
    ensures r.states[i + 1] == Attach(s, q) && RankAt(r, i + 1) == Ranked(rank, s, q)
    ensures FitsAt(r, i) <==> (Check(s, q) == 0 ==> AtEnd(s, q))
  {
    assert StepAt(r, i);
    s, rank, q := r.states[i], RankAt(r, i), r.requests[i];
  }

  // The invariant holds, and all attached bridges are reached.
  ghost predicate Intact(s: State, rank: map<nat, nat>) {
    Inv(s, rank) && AllReached(s, rank)
  }

  lemma StepIntactIff(s: State, rank: map<nat, nat>, q: Request, s': State, rank': map<nat, nat>)
    requires Inv(s, rank) && Possible(s, q) && s' == Attach(s, q) && rank' == Ranked(rank, s, q)
    ensures Inv(s', rank') && (Intact(s', rank') <==> Intact(s, rank) && (Check(s, q) == 0 ==> AtEnd(s, q)))
  {
    StepReachesIff(s, rank, q);
  }

  lemma {:induction false} RunReachesIff(r: Run, i: nat)
    requires Legal(r) && i < |r.states|
    ensures Inv(r.states[i], RankAt(r, i)) && (Intact(r.states[i], RankAt(r, i)) <==> AllFit(r, i))
  {
    if i > 0 {
      RunReachesIff(r, i - 1);
      var s, rank, q := RunStep(r, i - 1);
      AllFitNext(r, i - 1);
      StepIntactIff(s, rank, q, r.states[i], RankAt(r, i));
    } else {
      RunKeepsInv(r, 0);
    }
  }

  // Following next pointers from the encoder leads to the bridge.
  ghost predicate Leads(s: State, e: nat, b: nat)
    requires e in s.encoders
  {
    exists k: nat :: Follow(s, s.encoders[e].bridge, k) == Some(b)
  }

  lemma ReachedIsLed(s: State, rank: map<nat, nat>, b: nat)
    requires Inv(s, rank) && b in rank
    ensures s.bridges[b].encoder.Some? && s.bridges[b].encoder.value in s.encoders
    ensures Reached(s, rank, b) <==> Leads(s, s.bridges[b].encoder.value, b)
  {
    assert BridgeOk(s, rank, b);
    var e := s.bridges[b].encoder.value;
    assert PointsAt(s, rank, s.encoders[e].bridge, e);
    var c := EncoderChain(s, rank, e);
    forall k: nat
      ensures Follow(s, s.encoders[e].bridge, k) == (if k < |c| then Some(c[k]) else None)
    {
      ChainIsPath(s, rank, s.encoders[e].bridge, k);
    }
  }

  // A bridge that has a device is led to from the encoder it names.
  ghost predicate LedTo(s: State, b: nat)
    requires b in s.bridges
  {
    s.bridges[b].dev.Some? ==>
      && s.bridges[b].encoder.Some? && s.bridges[b].encoder.value in s.encoders
      && Leads(s, s.bridges[b].encoder.value, b)
  }

  // After a run every attached bridge is reached from its encoder exactly when every request that
  // succeeded went to the end of a chain.
  lemma RunLeadsIff(r: Run, i: nat)
    requires Legal(r) && i < |r.states|
    ensures (forall b :: b in r.states[i].bridges ==> LedTo(r.states[i], b)) <==> AllFit(r, i)
  {
    RunReachesIff(r, i);
    var s, rank := r.states[i], RankAt(r, i);
    forall b | b in s.bridges
      ensures b in rank ==> (LedTo(s, b) <==> Reached(s, rank, b))
      ensures b !in rank ==> LedTo(s, b)
    {
      assert BridgeOk(s, rank, b);
      if b in rank {
        ReachedIsLed(s, rank, b);
      }
    }
  }

  function Last(r: Run): State
    requires r.states != []
  {
    r.states[|r.states| - 1]
  }

  lemma Extend(r: Run, q: Request) returns (r': Run)
    requires Legal(r) && Possible(Last(r), q)
    ensures Legal(r') && Last(r') == Attach(Last(r), q)
  {
    r' := Run(r.requests + [q], r.states + [Attach(Last(r), q)]);
    forall i | 0 <= i < |r'.requests|
      ensures StepAt(r', i)
    {
      assert i < |r.requests| ==> StepAt(r, i);
    }
  }

  // Two bridges are attached behind the same one: the first of them stays attached, but its encoder
  // does not lead to it any more.
  lemma SuccessorIsDropped() returns (r: Run)
    ensures Legal(r) && 0 in Last(r).encoders && 2 in Last(r).bridges
    ensures Last(r).bridges[2].dev.Some? && Last(r).bridges[2].encoder == Some(0)
    ensures !LedTo(Last(r), 2)
  {
    var b := Bridge({}, None, None, None);
    r := Run([], [State(map[0 := Encoder(7, None)], map[1 := b, 2 := b, 3 := b])]);
    r := Extend(r, Request(Some(0), Some(1), None, 0));
    r := Extend(r, Request(Some(0), Some(2), Some(1), 0));
    r := Extend(r, Request(Some(0), Some(3), Some(1), 0));
    var s := Last(r);
    assert s.bridges[1].next == Some(3) && s.bridges[3].next == None;
    forall k: nat
      ensures Follow(s, Some(1), k) != Some(2)
    {
      assert k > 0 ==> Follow(s, Some(1), k) == Follow(s, Some(3), k - 1);
      assert k > 1 ==> Follow(s, Some(3), k - 1) == Follow(s, None, k - 2);
    }
  }

  // Two bridges are attached to the encoder itself: the same happens to the first, though no bridge
  // has a successor.
  lemma FirstIsDropped() returns (r: Run)
    ensures Legal(r) && 0 in Last(r).encoders && 1 in Last(r).bridges
    ensures forall b :: b in Last(r).bridges ==> Last(r).bridges[b].next.None?
    ensures !LedTo(Last(r), 1)
  {
    var b := Bridge({}, None, None, None);
    r := Run([], [State(map[0 := Encoder(7, None)], map[1 := b, 2 := b])]);
    r := Extend(r, Request(Some(0), Some(1), None, 0));
    r := Extend(r, Request(Some(0), Some(2), None, 0));
    var s := Last(r);
    forall k: nat
      ensures Follow(s, Some(2), k) != Some(1)
    {
      assert k > 0 ==> Follow(s, Some(2), k) == Follow(s, None, k - 1);
    }
  }

  lemma KeysSmaller<V, W>(a: map<nat, V>, b: map<nat, W>)
    requires a.Keys <= b.Keys
    ensures |a| <= |b|
  {
    assert |a.Keys| + |b.Keys - a.Keys| == |b.Keys| by {
      assert a.Keys + (b.Keys - a.Keys) == b.Keys;
    }
  }

  /* ---------- in place ---------- */

  // The bridges of the chain that have the hook.
  function Hooked(bridges: map<nat, Bridge>, chain: seq<nat>, hook: Hook): seq<nat> {
    if chain == [] then []
    else
      (if chain[0] in bridges && hook in bridges[chain[0]].funcs then [chain[0]] else [])
      + Hooked(bridges, chain[1..], hook)
  }

  // A bridge is called exactly if it is in the chain and has the hook.
  lemma {:induction false} HookedIff(bridges: map<nat, Bridge>, chain: seq<nat>, hook: Hook, b: nat)
    ensures b in Hooked(bridges, chain, hook) <==> b in chain && b in bridges && hook in bridges[b].funcs
    decreases |chain|
  {
    if chain != [] {
      HookedIff(bridges, chain[1..], hook, b);
      assert chain == [chain[0]] + chain[1..];
    }
  }

  lemma {:induction false} HookedConcat(bridges: map<nat, Bridge>, a: seq<nat>, c: seq<nat>, hook: Hook)
    ensures Hooked(bridges, a + c, hook) == Hooked(bridges, a, hook) + Hooked(bridges, c, hook)
    decreases |a|
  {
    if a == [] {
      assert a + c == c;
    } else {
      HookedConcat(bridges, a[1..], c, hook);
      assert (a + c)[1..] == a[1..] + c;
    }
  }

  // The call of one bridge.
  function CallOf(bridges: map<nat, Bridge>, b: nat, hook: Hook): seq<nat> {
    if b in bridges && hook in bridges[b].funcs then [b] else []
  }

  lemma HookedOne(bridges: map<nat, Bridge>, b: nat, hook: Hook)
    ensures Hooked(bridges, [b], hook) == CallOf(bridges, b, hook)
  {
    assert [b][1..] == [];
  }

  // Calls are in chain order, one for each bridge that has the hook: those of a part of the chain come
  // before those of what follows it.
  lemma HookedInOrder(bridges: map<nat, Bridge>, a: seq<nat>, b: nat, c: seq<nat>, hook: Hook)
    ensures Hooked(bridges, a + [b] + c, hook) ==
      Hooked(bridges, a, hook) + CallOf(bridges, b, hook) + Hooked(bridges, c, hook)
  {
    var ab := a + [b];
    assert Hooked(bridges, ab + c, hook) == Hooked(bridges, ab, hook) + Hooked(bridges, c, hook) by {
      HookedConcat(bridges, ab, c, hook);
    }
    assert Hooked(bridges, ab, hook) == Hooked(bridges, a, hook) + CallOf(bridges, b, hook) by {
      HookedConcat(bridges, a, [b], hook);
      HookedOne(bridges, b, hook);
    }
  }

  predicate IsReverse(a: seq<nat>, b: seq<nat>) {
    |a| == |b| && forall i :: 0 <= i < |a| ==> a[i] == b[|b| - 1 - i]
  }

  // The adjusted mode after the given calls of mode_fixup.
  function Adjusted<M>(fixup: (nat, M, M) -> (bool, M), mode: M, adjusted: M, calls: seq<nat>): M {
    if calls == [] then adjusted
    else Adjusted(fixup, mode, fixup(calls[0], mode, adjusted).1, calls[1..])
  }

  // The k-th bridge accepts the mode as the earlier ones adjusted it.
  predicate Accepts<M>(fixup: (nat, M, M) -> (bool, M), mode: M, adjusted: M, chain: seq<nat>, k: nat)
    requires k < |chain|
  {
    fixup(chain[k], mode, Adjusted(fixup, mode, adjusted, chain[..k])).0
  }

  // What fixing up a mode along the bridges with a mode_fixup hook comes to: they are called in
  // order, each on the mode the earlier ones left, up to the first that refuses, and the answer is
  // whether all accept.
  ghost predicate FixesUp<M>(fixup: (nat, M, M) -> (bool, M), mode: M, adjusted: M, hooked: seq<nat>,
    ret: bool, calls: seq<nat>, adjusted': M)
  {
    && calls <= hooked && adjusted' == Adjusted(fixup, mode, adjusted, calls)
    && (ret <==> forall k :: 0 <= k < |hooked| ==> Accepts(fixup, mode, adjusted, hooked, k))
    && (ret ==> calls == hooked)
    && (!ret ==> 0 < |calls| && !Accepts(fixup, mode, adjusted, hooked, |calls| - 1))
    && forall k :: 0 <= k < |calls| - 1 ==> Accepts(fixup, mode, adjusted, hooked, k)
  }

  // The first bridge refuses.
  lemma RefusalStops<M>(fixup: (nat, M, M) -> (bool, M), mode: M, adjusted: M, b: nat, hooked: seq<nat>)
    requires !fixup(b, mode, adjusted).0
    ensures FixesUp(fixup, mode, adjusted, [b] + hooked, false, [b], fixup(b, mode, adjusted).1)
  {
    assert ([b] + hooked)[..0] == [];
    assert !Accepts(fixup, mode, adjusted, [b] + hooked, 0);
  }

  // The first bridge accepts.
  lemma AcceptanceGoesOn<M>(fixup: (nat, M, M) -> (bool, M), mode: M, adjusted: M, b: nat, hooked: seq<nat>,
    ret: bool, calls: seq<nat>, adjusted': M)
    requires fixup(b, mode, adjusted).0
    requires FixesUp(fixup, mode, fixup(b, mode, adjusted).1, hooked, ret, calls, adjusted')
    ensures FixesUp(fixup, mode, adjusted, [b] + hooked, ret, [b] + calls, adjusted')
  {
    var all, after := [b] + hooked, fixup(b, mode, adjusted).1;
    assert all[..0] == [] && Accepts(fixup, mode, adjusted, all, 0);
    forall k | 0 <= k < |all|
      ensures Accepts(fixup, mode, adjusted, all, k) <==> k == 0 || Accepts(fixup, mode, after, hooked, k - 1)
    {
      if k > 0 {
        assert all[..k] == [b] + hooked[..k - 1];
      }
    }
    if ret {
      assert forall k :: 0 <= k < |all| ==> Accepts(fixup, mode, adjusted, all, k);
    } else {
      assert !Accepts(fixup, mode, adjusted, all, |calls|);
    }
  }

  // What validating a mode comes to: the bridges with a mode_valid hook are asked in order, and the
  // answer is the first status that is not MODE_OK, if there is one.
  ghost predicate Validates(status: nat -> int, hooked: seq<nat>, ret: int, calls: seq<nat>) {
    && calls <= hooked
    && (ret == MODE_OK <==> forall k :: 0 <= k < |hooked| ==> status(hooked[k]) == MODE_OK)
    && (ret == MODE_OK ==> calls == hooked)
    && (ret != MODE_OK ==> 0 < |calls| && status(calls[|calls| - 1]) == ret)
    && forall k :: 0 <= k < |calls| - 1 ==> status(calls[k]) == MODE_OK
  }

  // The first bridge objects.
  lemma ObjectionStops(status: nat -> int, b: nat, hooked: seq<nat>)
    requires status(b) != MODE_OK
    ensures Validates(status, [b] + hooked, status(b), [b])
  {
    assert ([b] + hooked)[0] == b;
  }

  // The first bridge does not.
  lemma ValidationGoesOn(status: nat -> int, b: nat, hooked: seq<nat>, ret: int, calls: seq<nat>)
    requires status(b) == MODE_OK && Validates(status, hooked, ret, calls)
    ensures Validates(status, [b] + hooked, ret, [b] + calls)
  {
    var all := [b] + hooked;
    assert forall k :: 0 <= k < |hooked| ==> all[k + 1] == hooked[k];
    if ret != MODE_OK && forall k :: 0 <= k < |all| ==> status(all[k]) == MODE_OK {
      assert false;
    }
  }

  class Bridges {
    var encoders: map<nat, Encoder>
    var bridges: map<nat, Bridge>
    ghost var rank: map<nat, nat>

    ghost function View(): State
      reads this
    {
      State(encoders, bridges)
    }

    ghost predicate Valid()
      reads this
    {
      Inv(View(), rank)
    }

    constructor (encoders: map<nat, Encoder>, bridges: map<nat, Bridge>)
      requires Initial(State(encoders, bridges))
      ensures Valid() && View() == State(encoders, bridges) && rank == map[]
    {
      this.encoders, this.bridges, rank := encoders, bridges, map[];
      new;
      assert forall b :: b in bridges ==> BridgeOk(View(), rank, b);
    }

    lemma MayKeepInv(r: Request)
      requires Possible(View(), r)
      ensures Valid() ==> Inv(Attach(View(), r), Ranked(rank, View(), r))
    {
      if Valid() {
        AttachKeepsInv(View(), rank, r);
      }
    }

    // drm_bridge_attach
    method DoAttach(encoder: Option<nat>, bridge: Option<nat>, previous: Option<nat>, hookRet: int)
      returns (ret: int)
      requires Possible(View(), Request(encoder, bridge, previous, hookRet))
      modifies this
      ensures ret == Check(old(View()), Request(encoder, bridge, previous, hookRet))
      ensures View() == Attach(old(View()), Request(encoder, bridge, previous, hookRet))
      ensures rank == Ranked(old(rank), old(View()), Request(encoder, bridge, previous, hookRet))
      ensures old(Valid()) ==> Valid()
    {
      MayKeepInv(Request(encoder, bridge, previous, hookRet));
      if encoder.None? || bridge.None? {
        return -EINVAL;
      }
      var e, b := encoder.value, bridge.value;
      if previous.Some? && (bridges[previous.value].dev.None? || bridges[previous.value].encoder != encoder) {
        return -EINVAL;
      }
      if bridges[b].dev.Some? {
        return -EBUSY;
      }
      bridges := bridges[b := bridges[b].(dev := Some(encoders[e].dev))];
      bridges := bridges[b := bridges[b].(encoder := encoder)];
      assert bridges == old(bridges)[b := old(bridges)[b].(dev := Some(encoders[e].dev), encoder := encoder)];
      if OnAttach in bridges[b].funcs && hookRet < 0 {
        bridges := bridges[b := bridges[b].(dev := None)];
        bridges := bridges[b := bridges[b].(encoder := None)];
        assert bridges == old(bridges)[b := old(bridges)[b].(dev := None, encoder := None)];
        return hookRet;
      }
      if previous.Some? {
        bridges := bridges[previous.value := bridges[previous.value].(next := bridge)];
      } else {
        encoders := encoders[e := encoders[e].(bridge := bridge)];
      }
      rank := rank[b := |rank|];
      return 0;
    }

    // drm_bridge_enable, drm_bridge_post_disable and drm_bridge_mode_set: first to last.
    method CallForward(p: Option<nat>, hook: Hook) returns (calls: seq<nat>)
      requires Valid() && AtBridge(rank, p)
      ensures calls == Hooked(bridges, Chain(View(), rank, p), hook)
      decreases if p.None? then 0 else |rank| - rank[p.value]
    {
      if p.None? {
        return [];
      }
      assert BridgeOk(View(), rank, p.value);
      calls := if hook in bridges[p.value].funcs then [p.value] else [];
      var rest := CallForward(bridges[p.value].next, hook);
      calls := calls + rest;
    }

    // drm_bridge_pre_enable and drm_bridge_disable: last to first.
    method CallBackward(p: Option<nat>, hook: Hook) returns (calls: seq<nat>)
      requires Valid() && AtBridge(rank, p)
      ensures IsReverse(calls, Hooked(bridges, Chain(View(), rank, p), hook))
      decreases if p.None? then 0 else |rank| - rank[p.value]
    {
      if p.None? {
        return [];
      }
      assert BridgeOk(View(), rank, p.value);
      calls := CallBackward(bridges[p.value].next, hook);
      if hook in bridges[p.value].funcs {
        calls := calls + [p.value];
      }
    }

    // drm_bridge_mode_fixup
    method FixupMode<M>(fixup: (nat, M, M) -> (bool, M), p: Option<nat>, mode: M, adjusted: M)
      returns (ret: bool, calls: seq<nat>, adjusted': M)
      requires Valid() && AtBridge(rank, p)
      ensures FixesUp(fixup, mode, adjusted, Hooked(bridges, Chain(View(), rank, p), ModeFixup), ret, calls, adjusted')
      decreases if p.None? then 0 else |rank| - rank[p.value]
    {
      ret, calls, adjusted' := true, [], adjusted;
      if p.None? {
        return;
      }
      var next := bridges[p.value].next;
      ChainUnfold(View(), rank, p.value);
      ghost var hooked := Hooked(bridges, Chain(View(), rank, next), ModeFixup);
      assert Chain(View(), rank, p)[1..] == Chain(View(), rank, next);
      if ModeFixup in bridges[p.value].funcs {
        var answer := fixup(p.value, mode, adjusted);
        ret, calls, adjusted' := answer.0, [p.value], answer.1;
      }
      if ret {
        var rest: seq<nat>;
        ret, rest, adjusted' := FixupMode(fixup, next, mode, adjusted');
        if calls == [p.value] {
          AcceptanceGoesOn(fixup, mode, adjusted, p.value, hooked, ret, rest, adjusted');
        } else {
          assert [] + rest == rest && [] + hooked == hooked;
        }
        calls := calls + rest;
      } else {
        RefusalStops(fixup, mode, adjusted, p.value, hooked);
      }
    }

    // drm_bridge_mode_valid
    method ValidateMode(status: nat -> int, p: Option<nat>)
      returns (ret: int, calls: seq<nat>)
      requires Valid() && AtBridge(rank, p)
      ensures Validates(status, Hooked(bridges, Chain(View(), rank, p), ModeValid), ret, calls)
      decreases if p.None? then 0 else |rank| - rank[p.value]
    {
      ret, calls := MODE_OK, [];
      if p.None? {
        return;
      }
      var next := bridges[p.value].next;
      ChainUnfold(View(), rank, p.value);
      ghost var hooked := Hooked(bridges, Chain(View(), rank, next), ModeValid);
      assert Chain(View(), rank, p)[1..] == Chain(View(), rank, next);
      if ModeValid in bridges[p.value].funcs {
        ret, calls := status(p.value), [p.value];
      }
      if ret != MODE_OK {
        ObjectionStops(status, p.value, hooked);
        return;
      }
      var rest: seq<nat>;
      ret, rest := ValidateMode(status, next);
      if calls == [p.value] {
        ValidationGoesOn(status, p.value, hooked, ret, rest);
      } else {
        assert [] + rest == rest && [] + hooked == hooked;
      }
      calls := calls + rest;
    }
  }
}
