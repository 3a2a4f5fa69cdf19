/** Normalisation of plane z-positions (drivers/gpu/drm/drm_blend.c), with the part of
    drivers/gpu/drm/drm_atomic.c that builds the atomic state it works on.

    An atomic state collects new states of some planes and CRTCs, next to the committed ones.
    Planes and CRTCs are numbered by index; a plane state carries the object id of its plane.
  */
module ZposNormalize {
  import opened Errno
  import opened Options
  import opened Words

  type PlaneId = nat
  type CrtcId = nat

  datatype PlaneState = PlaneState(id: int, crtc: Option<CrtcId>, zpos: int, normalized: int)

  // planeMask: the indices of the bits set in plane_mask.
  datatype CrtcState = CrtcState(planeMask: set<PlaneId>, zposChanged: bool)

  datatype State = State(planes: map<PlaneId, PlaneState>, crtcs: map<CrtcId, CrtcState>)

  /* ---------- the order of planes ---------- */

  // drm_atomic_state_zpos_cmp: a difference of u32 values, returned as int.
  function Compare(a: PlaneState, b: PlaneState): int {
    if a.zpos != b.zpos then WrapS32(a.zpos - b.zpos) else WrapS32(a.id - b.id)
  }

  // The documented order: by zpos, then by plane id.
  predicate Before(a: PlaneState, b: PlaneState) {
    a.zpos < b.zpos || (a.zpos == b.zpos && a.id < b.id)
  }

  predicate InU32(a: PlaneState) {
    0 <= a.zpos < TWO_32 && 0 <= a.id < TWO_32
  }

  // The difference that decides the comparison.
  function Gap(a: PlaneState, b: PlaneState): int {
    if a.zpos != b.zpos then a.zpos - b.zpos else a.id - b.id
  }

  // The comparison agrees with the documented order exactly when that difference fits in an int.
  lemma CompareExactIff(a: PlaneState, b: PlaneState)
    requires InU32(a) && InU32(b)
    ensures (Compare(a, b) < 0 <==> Before(a, b)) && (Compare(a, b) > 0 <==> Before(b, a))
      <==> -TWO_31 <= Gap(a, b) < TWO_31
  {
    var g := Gap(a, b);
    if -TWO_31 <= g < TWO_31 {
      ModUnique(g + TWO_31, 0, g + TWO_31, TWO_32);
    } else if g >= TWO_31 {
      ModUnique(g + TWO_31, 1, g - TWO_31, TWO_32);
    } else {
      ModUnique(g + TWO_31, -1, g + TWO_31 + TWO_32, TWO_32);
    }
  }

  // Past that, three planes can be ordered in a circle.
  lemma CompareCycle(a: PlaneState, b: PlaneState, c: PlaneState)
    requires a.zpos == 0 && b.zpos == 0x6000_0000 && c.zpos == 0xC000_0000
    ensures Compare(a, b) < 0 && Compare(b, c) < 0 && Compare(c, a) < 0
  {
  }

  // The keys of two planes differ, by less than 2^31.
  predicate Near(a: PlaneState, b: PlaneState) {
    0 < Abs(Gap(a, b)) < TWO_31
  }

  // Planes that the comparison puts in their order.
  ghost predicate Comparable(st: map<PlaneId, PlaneState>, s: set<PlaneId>) {
    forall p, q {:trigger Near(st[p], st[q])} ::
      p in s && q in s && p in st && q in st && p != q ==> Near(st[p], st[q])
  }

  // Keys below 2^31 can be compared.
  lemma SmallComparable(st: map<PlaneId, PlaneState>, s: set<PlaneId>)
    requires forall p :: p in s && p in st ==> 0 <= st[p].zpos < TWO_31 && 0 <= st[p].id < TWO_31
    requires forall p, q :: p in s && q in s && p in st && q in st && p != q ==> st[p].id != st[q].id
    ensures Comparable(st, s)
  {
    forall p, q | p in s && q in s && p in st && q in st && p != q
      ensures Near(st[p], st[q])
    {
      assert st[p].id != st[q].id;
    }
  }

  // The planes of the set that come before p, and how many they are.
  function Below(st: map<PlaneId, PlaneState>, s: set<PlaneId>, p: PlaneId): set<PlaneId>
    requires s <= st.Keys && p in st
  {
    set q | q in s && Before(st[q], st[p])
  }

  function Rank(st: map<PlaneId, PlaneState>, s: set<PlaneId>, p: PlaneId): nat
    requires s <= st.Keys && p in st
  {
    |Below(st, s, p)|
  }

  predicate Increasing(s: seq<PlaneId>, st: map<PlaneId, PlaneState>)
    requires forall p :: p in s ==> p in st
  {
    forall i, j :: 0 <= i < j < |s| ==> Before(st[s[i]], st[s[j]])
  }

  function Elements(s: seq<PlaneId>): set<PlaneId> {
    set p | p in s
  }

  lemma {:induction false} PrefixSize(s: seq<PlaneId>, i: nat)
    requires i <= |s| && forall j, k :: 0 <= j < k < |s| ==> s[j] != s[k]
    ensures |Elements(s[..i])| == i
  {
    if i > 0 {
      PrefixSize(s, i - 1);
      assert s[..i] == s[..i - 1] + [s[i - 1]];
      assert Elements(s[..i]) == Elements(s[..i - 1]) + {s[i - 1]};
      assert s[i - 1] !in Elements(s[..i - 1]);
    }
  }

  // In an increasing sequence the index of a plane is its rank.
  lemma RankIsIndex(s: seq<PlaneId>, st: map<PlaneId, PlaneState>, i: nat)
    requires i < |s| && (forall p :: p in s ==> p in st) && Increasing(s, st)
    ensures Rank(st, Elements(s), s[i]) == i
  {
    var below := Below(st, Elements(s), s[i]);
    forall q
      ensures q in below <==> q in Elements(s[..i])
    {
      if q in below {
        var k :| 0 <= k < |s| && s[k] == q;
        assert k < i;
        assert q == s[..i][k];
      }
    }
    assert below == Elements(s[..i]);
    PrefixSize(s, i);
  }

  /* ---------- sort ---------- */

  // What the library sort promises: a permutation, in order if the comparison is exact. Two planes are
  // compared with each other in any case.
  ghost predicate IsSortOf(t: seq<PlaneId>, s: seq<PlaneId>, st: map<PlaneId, PlaneState>)
    requires forall p :: p in s ==> p in st
  {
    && multiset(t) == multiset(s)
    && (forall p :: p in t ==> p in st)
    && (Comparable(st, Elements(s)) && Distinct(s) ==> Increasing(t, st))
    && (|t| == 2 ==> Compare(st[t[0]], st[t[1]]) <= 0)
  }

  predicate Distinct(s: seq<PlaneId>) {
    forall i, j :: 0 <= i < j < |s| ==> s[i] != s[j]
  }

  function Insert(p: PlaneId, s: seq<PlaneId>, st: map<PlaneId, PlaneState>): seq<PlaneId>
    requires p in st && forall q :: q in s ==> q in st
  {
    if s == [] || Compare(st[p], st[s[0]]) <= 0 then [p] + s
    else [s[0]] + Insert(p, s[1..], st)
  }

  lemma {:induction false} InsertPermutes(p: PlaneId, s: seq<PlaneId>, st: map<PlaneId, PlaneState>)
    requires p in st && forall q :: q in s ==> q in st
    ensures multiset(Insert(p, s, st)) == multiset(s) + multiset{p}
  {
    if s != [] {
      assert s == [s[0]] + s[1..];
      if Compare(st[p], st[s[0]]) > 0 {
        InsertPermutes(p, s[1..], st);
      }
    }
  }

  lemma SameElements(t: seq<PlaneId>, s: seq<PlaneId>)
    requires multiset(t) == multiset(s)
    ensures |t| == |s| && forall p :: p in t <==> p in s
  {
    assert forall p :: p in t <==> p in multiset(t);
    assert forall p :: p in s <==> p in multiset(s);
    assert |multiset(t)| == |t| && |multiset(s)| == |s|;
  }

  lemma InsertElements(p: PlaneId, s: seq<PlaneId>, st: map<PlaneId, PlaneState>)
    requires p in st && forall q :: q in s ==> q in st
    ensures forall q :: q in Insert(p, s, st) <==> q == p || q in s
  {
    InsertPermutes(p, s, st);
    SameElements(Insert(p, s, st), [p] + s);
  }

  lemma PrependIncreasing(p: PlaneId, s: seq<PlaneId>, st: map<PlaneId, PlaneState>)
    requires p in st && (forall q :: q in s ==> q in st && Before(st[p], st[q])) && Increasing(s, st)
    ensures forall q :: q in [p] + s ==> q in st
    ensures Increasing([p] + s, st)
  {
  }

  lemma BeforeUnlessAfter(p: PlaneId, q: PlaneId, st: map<PlaneId, PlaneState>)
    requires p in st && q in st && Near(st[p], st[q])
    ensures Compare(st[p], st[q]) <= 0 ==> Before(st[p], st[q])
    ensures Compare(st[p], st[q]) > 0 ==> Before(st[q], st[p])
  {
    var g := Gap(st[p], st[q]);
    ModUnique(g + TWO_31, 0, g + TWO_31, TWO_32);
  }

  lemma {:induction false} InsertIncreasing(p: PlaneId, s: seq<PlaneId>, st: map<PlaneId, PlaneState>)
    requires p in st && (forall q :: q in s ==> q in st && Near(st[p], st[q])) && Increasing(s, st)
    ensures forall q :: q in Insert(p, s, st) ==> q in st
    ensures Increasing(Insert(p, s, st), st)
  {
    InsertElements(p, s, st);
    if s == [] {
    } else if Compare(st[p], st[s[0]]) <= 0 {
      BeforeUnlessAfter(p, s[0], st);
      PrependIncreasing(p, s, st);
    } else {
      BeforeUnlessAfter(p, s[0], st);
      InsertIncreasing(p, s[1..], st);
      InsertElements(p, s[1..], st);
      PrependIncreasing(s[0], Insert(p, s[1..], st), st);
    }
  }

  // Insertion sort stands in for the library's: what follows uses only IsSortOf.
  function Sorted(s: seq<PlaneId>, st: map<PlaneId, PlaneState>): (t: seq<PlaneId>)
    requires forall p :: p in s ==> p in st
    ensures forall p :: p in t ==> p in st
  {
    if s == [] then []
    else
      InsertElements(s[0], Sorted(s[1..], st), st);
      Insert(s[0], Sorted(s[1..], st), st)
  }

  lemma {:induction false} SortedPermutes(s: seq<PlaneId>, st: map<PlaneId, PlaneState>)
    requires forall p :: p in s ==> p in st
    ensures multiset(Sorted(s, st)) == multiset(s)
  {
    if s != [] {
      SortedPermutes(s[1..], st);
      InsertPermutes(s[0], Sorted(s[1..], st), st);
      assert s == [s[0]] + s[1..];
    }
  }

  lemma {:induction false} SortedIncreasing(s: seq<PlaneId>, st: map<PlaneId, PlaneState>)
    requires (forall p :: p in s ==> p in st) && Comparable(st, Elements(s)) && Distinct(s)
    ensures Increasing(Sorted(s, st), st)
  {
    if s != [] {
      SortedIncreasing(s[1..], st);
      SortedPermutes(s[1..], st);
      SameElements(Sorted(s[1..], st), s[1..]);
      InsertIncreasing(s[0], Sorted(s[1..], st), st);
    }
  }

  lemma CompareOther(a: PlaneState, b: PlaneState)
    requires Compare(a, b) > 0
    ensures Compare(b, a) <= 0
  {
  }

  lemma TwoSorted(p: PlaneId, q: PlaneId, st: map<PlaneId, PlaneState>)
    requires p in st && q in st
    ensures Sorted([p, q], st) == if Compare(st[p], st[q]) <= 0 then [p, q] else [q, p]
    ensures var t := Sorted([p, q], st); Compare(st[t[0]], st[t[1]]) <= 0
  {
    assert [p, q][1..] == [q];
    assert Sorted([q], st) == [q];
    if Compare(st[p], st[q]) > 0 {
      assert [q][1..] == [] && Insert(p, [], st) == [p];
      assert Insert(p, [q], st) == [q, p];
      CompareOther(st[p], st[q]);
    }
  }

  lemma SortedCompare(s: seq<PlaneId>, st: map<PlaneId, PlaneState>)
    requires (forall p :: p in s ==> p in st) && |Sorted(s, st)| == 2
    ensures var t := Sorted(s, st); Compare(st[t[0]], st[t[1]]) <= 0
  {
    SortedPermutes(s, st);
    SameElements(Sorted(s, st), s);
    TwoSorted(s[0], s[1], st);
    assert s == [s[0], s[1]];
  }

  lemma SortedIsSort(s: seq<PlaneId>, st: map<PlaneId, PlaneState>)
    requires forall p :: p in s ==> p in st
    ensures IsSortOf(Sorted(s, st), s, st)
  {
    SortedPermutes(s, st);
    if Comparable(st, Elements(s)) && Distinct(s) {
      SortedIncreasing(s, st);
    }
    if |Sorted(s, st)| == 2 {
      SortedCompare(s, st);
    }
  }

  method Sort(states: array<PlaneId>, n: nat, st: map<PlaneId, PlaneState>)
    requires n <= states.Length && forall p :: p in states[..n] ==> p in st
    modifies states
    ensures IsSortOf(states[..n], old(states[..n]), st)
  {
    ghost var was := states[..n];
    var out := Sorted(states[..n], st);
    assert IsSortOf(out, was, st) by { SortedIsSort(was, st); }
    assert |out| == n by { SameElements(out, was); }
    for i := 0 to n
      invariant states[..i] == out[..i]
    {
      states[i] := out[i];
    }
    assert states[..n] == out;
  }

  /* ---------- committed and atomic states ---------- */

  function AttachedTo(planes: map<PlaneId, PlaneState>, c: CrtcId): set<PlaneId> {
    set p | p in planes && planes[p].crtc == Some(c)
  }

  // The planes of the CRTC carry their ranks.
  ghost predicate Ranked(planes: map<PlaneId, PlaneState>, c: CrtcId) {
    forall p :: p in AttachedTo(planes, c) ==>
      planes[p].normalized == Rank(planes, AttachedTo(planes, c), p)
  }

  // A plane's CRTC exists.
  predicate HomeOk(com: State, p: PlaneId) {
    p in com.planes && com.planes[p].crtc.Some? ==> com.planes[p].crtc.value in com.crtcs
  }

  // plane_mask agrees with the planes' own pointers.
  ghost predicate CrtcOk(com: State, c: CrtcId) {
    c in com.crtcs ==> com.crtcs[c].planeMask == AttachedTo(com.planes, c)
  }

  ghost predicate CommittedInv(com: State) {
    (forall p :: HomeOk(com, p)) && (forall c :: CrtcOk(com, c))
  }

  // The plane states as they will be: new ones where there are, committed ones elsewhere.
  function Merged(com: State, u: State): map<PlaneId, PlaneState> {
    com.planes + u.planes
  }

  // A new plane state belongs to the same plane, has not been normalised yet, and the CRTCs the
  // plane comes from and goes to are part of the atomic state.
  predicate PlaneOk(com: State, u: State, p: PlaneId) {
    p in u.planes ==>
      && p in com.planes
      && u.planes[p].id == com.planes[p].id && u.planes[p].normalized == com.planes[p].normalized
      && (com.planes[p].crtc.Some? ==> com.planes[p].crtc.value in u.crtcs)
      && (u.planes[p].crtc.Some? ==> u.planes[p].crtc.value in u.crtcs)
  }

  predicate MaskOk(com: State, u: State, c: CrtcId) {
    c in u.crtcs ==>
      && c in com.crtcs && !u.crtcs[c].zposChanged
      && u.crtcs[c].planeMask == AttachedTo(Merged(com, u), c)
  }

  ghost predicate Consistent(com: State, u: State) {
    (forall p :: PlaneOk(com, u, p)) && (forall c :: MaskOk(com, u, c))
  }

  // drm_atomic_get_crtc_state, when it succeeds
  function AddCrtc(com: State, u: State, c: CrtcId): State
    requires c in com.crtcs
  {
    if c in u.crtcs then u
    else u.(crtcs := u.crtcs[c := com.crtcs[c].(zposChanged := false)])
  }

  // drm_atomic_get_plane_state, when it succeeds
  function AddPlane(com: State, u: State, p: PlaneId): State
    requires p in com.planes
    requires com.planes[p].crtc.Some? ==> com.planes[p].crtc.value in com.crtcs
  {
    if p in u.planes then u
    else
      var u1 := u.(planes := u.planes[p := com.planes[p]]);
      if com.planes[p].crtc.None? then u1 else AddCrtc(com, u1, com.planes[p].crtc.value)
  }

  function SetMask(u: State, c: CrtcId, mask: set<PlaneId>): State
    requires c in u.crtcs
  {
    u.(crtcs := u.crtcs[c := u.crtcs[c].(planeMask := mask)])
  }

  // drm_atomic_set_crtc_for_plane, when it succeeds
  function SetCrtc(com: State, u: State, p: PlaneId, target: Option<CrtcId>): State
    requires p in u.planes
    requires u.planes[p].crtc.Some? ==> u.planes[p].crtc.value in com.crtcs
    requires target.Some? ==> target.value in com.crtcs
  {
    var u1 :=
      if u.planes[p].crtc.None? then u
      else
        var c := u.planes[p].crtc.value;
        var v := AddCrtc(com, u, c);
        SetMask(v, c, v.crtcs[c].planeMask - {p});
    var u2 := u1.(planes := u1.planes[p := u1.planes[p].(crtc := target)]);
    if target.None? then u2
    else
      var c := target.value;
      var v := AddCrtc(com, u2, c);
      SetMask(v, c, v.crtcs[c].planeMask + {p})
  }

  datatype BuildOp =
    | TouchPlane(plane: PlaneId)
    | TouchCrtc(crtc: CrtcId)
    | SetZpos(plane: PlaneId, zpos: int)
    | MoveTo(plane: PlaneId, target: Option<CrtcId>)

  predicate Buildable(com: State, op: BuildOp) {
    match op
    case TouchPlane(p) => p in com.planes
    case TouchCrtc(c) => c in com.crtcs
    case SetZpos(p, z) => p in com.planes && 0 <= z < TWO_32
    case MoveTo(p, target) => p in com.planes && (target.Some? ==> target.value in com.crtcs)
  }

  // One change of an atomic state by its user. A plane's state is fetched before it is changed.
  function BuildStep(com: State, u: State, op: BuildOp): State
    requires CommittedInv(com) && Consistent(com, u) && Buildable(com, op)
  {
    match op
    case TouchPlane(p) =>
      assert HomeOk(com, p);
      AddPlane(com, u, p)
    case TouchCrtc(c) => AddCrtc(com, u, c)
    case SetZpos(p, z) =>
      assert HomeOk(com, p);
      var v := AddPlane(com, u, p);
      v.(planes := v.planes[p := v.planes[p].(zpos := z)])
    case MoveTo(p, target) =>
      AddPlaneKeeps(com, u, p);
      var v := AddPlane(com, u, p);
      if v.planes[p].crtc.Some? then
        NewHomeKnown(com, v, p);
        SetCrtc(com, v, p, target)
      else SetCrtc(com, v, p, target)
  }

  lemma AddCrtcKeeps(com: State, u: State, c: CrtcId)
    requires CommittedInv(com) && Consistent(com, u) && c in com.crtcs
    ensures Consistent(com, AddCrtc(com, u, c))
  {
    var u' := AddCrtc(com, u, c);
    forall p
      ensures PlaneOk(com, u', p)
    {
      assert PlaneOk(com, u, p);
    }
    forall e
      ensures MaskOk(com, u', e)
    {
      assert MaskOk(com, u, e) && CrtcOk(com, e);
      if e == c && c !in u.crtcs {
        UntouchedCrtc(com, u, c);
      }
    }
  }

  // No plane of the atomic state comes from or goes to a CRTC outside it.
  lemma UntouchedCrtc(com: State, u: State, c: CrtcId)
    requires Consistent(com, u) && c !in u.crtcs
    ensures AttachedTo(Merged(com, u), c) == AttachedTo(com.planes, c)
    ensures forall p :: p in AttachedTo(com.planes, c) ==> p !in u.planes
  {
    forall p
      ensures p in AttachedTo(Merged(com, u), c) <==> p in AttachedTo(com.planes, c)
      ensures p in AttachedTo(com.planes, c) ==> p !in u.planes
    {
      assert PlaneOk(com, u, p);
    }
  }

  lemma AddPlaneKeeps(com: State, u: State, p: PlaneId)
    requires CommittedInv(com) && Consistent(com, u) && p in com.planes
    ensures HomeOk(com, p)
    ensures Consistent(com, AddPlane(com, u, p)) && p in AddPlane(com, u, p).planes
    ensures Merged(com, AddPlane(com, u, p)) == Merged(com, u)
  {
    assert HomeOk(com, p);
    if p !in u.planes {
      var home := com.planes[p].crtc;
      var v := if home.Some? then AddCrtc(com, u, home.value) else u;
      if home.Some? {
        AddCrtcKeeps(com, u, home.value);
      }
      var u' := AddPlane(com, u, p);
      assert u'.crtcs == v.crtcs && u'.planes == v.planes[p := com.planes[p]];
      assert Merged(com, u') == Merged(com, v) == Merged(com, u);
      forall q
        ensures PlaneOk(com, u', q)
      {
        assert PlaneOk(com, v, q);
      }
      forall c
        ensures MaskOk(com, u', c)
      {
        assert MaskOk(com, v, c);
      }
    }
  }

  lemma SetZposKeeps(com: State, u: State, p: PlaneId, z: int)
    requires Consistent(com, u) && p in u.planes
    ensures Consistent(com, u.(planes := u.planes[p := u.planes[p].(zpos := z)]))
  {
    var u' := u.(planes := u.planes[p := u.planes[p].(zpos := z)]);
    forall q
      ensures PlaneOk(com, u', q)
    {
      assert PlaneOk(com, u, q);
    }
    forall c
      ensures MaskOk(com, u', c)
    {
      assert MaskOk(com, u, c);
      assert AttachedTo(Merged(com, u'), c) == AttachedTo(Merged(com, u), c);
    }
  }

  // Moving a plane, with both CRTCs already part of the atomic state.
  lemma SetCrtcShape(com: State, u: State, p: PlaneId, target: Option<CrtcId>, v: State)
    requires Consistent(com, u) && p in u.planes && PlaneOk(com, u, p)
    requires u.planes[p].crtc.Some? ==> u.planes[p].crtc.value in com.crtcs
    requires target.Some? ==> target.value in com.crtcs
    requires v == if target.Some? then AddCrtc(com, u, target.value) else u
    ensures var u', from := SetCrtc(com, u, p, target), u.planes[p].crtc;
      && u'.planes == u.planes[p := u.planes[p].(crtc := target)]
      && u'.crtcs.Keys == v.crtcs.Keys
      && forall c :: c in v.crtcs ==>
           u'.crtcs[c] == v.crtcs[c].(planeMask :=
             (v.crtcs[c].planeMask - (if from == Some(c) then {p} else {})) + (if target == Some(c) then {p} else {}))
  {
  }

  lemma SetCrtcKeeps(com: State, u: State, p: PlaneId, target: Option<CrtcId>)
    requires CommittedInv(com) && Consistent(com, u) && p in u.planes
    requires u.planes[p].crtc.Some? ==> u.planes[p].crtc.value in com.crtcs
    requires target.Some? ==> target.value in com.crtcs
    ensures Consistent(com, SetCrtc(com, u, p, target))
  {
    var v := if target.Some? then AddCrtc(com, u, target.value) else u;
    if target.Some? {
      AddCrtcKeeps(com, u, target.value);
    }
    var u' := SetCrtc(com, u, p, target);
    assert PlaneOk(com, u, p);
    SetCrtcShape(com, u, p, target, v);
    forall q
      ensures PlaneOk(com, u', q)
    {
      assert PlaneOk(com, v, q);
    }
    forall c
      ensures MaskOk(com, u', c)
    {
      assert MaskOk(com, v, c);
      MoveAttached(com, u, p, target, c);
      assert Merged(com, v) == Merged(com, u);
    }
  }

  lemma MoveAttached(com: State, u: State, p: PlaneId, target: Option<CrtcId>, c: CrtcId)
    requires p in u.planes
    ensures var u' := u.(planes := u.planes[p := u.planes[p].(crtc := target)]);
      AttachedTo(Merged(com, u'), c) ==
        (AttachedTo(Merged(com, u), c) - (if u.planes[p].crtc == Some(c) then {p} else {}))
        + (if target == Some(c) then {p} else {})
  {
  }

  lemma NewHomeKnown(com: State, u: State, p: PlaneId)
    requires Consistent(com, u) && p in u.planes && u.planes[p].crtc.Some?
    ensures u.planes[p].crtc.value in com.crtcs
  {
    assert PlaneOk(com, u, p) && MaskOk(com, u, u.planes[p].crtc.value);
  }

  // Whatever is built from the committed state keeps plane masks and planes in agreement.
  lemma BuildStepKeeps(com: State, u: State, op: BuildOp)
    requires CommittedInv(com) && Consistent(com, u) && Buildable(com, op)
    ensures Consistent(com, BuildStep(com, u, op))
  {
    match op
    case TouchPlane(p) => AddPlaneKeeps(com, u, p);
    case TouchCrtc(c) => AddCrtcKeeps(com, u, c);
    case SetZpos(p, z) =>
      AddPlaneKeeps(com, u, p);
      SetZposKeeps(com, AddPlane(com, u, p), p, z);
    case MoveTo(p, target) =>
      AddPlaneKeeps(com, u, p);
      var v := AddPlane(com, u, p);
      if v.planes[p].crtc.Some? {
        NewHomeKnown(com, v, p);
      }
      SetCrtcKeeps(com, v, p, target);
  }

  lemma MergedKeys(com: State, u: State)
    requires Consistent(com, u)
    ensures Merged(com, u).Keys == com.planes.Keys
    ensures forall p :: p in com.planes ==> Merged(com, u)[p].id == com.planes[p].id
    ensures forall p :: p in com.planes ==> Merged(com, u)[p].normalized == com.planes[p].normalized
  {
    forall p
      ensures p in Merged(com, u) <==> p in com.planes
      ensures p in com.planes ==> Merged(com, u)[p].id == com.planes[p].id
      ensures p in com.planes ==> Merged(com, u)[p].normalized == com.planes[p].normalized
    {
      assert PlaneOk(com, u, p);
    }
  }

  // The plane states a step asks for, from those of before.
  function Asked(all: map<PlaneId, PlaneState>, op: BuildOp): map<PlaneId, PlaneState>
    requires op.TouchCrtc? || op.plane in all
  {
    match op
    case TouchPlane(_) => all
    case TouchCrtc(_) => all
    case SetZpos(p, z) => all[p := PlaneState(all[p].id, all[p].crtc, z, all[p].normalized)]
    case MoveTo(p, target) => all[p := PlaneState(all[p].id, target, all[p].zpos, all[p].normalized)]
  }

  lemma SetCrtcMerged(com: State, v: State, p: PlaneId, target: Option<CrtcId>)
    requires p in v.planes
    requires v.planes[p].crtc.Some? ==> v.planes[p].crtc.value in com.crtcs
    requires target.Some? ==> target.value in com.crtcs
    ensures var v' := SetCrtc(com, v, p, target);
      && p in v'.planes && v.crtcs.Keys <= v'.crtcs.Keys
      && Merged(com, v') == Merged(com, v)[p := v.planes[p].(crtc := target)]
      && (v.planes[p].crtc.Some? ==> v.planes[p].crtc.value in v'.crtcs)
      && (target.Some? ==> target.value in v'.crtcs)
  {
    var v' := SetCrtc(com, v, p, target);
    assert v'.planes == v.planes[p := v.planes[p].(crtc := target)];
  }

  lemma MergedOf(com: State, u: State, op: BuildOp)
    requires CommittedInv(com) && Consistent(com, u) && Buildable(com, op)
    ensures op.TouchCrtc? || op.plane in Merged(com, u)
    ensures Merged(com, BuildStep(com, u, op)) == Asked(Merged(com, u), op)
    ensures u.crtcs.Keys <= BuildStep(com, u, op).crtcs.Keys
    ensures if op.TouchCrtc? then op.crtc in BuildStep(com, u, op).crtcs else op.plane in BuildStep(com, u, op).planes
  {
    if !op.TouchCrtc? {
      var p := op.plane;
      AddPlaneKeeps(com, u, p);
      var v := AddPlane(com, u, p);
      if op.SetZpos? {
        var v' := BuildStep(com, u, op);
        assert Merged(com, v') == Merged(com, v)[p := v.planes[p].(zpos := op.zpos)];
      } else if op.MoveTo? {
        if v.planes[p].crtc.Some? {
          NewHomeKnown(com, v, p);
        }
        SetCrtcMerged(com, v, p, op.target);
      }
    }
  }

  // What building does. The merged plane states are as asked: moving a plane changes where it goes
  // and nothing else, setting a zpos that alone, touching nothing. Afterwards a CRTC of the atomic
  // state has in its mask exactly the planes that go to it, the moved plane for one in its target's
  // mask and in no other; and CRTCs that a plane comes from or goes to are part of it.
  lemma BuildStepDoes(com: State, u: State, op: BuildOp)
    requires CommittedInv(com) && Consistent(com, u) && Buildable(com, op)
    ensures var all, u' := Merged(com, u), BuildStep(com, u, op);
      && (op.TouchCrtc? || op.plane in all) && Merged(com, u') == Asked(all, op)
      && (forall c, p :: c in u'.crtcs && p in com.planes ==>
            (p in u'.crtcs[c].planeMask <==> Asked(all, op)[p].crtc == Some(c)))
      && (op.MoveTo? && op.target.Some? ==> op.target.value in u'.crtcs)
      && (op.MoveTo? && all[op.plane].crtc.Some? ==> all[op.plane].crtc.value in u'.crtcs)
  {
    MergedOf(com, u, op);
    BuildStepKeeps(com, u, op);
    MergedKeys(com, u);
    var all, u' := Merged(com, u), BuildStep(com, u, op);
    MergedKeys(com, u');
    forall c, p | c in u'.crtcs && p in com.planes
      ensures p in u'.crtcs[c].planeMask <==> Asked(all, op)[p].crtc == Some(c)
    {
      assert MaskOk(com, u', c);
    }
    if op.MoveTo? {
      AddPlaneKeeps(com, u, op.plane);
      var v := AddPlane(com, u, op.plane);
      if v.planes[op.plane].crtc.Some? {
        NewHomeKnown(com, v, op.plane);
      }
      SetCrtcMerged(com, v, op.plane, op.target);
    }
  }

  /* ---------- what normalisation has to achieve ---------- */

  // The planes of the CRTC are renumbered: it gained or lost a plane, or one changed its zpos.
  ghost predicate Touched(com: State, u: State, c: CrtcId)
    requires c in com.crtcs && c in u.crtcs
  {
    || com.crtcs[c].planeMask != u.crtcs[c].planeMask
    || exists p :: p in u.planes && p in com.planes
                   && u.planes[p].crtc == Some(c) && com.planes[p].zpos != u.planes[p].zpos
  }

  // The plane state that normalisation of u leaves behind.
  ghost predicate Expected(com: State, u: State, p: PlaneId, s: PlaneState)
    requires Consistent(com, u) && p in com.planes
  {
    var all := Merged(com, u);
    match all[p].crtc
    case None => s == all[p]
    case Some(c) =>
      assert MaskOk(com, u, c);
      if c in u.crtcs && Touched(com, u, c)
      then
        && s == all[p].(normalized := s.normalized)
        && (Comparable(all, AttachedTo(all, c)) ==> s.normalized == Rank(all, AttachedTo(all, c), p))
      else s == all[p]
  }

  // zpos_changed tells whether the planes of the CRTC were renumbered.
  ghost predicate FlagOk(com: State, u: State, v: State, c: CrtcId) {
    c in com.crtcs && c in u.crtcs && c in v.crtcs ==> (v.crtcs[c].zposChanged <==> Touched(com, u, c))
  }

  ghost predicate NormalizedTo(com: State, u: State, u': State)
    requires Consistent(com, u)
  {
    && Merged(com, u').Keys == com.planes.Keys
    && (forall p :: p in com.planes ==> Expected(com, u, p, Merged(com, u')[p]))
    && u'.crtcs.Keys == u.crtcs.Keys
    && (forall c :: c in u.crtcs ==> u'.crtcs[c].planeMask == u.crtcs[c].planeMask)
    && (forall c :: c in u.crtcs ==> FlagOk(com, u, u', c))
  }

  // drm_atomic_helper_swap_state: the new states become the committed ones.
  function Commit(com: State, u: State): State {
    State(Merged(com, u), com.crtcs + u.crtcs)
  }

  // Ranks depend on zpos and id of the planes concerned only.
  lemma SameRank(st: map<PlaneId, PlaneState>, st': map<PlaneId, PlaneState>, s: set<PlaneId>, p: PlaneId)
    requires s <= st.Keys && s <= st'.Keys && p in s
    requires forall q :: q in s ==> st[q].zpos == st'[q].zpos && st[q].id == st'[q].id
    ensures Rank(st, s, p) == Rank(st', s, p)
  {
    assert Below(st, s, p) == Below(st', s, p);
  }

  // Only the ranks differ between the atomic state before and after normalisation.
  lemma NormalizedShape(com: State, u: State, u': State, p: PlaneId)
    requires Consistent(com, u) && NormalizedTo(com, u, u') && p in com.planes
    ensures p in Merged(com, u) && Merged(com, u').Keys == Merged(com, u).Keys
    ensures Merged(com, u')[p] == Merged(com, u)[p].(normalized := Merged(com, u')[p].normalized)
  {
    MergedKeys(com, u);
    assert Expected(com, u, p, Merged(com, u')[p]);
  }

  lemma NormalizedAttached(com: State, u: State, u': State, c: CrtcId)
    requires Consistent(com, u) && NormalizedTo(com, u, u')
    ensures AttachedTo(Merged(com, u'), c) == AttachedTo(Merged(com, u), c) <= com.planes.Keys
  {
    MergedKeys(com, u);
    forall p
      ensures p in AttachedTo(Merged(com, u'), c) <==> p in AttachedTo(Merged(com, u), c)
    {
      if p in com.planes {
        NormalizedShape(com, u, u', p);
      }
    }
  }

  // A touched CRTC has fresh ranks, if its planes can be compared.
  lemma TouchedIsRanked(com: State, u: State, u': State, c: CrtcId)
    requires Consistent(com, u) && NormalizedTo(com, u, u') && c in com.crtcs && c in u.crtcs
    requires Touched(com, u, c) && Comparable(Merged(com, u), AttachedTo(Merged(com, u), c))
    ensures Ranked(Merged(com, u'), c)
  {
    var all, all', s := Merged(com, u), Merged(com, u'), AttachedTo(Merged(com, u), c);
    NormalizedAttached(com, u, u', c);
    MergedKeys(com, u);
    forall p | p in s
      ensures all'[p].normalized == Rank(all', s, p)
    {
      forall q | q in s
        ensures all[q].zpos == all'[q].zpos && all[q].id == all'[q].id
      {
        NormalizedShape(com, u, u', q);
      }
      assert Expected(com, u, p, all'[p]);
      SameRank(all, all', s, p);
    }
  }

  // A CRTC that was skipped has the planes, keys and numbers it had, so the ranks are as right as
  // they were.
  lemma SkippedIsRanked(com: State, u: State, u': State, c: CrtcId)
    requires CommittedInv(com) && Consistent(com, u) && NormalizedTo(com, u, u') && c in com.crtcs
    requires c in u.crtcs ==> !Touched(com, u, c)
    ensures Ranked(Merged(com, u'), c) <==> Ranked(com.planes, c)
    ensures AttachedTo(Merged(com, u'), c) == AttachedTo(com.planes, c)
  {
    var all, all', s := Merged(com, u), Merged(com, u'), AttachedTo(com.planes, c);
    NormalizedAttached(com, u, u', c);
    MergedKeys(com, u);
    assert CrtcOk(com, c) && MaskOk(com, u, c);
    if c !in u.crtcs {
      UntouchedCrtc(com, u, c);
    }
    assert AttachedTo(all, c) == s;
    forall p | p in s
      ensures all'[p].normalized == com.planes[p].normalized
      ensures all'[p].zpos == com.planes[p].zpos && all'[p].id == com.planes[p].id
    {
      NormalizedShape(com, u, u', p);
      assert Expected(com, u, p, all'[p]);
    }
    forall p | p in s
      ensures Rank(com.planes, s, p) == Rank(all', s, p)
    {
      SameRank(com.planes, all', s, p);
    }
  }

  // Committing a normalised atomic state keeps masks and planes in agreement.
  lemma CommitKeepsInv(com: State, u: State, u': State)
    requires CommittedInv(com) && Consistent(com, u) && NormalizedTo(com, u, u')
    ensures CommittedInv(Commit(com, u'))
  {
    var com' := Commit(com, u');
    MergedKeys(com, u);
    forall p
      ensures HomeOk(com', p)
    {
      if p in com.planes {
        NormalizedShape(com, u, u', p);
        assert HomeOk(com, p) && PlaneOk(com, u, p);
      }
    }
    forall c
      ensures CrtcOk(com', c)
    {
      assert CrtcOk(com, c) && MaskOk(com, u, c);
      if c in com'.crtcs {
        NormalizedAttached(com, u, u', c);
        if c !in u.crtcs {
          UntouchedCrtc(com, u, c);
        }
      }
    }
  }

  // The update renumbers the planes of the CRTC.
  ghost predicate Renumbers(com: State, u: State, c: CrtcId) {
    c in com.crtcs && c in u.crtcs && Touched(com, u, c)
  }

  // After a commit the planes of a CRTC carry their ranks if they can be compared, or if they were
  // left alone and did before.
  lemma CommitRanks(com: State, u: State, u': State, c: CrtcId)
    requires CommittedInv(com) && Consistent(com, u) && NormalizedTo(com, u, u') && c in com.crtcs
    requires if Renumbers(com, u, c)
      then Comparable(Merged(com, u), AttachedTo(Merged(com, u), c)) else Ranked(com.planes, c)
    ensures Ranked(Commit(com, u').planes, c)
  {
    if Renumbers(com, u, c) {
      TouchedIsRanked(com, u, u', c);
    } else {
      SkippedIsRanked(com, u, u', c);
    }
  }

  /* ---------- runs of updates ---------- */

  // A successful update: an atomic state is built, checked and committed.
  datatype Update = Update(ops: seq<BuildOp>, built: seq<State>, checked: State)

  ghost predicate Builds(com: State, r: Update) {
    && |r.built| == |r.ops| + 1 && r.built[0] == State(map[], map[])
    && forall i :: 0 <= i < |r.ops| ==> BuildsAt(com, r, i)
  }

  ghost predicate BuildsAt(com: State, r: Update, i: nat)
    requires i < |r.ops| && i + 1 < |r.built|
  {
    && Buildable(com, r.ops[i])
    && (CommittedInv(com) && Consistent(com, r.built[i]) ==> r.built[i + 1] == BuildStep(com, r.built[i], r.ops[i]))
  }

  function Built(r: Update): State
    requires r.built != []
  {
    r.built[|r.built| - 1]
  }

  ghost predicate UpdatesTo(com: State, r: Update, com': State) {
    && Builds(com, r)
    && (Consistent(com, Built(r)) ==> NormalizedTo(com, Built(r), r.checked))
    && com' == Commit(com, r.checked)
  }

  lemma {:induction false} BuiltIsConsistent(com: State, r: Update, i: nat)
    requires CommittedInv(com) && Builds(com, r) && i < |r.built|
    ensures Consistent(com, r.built[i])
  {
    if i == 0 {
      var u := r.built[0];
      assert Merged(com, u) == com.planes;
      assert forall p :: PlaneOk(com, u, p);
      assert forall c :: MaskOk(com, u, c);
    } else {
      BuiltIsConsistent(com, r, i - 1);
      assert BuildsAt(com, r, i - 1);
      BuildStepKeeps(com, r.built[i - 1], r.ops[i - 1]);
    }
  }

  ghost predicate RunAt(coms: seq<State>, updates: seq<Update>, i: nat)
    requires i < |updates| && i + 1 < |coms|
  {
    UpdatesTo(coms[i], updates[i], coms[i + 1])
  }

  // Successful updates from a state in which no plane is attached.
  ghost predicate IsRun(coms: seq<State>, updates: seq<Update>) {
    && |coms| == |updates| + 1
    && (forall p :: p in coms[0].planes ==> coms[0].planes[p].crtc == None)
    && (forall c :: c in coms[0].crtcs ==> coms[0].crtcs[c].planeMask == {})
    && (forall j :: 0 <= j < |updates| ==> RunAt(coms, updates, j))
  }

  lemma {:induction false} RunKeepsInv(coms: seq<State>, updates: seq<Update>, i: nat)
    requires IsRun(coms, updates) && i < |coms|
    ensures CommittedInv(coms[i])
    ensures coms[i].crtcs.Keys == coms[0].crtcs.Keys
  {
    if i == 0 {
      forall c
        ensures CrtcOk(coms[0], c)
      {
        assert AttachedTo(coms[0].planes, c) == {};
      }
    } else {
      RunKeepsInv(coms, updates, i - 1);
      assert RunAt(coms, updates, i - 1);
      var com, r := coms[i - 1], updates[i - 1];
      BuiltIsConsistent(com, r, |r.built| - 1);
      CommitKeepsInv(com, Built(r), r.checked);
      forall c
        ensures c in coms[i].crtcs <==> c in com.crtcs
      {
        assert MaskOk(com, Built(r), c);
      }
    }
  }

  // Update j renumbers the planes of the CRTC.
  ghost predicate RenumbersAt(coms: seq<State>, updates: seq<Update>, j: nat, c: CrtcId)
    requires j < |updates| && j < |coms|
  {
    updates[j].built != [] && Renumbers(coms[j], Built(updates[j]), c)
  }

  // The planes that update j gives to the CRTC can be compared.
  ghost predicate ComparableAt(coms: seq<State>, updates: seq<Update>, j: nat, c: CrtcId)
    requires j < |updates| && j < |coms|
  {
    updates[j].built != []
    && var all := Merged(coms[j], Built(updates[j])); Comparable(all, AttachedTo(all, c))
  }

  lemma UpdateRanks(coms: seq<State>, updates: seq<Update>, j: nat, c: CrtcId)
    requires IsRun(coms, updates) && j < |updates| && c in coms[0].crtcs
    requires if RenumbersAt(coms, updates, j, c)
      then ComparableAt(coms, updates, j, c) else Ranked(coms[j].planes, c)
    ensures Ranked(coms[j + 1].planes, c)
  {
    RunKeepsInv(coms, updates, j);
    assert RunAt(coms, updates, j);
    var r := updates[j];
    BuiltIsConsistent(coms[j], r, |r.built| - 1);
    CommitRanks(coms[j], Built(r), r.checked, c);
  }

  // In every run of successful updates, starting with no plane attached, the planes of a CRTC carry
  // normalized_zpos equal to their rank by zpos and id: if the updates that renumbered them since the
  // start, or since one after which they could be compared, all left planes that can be compared.
  lemma {:induction false} RunKeepsRanks(coms: seq<State>, updates: seq<Update>, k: nat, i: nat, c: CrtcId)
    requires IsRun(coms, updates) && k <= i < |coms| && c in coms[0].crtcs
    requires k > 0 ==> RenumbersAt(coms, updates, k - 1, c) && ComparableAt(coms, updates, k - 1, c)
    requires forall j :: k <= j < i ==> RenumbersAt(coms, updates, j, c) ==> ComparableAt(coms, updates, j, c)
    ensures Ranked(coms[i].planes, c)
    decreases i
  {
    if i > k {
      RunKeepsRanks(coms, updates, k, i - 1, c);
      UpdateRanks(coms, updates, i - 1, c);
    } else if k > 0 {
      UpdateRanks(coms, updates, k - 1, c);
    } else {
      assert AttachedTo(coms[0].planes, c) == {};
    }
  }

  /* ---------- two updates ---------- */

  // Three planes, the second and third with the same zpos, and a CRTC without planes.
  const DETACHED: State := State(
    map[0 := PlaneState(30, None, 5, 0), 1 := PlaneState(31, None, 3, 0), 2 := PlaneState(29, None, 3, 0)],
    map[0 := CrtcState({}, false)])

  // The atomic state after the first n planes have been moved to the CRTC.
  function Moved(n: nat): State {
    State(
      map p | p in DETACHED.planes && p < n :: DETACHED.planes[p].(crtc := Some(0)),
      if n == 0 then map[] else map[0 := CrtcState(set p | p in DETACHED.planes && p < n, false)])
  }

  lemma MoveNext(n: nat)
    requires n < 3 && CommittedInv(DETACHED) && Consistent(DETACHED, Moved(n))
    ensures BuildStep(DETACHED, Moved(n), MoveTo(n, Some(0))) == Moved(n + 1)
  {
    var v := AddPlane(DETACHED, Moved(n), n);
    var w := SetCrtc(DETACHED, v, n, Some(0));
    assert w.planes == Moved(n + 1).planes;
    assert w.crtcs[0].planeMask == Moved(n + 1).crtcs[0].planeMask;
  }

  // The planes with their ranks: lowest zpos first, then lowest id.
  const ATTACHED: State := State(
    map[0 := PlaneState(30, Some(0), 5, 2), 1 := PlaneState(31, Some(0), 3, 1), 2 := PlaneState(29, Some(0), 3, 0)],
    map[0 := CrtcState({0, 1, 2}, true)])

  lemma MovedMerged()
    ensures Merged(DETACHED, Moved(3)) == map[
      0 := PlaneState(30, Some(0), 5, 0), 1 := PlaneState(31, Some(0), 3, 0), 2 := PlaneState(29, Some(0), 3, 0)]
  {
  }

  lemma AttachedRanks(all: map<PlaneId, PlaneState>)
    requires all == map[
      0 := PlaneState(30, Some(0), 5, 0), 1 := PlaneState(31, Some(0), 3, 0), 2 := PlaneState(29, Some(0), 3, 0)]
    ensures AttachedTo(all, 0) == {0, 1, 2} && Comparable(all, {0, 1, 2})
    ensures Rank(all, {0, 1, 2}, 0) == 2 && Rank(all, {0, 1, 2}, 1) == 1 && Rank(all, {0, 1, 2}, 2) == 0
  {
    assert AttachedTo(all, 0) == {0, 1, 2};
    assert Below(all, {0, 1, 2}, 0) == {1, 2};
    assert Below(all, {0, 1, 2}, 1) == {2};
    assert Below(all, {0, 1, 2}, 2) == {};
  }

  const FIRST: Update := Update([MoveTo(0, Some(0)), MoveTo(1, Some(0)), MoveTo(2, Some(0))],
                                [Moved(0), Moved(1), Moved(2), Moved(3)], ATTACHED)

  lemma FirstBuildsAt(i: nat)
    requires i < 3
    ensures BuildsAt(DETACHED, FIRST, i)
  {
    assert FIRST.ops[i] == MoveTo(i, Some(0)) && FIRST.built[i] == Moved(i) && FIRST.built[i + 1] == Moved(i + 1);
    if CommittedInv(DETACHED) && Consistent(DETACHED, Moved(i)) {
      MoveNext(i);
    }
  }

  lemma FirstBuilds()
    ensures Builds(DETACHED, FIRST)
  {
    assert Moved(0) == State(map[], map[]);
    forall i | 0 <= i < 3
      ensures BuildsAt(DETACHED, FIRST, i)
    {
      FirstBuildsAt(i);
    }
  }

  lemma FirstNormalizes()
    requires Consistent(DETACHED, Moved(3))
    ensures NormalizedTo(DETACHED, Moved(3), ATTACHED)
  {
    var u := Moved(3);
    MovedMerged();
    AttachedRanks(Merged(DETACHED, u));
    assert u.crtcs[0].planeMask == {0, 1, 2};
    assert Touched(DETACHED, u, 0);
    assert Merged(DETACHED, ATTACHED) == ATTACHED.planes;
    forall p | p in DETACHED.planes
      ensures Expected(DETACHED, u, p, ATTACHED.planes[p])
    {
    }
  }

  lemma FirstRenumbers()
    ensures Renumbers(DETACHED, Moved(3), 0)
  {
    assert 0 in Moved(3).crtcs[0].planeMask;
  }

  lemma FirstCommits()
    ensures Commit(DETACHED, ATTACHED) == ATTACHED
  {
    assert Merged(DETACHED, ATTACHED) == ATTACHED.planes;
    assert DETACHED.crtcs + ATTACHED.crtcs == ATTACHED.crtcs;
  }

  lemma FirstUpdates()
    ensures UpdatesTo(DETACHED, FIRST, ATTACHED)
  {
    assert Builds(DETACHED, FIRST) by { FirstBuilds(); }
    assert Built(FIRST) == Moved(3);
    assert Consistent(DETACHED, Moved(3)) ==> NormalizedTo(DETACHED, Moved(3), ATTACHED) by {
      if Consistent(DETACHED, Moved(3)) {
        FirstNormalizes();
      }
    }
    assert Commit(DETACHED, ATTACHED) == ATTACHED by { FirstCommits(); }
  }

  // The second update fetches a plane, and with it the CRTC.
  const FETCHED: State := State(map[0 := ATTACHED.planes[0]], map[0 := CrtcState({0, 1, 2}, false)])
  const SECOND: Update := Update([TouchPlane(0)], [State(map[], map[]), FETCHED], FETCHED)

  lemma SecondUpdates()
    ensures UpdatesTo(ATTACHED, SECOND, Commit(ATTACHED, FETCHED)) && !Renumbers(ATTACHED, FETCHED, 0)
    ensures Commit(ATTACHED, FETCHED).planes == ATTACHED.planes
  {
    assert AddPlane(ATTACHED, State(map[], map[]), 0) == FETCHED;
    assert BuildsAt(ATTACHED, SECOND, 0);
    assert !Touched(ATTACHED, FETCHED, 0);
    assert Merged(ATTACHED, FETCHED) == ATTACHED.planes;
  }

  // Two updates in a row. k: a CRTC that the first renumbers and the second skips.
  lemma TwoUpdates(a: State, r: Update, b: State, r': Update, c: State, k: CrtcId)
    returns (coms: seq<State>, updates: seq<Update>)
    requires UpdatesTo(a, r, b) && UpdatesTo(b, r', c)
    requires forall p :: p in a.planes ==> a.planes[p].crtc == None
    requires forall d :: d in a.crtcs ==> a.crtcs[d].planeMask == {}
    requires Renumbers(a, Built(r), k) && !Renumbers(b, Built(r'), k)
    ensures IsRun(coms, updates) && coms == [a, b, c] && updates == [r, r']
    ensures RenumbersAt(coms, updates, 0, k) && !RenumbersAt(coms, updates, 1, k)
  {
    coms, updates := [a, b, c], [r, r'];
    assert RunAt(coms, updates, 0) && RunAt(coms, updates, 1);
  }

  lemma FirstOfRun() returns (a: State, r: Update, b: State)
    ensures a == DETACHED && b == ATTACHED && UpdatesTo(a, r, b) && Renumbers(a, Built(r), 0)
    ensures forall p :: p in a.planes ==> a.planes[p].crtc == None
    ensures forall d :: d in a.crtcs ==> a.crtcs[d].planeMask == {}
  {
    a, r, b := DETACHED, FIRST, ATTACHED;
    FirstUpdates();
    FirstRenumbers();
  }

  lemma SecondOfRun(b: State) returns (r: Update, c: State)
    requires b == ATTACHED
    ensures UpdatesTo(b, r, c) && !Renumbers(b, Built(r), 0) && 0 in r.checked.crtcs && c.planes == b.planes
  {
    r, c := SECOND, Commit(ATTACHED, FETCHED);
    SecondUpdates();
  }

  // A run of two updates. The first moves all planes to the CRTC, where they are numbered by zpos and
  // then id. The second has the CRTC in its state, changes nothing about it and skips it; the numbers
  // stay.
  lemma AttachThenSkip() returns (coms: seq<State>, updates: seq<Update>)
    ensures IsRun(coms, updates) && |updates| == 2 && coms[0] == DETACHED
    ensures RenumbersAt(coms, updates, 0, 0) && coms[1] == ATTACHED
    ensures !RenumbersAt(coms, updates, 1, 0) && 0 in updates[1].checked.crtcs && coms[2].planes == ATTACHED.planes
  {
    var a, r, b := FirstOfRun();
    var r', c := SecondOfRun(b);
    coms, updates := TwoUpdates(a, r, b, r', c, 0);
  }

  /* ---------- normalisation as the source carries it out ---------- */

  // The masked planes below n, in the order of the plane list.
  function MaskedBelow(mask: set<PlaneId>, n: nat): seq<PlaneId> {
    if n == 0 then []
    else if n - 1 in mask then MaskedBelow(mask, n - 1) + [n - 1]
    else MaskedBelow(mask, n - 1)
  }

  // They fit in an array with a slot for every plane, and none is listed twice.
  lemma {:induction false} MaskedBelowLists(mask: set<PlaneId>, n: nat)
    ensures |MaskedBelow(mask, n)| <= n
    ensures forall p :: p in MaskedBelow(mask, n) <==> p in mask && p < n
    ensures Distinct(MaskedBelow(mask, n))
  {
    if n > 0 {
      MaskedBelowLists(mask, n - 1);
    }
  }

  lemma {:induction false} MultiplicityOfDistinct(s: seq<PlaneId>)
    ensures Distinct(s) <==> forall p :: multiset(s)[p] <= 1
  {
    if s != [] {
      var rest := s[1..];
      MultiplicityOfDistinct(rest);
      assert s == [s[0]] + rest;
      assert s[0] in rest <==> multiset(rest)[s[0]] >= 1;
      assert forall p :: multiset(s)[p] == multiset(rest)[p] + if p == s[0] then 1 else 0;
      assert Distinct(s) <==> Distinct(rest) && s[0] !in rest by {
        assert forall i :: 0 <= i < |rest| ==> rest[i] == s[i + 1];
      }
    }
  }

  lemma PermutationDistinct(t: seq<PlaneId>, s: seq<PlaneId>)
    requires multiset(t) == multiset(s) && Distinct(s)
    ensures Distinct(t) && Elements(t) == Elements(s) && |t| == |s| == |Elements(s)|
  {
    MultiplicityOfDistinct(s);
    MultiplicityOfDistinct(t);
    SameElements(t, s);
    PrefixSize(s, |s|);
    assert s[..|s|] == s;
  }

  // Some plane of the set got number i.
  ghost predicate Takes(all: map<PlaneId, PlaneState>, s: set<PlaneId>, i: int) {
    exists p :: p in s && p in all && all[p].normalized == i
  }

  // The planes of the set have the numbers 0 to n - 1, each number used once.
  ghost predicate Numbered(all: map<PlaneId, PlaneState>, s: set<PlaneId>) {
    && (forall p :: p in s ==> p in all && 0 <= all[p].normalized < |s|)
    && (forall p, q :: p in s && q in s && p != q ==> all[p].normalized != all[q].normalized)
    && (forall i :: 0 <= i < |s| ==> Takes(all, s, i))
  }

  // The planes of the set are numbered: by rank if they can be compared, and as they compare if there
  // are two. Nothing else changes.
  ghost predicate Renumbered(all: map<PlaneId, PlaneState>, s: set<PlaneId>, all': map<PlaneId, PlaneState>) {
    && s <= all.Keys == all'.Keys
    && (forall p :: p in all && p !in s ==> all'[p] == all[p])
    && (forall p :: p in s ==> all'[p] == all[p].(normalized := all'[p].normalized))
    && Numbered(all', s)
    && (Comparable(all, s) ==> forall p :: p in s ==> all'[p].normalized == Rank(all, s, p))
    && (|s| == 2 ==> forall p, q {:trigger Compare(all[p], all[q])} ::
          p in s && q in s && all'[p].normalized < all'[q].normalized ==> Compare(all[p], all[q]) <= 0)
  }

  // Numbering by index along a sequence of the planes.
  lemma NumberedByIndex(all: map<PlaneId, PlaneState>, s: set<PlaneId>, order: seq<PlaneId>,
    all': map<PlaneId, PlaneState>)
    requires Distinct(order) && Elements(order) == s && |order| == |s| && s <= all.Keys == all'.Keys
    requires forall p :: p in all && p !in s ==> all'[p] == all[p]
    requires forall i :: 0 <= i < |order| ==> all'[order[i]] == all[order[i]].(normalized := i)
    requires Comparable(all, s) ==> Increasing(order, all)
    requires |order| == 2 ==> Compare(all[order[0]], all[order[1]]) <= 0
    ensures Renumbered(all, s, all')
  {
    forall p | p in s
      ensures all'[p] == all[p].(normalized := all'[p].normalized) && 0 <= all'[p].normalized < |s|
      ensures order[all'[p].normalized] == p
      ensures Comparable(all, s) ==> all'[p].normalized == Rank(all, s, p)
    {
      var i :| 0 <= i < |order| && order[i] == p;
      if Comparable(all, s) {
        RankIsIndex(order, all, i);
      }
    }
    forall i | 0 <= i < |s|
      ensures Takes(all', s, i)
    {
      assert order[i] in s;
    }
  }

  // The same, when the new states are numbered that lie over the committed ones.
  lemma NumberedInPlanes(com: map<PlaneId, PlaneState>, planes: map<PlaneId, PlaneState>,
    planes': map<PlaneId, PlaneState>, s: set<PlaneId>, order: seq<PlaneId>)
    requires Distinct(order) && Elements(order) == s && |order| == |s| && s <= planes.Keys == planes'.Keys
    requires forall p :: p in planes && p !in order ==> planes'[p] == planes[p]
    requires forall i :: 0 <= i < |order| ==> planes'[order[i]] == planes[order[i]].(normalized := i)
    requires Comparable(com + planes, s) ==> Increasing(order, com + planes)
    requires |order| == 2 ==> Compare((com + planes)[order[0]], (com + planes)[order[1]]) <= 0
    ensures Renumbered(com + planes, s, com + planes')
  {
    NumberedByIndex(com + planes, s, order, com + planes');
  }

  // Ranks are strictly increasing along the documented order.
  lemma RankIncreases(st: map<PlaneId, PlaneState>, s: set<PlaneId>, p: PlaneId, q: PlaneId)
    requires s <= st.Keys && p in s && q in s && Before(st[p], st[q])
    ensures Rank(st, s, p) < Rank(st, s, q)
  {
    var below, below' := Below(st, s, p), Below(st, s, q);
    assert p !in below && |below + {p}| == |below| + 1;
    assert below + {p} <= below';
    SubsetSize(below + {p}, below');
  }

  lemma SubsetSize(a: set<PlaneId>, b: set<PlaneId>)
    requires a <= b
    ensures |a| <= |b|
  {
    assert b == a + (b - a);
  }

  // Planes more than 2^31 apart compare the wrong way.
  lemma FarCompare(a: PlaneState, b: PlaneState)
    requires InU32(a) && InU32(b) && Gap(a, b) < -TWO_31
    ensures Compare(a, b) > 0
  {
    ModUnique(Gap(a, b) + TWO_31, -1, Gap(a, b) + TWO_31 + TWO_32, TWO_32);
  }

  // Of two planes, each gets its own rank if they are less than 2^31 apart, and the other's if they are
  // more than that apart.
  lemma TwoRankedIff(all: map<PlaneId, PlaneState>, p: PlaneId, q: PlaneId, all': map<PlaneId, PlaneState>)
    requires p in all && q in all && InU32(all[p]) && InU32(all[q])
    requires Gap(all[p], all[q]) != 0 && Abs(Gap(all[p], all[q])) != TWO_31 && Renumbered(all, {p, q}, all')
    ensures all'[p].normalized == Rank(all, {p, q}, p) && all'[q].normalized == Rank(all, {p, q}, q)
      <==> Abs(Gap(all[p], all[q])) < TWO_31
  {
    var s := {p, q};
    assert p != q && |s| == 2;
    if Abs(Gap(all[p], all[q])) < TWO_31 {
      assert Comparable(all, s);
    } else if Before(all[p], all[q]) {
      FarCompare(all[p], all[q]);
      RankIncreases(all, s, p, q);
    } else {
      FarCompare(all[q], all[p]);
      RankIncreases(all, s, q, p);
    }
  }

  // The error of the first listed plane that has no new state yet and cannot get one, or 0.
  function FirstFault(known: set<PlaneId>, faults: map<PlaneId, int>, list: seq<PlaneId>): (r: int)
    ensures r != 0 ==> exists p :: p in faults && faults[p] == r
  {
    if list == [] then 0
    else
      var r, p := FirstFault(known, faults, list[..|list| - 1]), list[|list| - 1];
      if r != 0 || p in known || p !in faults then r else faults[p]
  }

  lemma {:induction false} FaultStays(known: set<PlaneId>, faults: map<PlaneId, int>, mask: set<PlaneId>,
    m: nat, n: nat)
    requires m <= n && FirstFault(known, faults, MaskedBelow(mask, m)) != 0
    ensures FirstFault(known, faults, MaskedBelow(mask, n)) == FirstFault(known, faults, MaskedBelow(mask, m))
    decreases n
  {
    if m < n {
      FaultStays(known, faults, mask, m, n - 1);
      if n - 1 in mask {
        assert MaskedBelow(mask, n)[..|MaskedBelow(mask, n)| - 1] == MaskedBelow(mask, n - 1);
      }
    }
  }

  lemma FaultNext(known: set<PlaneId>, faults: map<PlaneId, int>, mask: set<PlaneId>, p: PlaneId)
    requires p in mask && FirstFault(known, faults, MaskedBelow(mask, p)) == 0
    ensures FirstFault(known, faults, MaskedBelow(mask, p + 1)) == if p in known || p !in faults then 0 else faults[p]
  {
    assert MaskedBelow(mask, p + 1)[..|MaskedBelow(mask, p)|] == MaskedBelow(mask, p);
  }

  // Some plane below n changes its zpos and goes to the CRTC.
  predicate ChangedBelow(com: State, planes: map<PlaneId, PlaneState>, c: CrtcId, n: nat) {
    exists p | 0 <= p < n ::
      p in planes && p in com.planes && planes[p].crtc == Some(c) && com.planes[p].zpos != planes[p].zpos
  }

  lemma TouchedIff(com: State, u: State, c: CrtcId, n: nat)
    requires c in com.crtcs && c in u.crtcs && forall p :: p in com.planes <==> p < n
    ensures Touched(com, u, c) <==>
      com.crtcs[c].planeMask != u.crtcs[c].planeMask || ChangedBelow(com, u.planes, c, n)
  {
  }

  // A touched CRTC's planes are numbered, whatever their z-positions.
  ghost predicate NumberedAt(com: State, u: State, v: State, c: CrtcId) {
    c in u.crtcs && c in com.crtcs && Touched(com, u, c) ==> Numbered(Merged(com, v), u.crtcs[c].planeMask)
  }

  lemma NumberedStays(all: map<PlaneId, PlaneState>, s: set<PlaneId>, t: set<PlaneId>,
    all': map<PlaneId, PlaneState>)
    requires Numbered(all, s) && Renumbered(all, t, all') && s !! t
    ensures Numbered(all', s)
  {
    forall i | 0 <= i < |s|
      ensures Takes(all', s, i)
    {
      assert Takes(all, s, i);
    }
  }

  lemma NumberedNext(com: State, u: State, v: State, v': State, c: CrtcId)
    requires Consistent(com, u) && c in u.crtcs
    requires forall k :: 0 <= k < c ==> NumberedAt(com, u, v, k)
    requires Renumbered(Merged(com, v), u.crtcs[c].planeMask, Merged(com, v'))
    ensures forall k :: 0 <= k < c + 1 ==> NumberedAt(com, u, v', k)
  {
    forall k | 0 <= k < c + 1
      ensures NumberedAt(com, u, v', k)
    {
      if k < c && k in u.crtcs && k in com.crtcs && Touched(com, u, k) {
        assert NumberedAt(com, u, v, k) && MaskOk(com, u, k) && MaskOk(com, u, c);
        NumberedStays(Merged(com, v), u.crtcs[k].planeMask, u.crtcs[c].planeMask, Merged(com, v'));
      }
    }
  }

  lemma FlagsNext(com: State, u: State, v: State, v': State, c: CrtcId)
    requires c in com.crtcs && c in u.crtcs && c in v.crtcs && Touched(com, u, c)
    requires forall k :: 0 <= k < c ==> FlagOk(com, u, v, k)
    requires v'.crtcs == v.crtcs[c := v.crtcs[c].(zposChanged := true)]
    ensures forall k :: 0 <= k < c + 1 ==> FlagOk(com, u, v', k)
  {
    forall k | 0 <= k < c + 1
      ensures FlagOk(com, u, v', k)
    {
      assert k < c ==> FlagOk(com, u, v, k);
    }
  }

  // The touched CRTCs below n have been normalised, and nothing else has changed.
  ghost predicate DoneBelow(com: State, u: State, n: nat, p: PlaneId, s: PlaneState)
    requires Consistent(com, u) && p in com.planes
  {
    var all := Merged(com, u);
    if all[p].crtc.Some? && all[p].crtc.value < n then Expected(com, u, p, s) else s == all[p]
  }

  ghost predicate Progress(com: State, u: State, v: State, n: nat)
    requires Consistent(com, u)
  {
    && Merged(com, v).Keys == com.planes.Keys
    && forall p :: p in com.planes ==> DoneBelow(com, u, n, p, Merged(com, v)[p])
  }

  lemma ProgressKeys(com: State, u: State, v: State, n: nat)
    requires Consistent(com, u) && Progress(com, u, v, n)
    ensures Merged(com, u).Keys == Merged(com, v).Keys == com.planes.Keys
    ensures forall p :: p in com.planes ==>
      Merged(com, v)[p] == Merged(com, u)[p].(normalized := Merged(com, v)[p].normalized)
  {
    MergedKeys(com, u);
    forall p | p in com.planes
      ensures Merged(com, v)[p] == Merged(com, u)[p].(normalized := Merged(com, v)[p].normalized)
    {
      assert DoneBelow(com, u, n, p, Merged(com, v)[p]);
    }
  }

  // Renumbering after other CRTCs have been renumbered gives the same ranks.
  lemma RenumberedLater(all: map<PlaneId, PlaneState>, mid: map<PlaneId, PlaneState>, s: set<PlaneId>,
    end: map<PlaneId, PlaneState>)
    requires mid.Keys == all.Keys && forall p :: p in all ==> mid[p] == all[p].(normalized := mid[p].normalized)
    requires Renumbered(mid, s, end)
    ensures forall p :: p in s ==> end[p] == all[p].(normalized := end[p].normalized)
    ensures Comparable(all, s) ==> forall p :: p in s ==> end[p].normalized == Rank(all, s, p)
    ensures forall p :: p in all && p !in s ==> end[p] == mid[p]
  {
    if Comparable(all, s) {
      forall p, q | p in s && q in s && p != q
        ensures Near(mid[p], mid[q])
      {
        assert Near(all[p], all[q]);
      }
    }
    forall p | p in s
      ensures Rank(all, s, p) == Rank(mid, s, p)
    {
      SameRank(all, mid, s, p);
    }
  }

  // One plane, when CRTC c has been renumbered.
  lemma DoneNext(com: State, u: State, c: CrtcId, p: PlaneId, before: PlaneState, after: PlaneState)
    requires Consistent(com, u) && p in com.planes && p in Merged(com, u) && DoneBelow(com, u, c, p, before)
    requires c in com.crtcs && c in u.crtcs && Touched(com, u, c)
    requires var all, s := Merged(com, u), AttachedTo(Merged(com, u), c);
      if p in s
      then
        && after == all[p].(normalized := after.normalized)
        && (Comparable(all, s) ==> after.normalized == Rank(all, s, p))
      else after == before
    ensures DoneBelow(com, u, c + 1, p, after)
  {
  }

  lemma ProgressTouched(com: State, u: State, v: State, v': State, c: CrtcId)
    requires Consistent(com, u) && Progress(com, u, v, c)
    requires c in com.crtcs && c in u.crtcs && Touched(com, u, c)
    requires Renumbered(Merged(com, v), u.crtcs[c].planeMask, Merged(com, v'))
    ensures Progress(com, u, v', c + 1)
  {
    var all, mid, end, s := Merged(com, u), Merged(com, v), Merged(com, v'), AttachedTo(Merged(com, u), c);
    assert MaskOk(com, u, c);
    ProgressKeys(com, u, v, c);
    RenumberedLater(all, mid, s, end);
    forall p | p in com.planes
      ensures DoneBelow(com, u, c + 1, p, end[p])
    {
      assert DoneBelow(com, u, c, p, mid[p]);
      DoneNext(com, u, c, p, mid[p], end[p]);
    }
  }

  lemma ProgressSkipped(com: State, u: State, v: State, c: CrtcId)
    requires Consistent(com, u) && Progress(com, u, v, c)
    requires c in u.crtcs ==> c in com.crtcs && !Touched(com, u, c)
    ensures Progress(com, u, v, c + 1)
  {
    forall p | p in com.planes
      ensures DoneBelow(com, u, c + 1, p, Merged(com, v)[p])
    {
      assert DoneBelow(com, u, c, p, Merged(com, v)[p]);
    }
  }

  lemma ProgressEnd(com: State, u: State, v: State, n: nat)
    requires Consistent(com, u) && Progress(com, u, v, n) && forall c :: c in com.crtcs ==> c < n
    requires v.crtcs.Keys == u.crtcs.Keys
    requires forall c :: c in u.crtcs ==> v.crtcs[c].planeMask == u.crtcs[c].planeMask
    requires forall c :: c in u.crtcs ==> FlagOk(com, u, v, c)
    ensures NormalizedTo(com, u, v)
  {
    forall p | p in com.planes
      ensures Expected(com, u, p, Merged(com, v)[p])
    {
      var all := Merged(com, u);
      assert DoneBelow(com, u, n, p, Merged(com, v)[p]);
      if all[p].crtc.Some? {
        assert MaskOk(com, u, all[p].crtc.value);
      }
    }
  }

  // The sort compares the states of the masked planes, which are those of the merged map.
  lemma SortAgrees(t: seq<PlaneId>, s: seq<PlaneId>, st: map<PlaneId, PlaneState>, all: map<PlaneId, PlaneState>)
    requires (forall p :: p in s ==> p in st) && IsSortOf(t, s, st) && Distinct(s)
    requires forall p :: p in st ==> p in all && all[p] == st[p]
    ensures forall p :: p in t ==> p in all
    ensures Comparable(all, Elements(s)) ==> Increasing(t, all)
    ensures |t| == 2 ==> Compare(all[t[0]], all[t[1]]) <= 0
  {
    if Comparable(all, Elements(s)) {
      assert Comparable(st, Elements(s));
    }
  }

  // The plane cannot be looked up when the CRTC's planes are gathered.
  predicate Unavailable(known: set<PlaneId>, faults: map<PlaneId, int>, p: PlaneId) {
    p !in known && p in faults && faults[p] != 0
  }

  lemma {:induction false} FaultIff(known: set<PlaneId>, faults: map<PlaneId, int>, list: seq<PlaneId>)
    ensures FirstFault(known, faults, list) != 0 <==> exists p :: p in list && Unavailable(known, faults, p)
    decreases |list|
  {
    if list != [] {
      var last := list[|list| - 1];
      FaultIff(known, faults, list[..|list| - 1]);
      assert list == list[..|list| - 1] + [last];
      assert last in list;
    }
  }

  lemma {:induction false} SameFault(known: set<PlaneId>, known': set<PlaneId>, faults: map<PlaneId, int>,
    list: seq<PlaneId>)
    requires forall p :: p in list ==> (p in known <==> p in known')
    ensures FirstFault(known, faults, list) == FirstFault(known', faults, list)
    decreases |list|
  {
    if list != [] {
      SameFault(known, known', faults, list[..|list| - 1]);
    }
  }

  // What renumbering the planes of the CRTC comes to: nothing if they are left alone, else what the
  // allocation and the lookups say.
  ghost function CrtcError(com: State, u: State, c: CrtcId, allocFails: set<CrtcId>, faults: map<PlaneId, int>,
    n: nat): int
  {
    if !Renumbers(com, u, c) then 0
    else if c in allocFails then -ENOMEM
    else FirstFault(u.planes.Keys, faults, MaskedBelow(u.crtcs[c].planeMask, n))
  }

  // The first error of the CRTCs below m.
  ghost function FirstError(com: State, u: State, m: nat, allocFails: set<CrtcId>, faults: map<PlaneId, int>,
    n: nat): int
  {
    if m == 0 then 0
    else
      var e := FirstError(com, u, m - 1, allocFails, faults, n);
      if e != 0 then e else CrtcError(com, u, m - 1, allocFails, faults, n)
  }

  lemma {:induction false} ErrorStays(com: State, u: State, m: nat, k: nat, allocFails: set<CrtcId>,
    faults: map<PlaneId, int>, n: nat)
    requires m <= k && FirstError(com, u, m, allocFails, faults, n) != 0
    ensures FirstError(com, u, k, allocFails, faults, n) == FirstError(com, u, m, allocFails, faults, n)
    decreases k
  {
    if m < k {
      ErrorStays(com, u, m, k - 1, allocFails, faults, n);
    }
  }

  // The CRTC cannot be renumbered: there is no memory, or one of its planes cannot be looked up.
  ghost predicate Stuck(com: State, u: State, c: CrtcId, allocFails: set<CrtcId>, faults: map<PlaneId, int>) {
    && Renumbers(com, u, c)
    && (c in allocFails || exists p :: p in u.crtcs[c].planeMask && Unavailable(u.planes.Keys, faults, p))
  }

  lemma StuckIff(com: State, u: State, c: CrtcId, allocFails: set<CrtcId>, faults: map<PlaneId, int>, n: nat)
    requires Consistent(com, u) && forall p :: p in com.planes <==> p < n
    ensures CrtcError(com, u, c, allocFails, faults, n) != 0 <==> Stuck(com, u, c, allocFails, faults)
  {
    if Renumbers(com, u, c) {
      var mask := u.crtcs[c].planeMask;
      assert MaskOk(com, u, c);
      MergedKeys(com, u);
      MaskedBelowLists(mask, n);
      FaultIff(u.planes.Keys, faults, MaskedBelow(mask, n));
      assert forall p :: p in mask <==> p in MaskedBelow(mask, n);
    }
  }

  // Normalisation fails exactly if some CRTC that has to be renumbered cannot be.
  lemma {:induction false} FailsIff(com: State, u: State, m: nat, allocFails: set<CrtcId>, faults: map<PlaneId, int>,
    n: nat)
    requires Consistent(com, u) && forall p :: p in com.planes <==> p < n
    ensures FirstError(com, u, m, allocFails, faults, n) != 0 <==>
      exists c :: 0 <= c < m && Stuck(com, u, c, allocFails, faults)
    decreases m
  {
    if m > 0 {
      FailsIff(com, u, m - 1, allocFails, faults, n);
      StuckIff(com, u, m - 1, allocFails, faults, n);
    }
  }

  // The planes that have new states: those of before, and planes of CRTCs below n.
  predicate KnownOk(com: State, u: State, v: State, n: nat, p: PlaneId) {
    && (p in u.planes ==> p in v.planes)
    && (p in v.planes && p !in u.planes ==>
          p in com.planes && com.planes[p].crtc.Some? && com.planes[p].crtc.value < n)
  }

  ghost predicate AllKnown(com: State, u: State, v: State, n: nat) {
    forall p :: KnownOk(com, u, v, n, p)
  }

  // So no plane of CRTC n has got one.
  lemma KnownOfCrtc(com: State, u: State, v: State, c: CrtcId, p: PlaneId)
    requires Consistent(com, u) && c in u.crtcs && p in u.crtcs[c].planeMask && AllKnown(com, u, v, c)
    ensures p in u.planes <==> p in v.planes
  {
    assert MaskOk(com, u, c) && KnownOk(com, u, v, c, p);
  }

  lemma KnownNext(com: State, u: State, v: State, v': State, c: CrtcId, n: nat)
    requires Consistent(com, u) && AllKnown(com, u, v, c) && n == c + 1 && v.planes.Keys <= v'.planes.Keys
    requires forall p :: p in v'.planes ==> p in v.planes || (c in u.crtcs && p in u.crtcs[c].planeMask)
    ensures AllKnown(com, u, v', n)
  {
    forall p
      ensures KnownOk(com, u, v', n, p)
    {
      assert KnownOk(com, u, v, c, p) && MaskOk(com, u, c) && PlaneOk(com, u, p);
    }
  }

  // The state of the second loop of drm_atomic_normalize_zpos when CRTC n is next.
  ghost predicate Normalizing(com: State, u: State, v: State, n: nat, numPlanes: nat)
    requires Consistent(com, u)
  {
    && v.crtcs.Keys == u.crtcs.Keys
    && (forall c :: c in u.crtcs ==> v.crtcs[c].planeMask == u.crtcs[c].planeMask)
    && (forall c :: n <= c && c in u.crtcs ==> v.crtcs[c].zposChanged == ChangedBelow(com, u.planes, c, numPlanes))
    && Progress(com, u, v, n)
    && (forall c :: 0 <= c < n ==> NumberedAt(com, u, v, c))
    && (forall c :: 0 <= c < n ==> FlagOk(com, u, v, c))
    && AllKnown(com, u, v, n)
  }

  // The flags have been set by the first loop, and nothing else has been done.
  lemma NormalizingStarts(com: State, u: State, v: State, numPlanes: nat)
    requires Consistent(com, u) && v.planes == u.planes && v.crtcs.Keys == u.crtcs.Keys
    requires forall c :: c in u.crtcs ==>
      v.crtcs[c] == u.crtcs[c].(zposChanged := ChangedBelow(com, u.planes, c, numPlanes))
    ensures Normalizing(com, u, v, 0, numPlanes)
  {
    MergedKeys(com, u);
  }

  lemma NormalizingEnds(com: State, u: State, v: State, n: nat, numPlanes: nat)
    requires Consistent(com, u) && Normalizing(com, u, v, n, numPlanes) && forall c :: c in com.crtcs <==> c < n
    ensures NormalizedTo(com, u, v) && forall c :: c in com.crtcs ==> NumberedAt(com, u, v, c)
  {
    assert forall c :: c in u.crtcs ==> MaskOk(com, u, c);
    ProgressEnd(com, u, v, n);
  }

  // A touched CRTC has been renumbered.
  lemma NormalizingNext(com: State, u: State, v: State, v': State, c: CrtcId, numPlanes: nat)
    requires Consistent(com, u) && Normalizing(com, u, v, c, numPlanes)
    requires c in com.crtcs && c in u.crtcs && Touched(com, u, c)
    requires v'.crtcs == v.crtcs[c := v.crtcs[c].(zposChanged := true)]
    requires Renumbered(Merged(com, v), u.crtcs[c].planeMask, Merged(com, v'))
    requires v.planes.Keys <= v'.planes.Keys
    requires forall p :: p in v'.planes ==> p in v.planes || p in u.crtcs[c].planeMask
    ensures Normalizing(com, u, v', c + 1, numPlanes)
  {
    NumberedNext(com, u, v, v', c);
    ProgressTouched(com, u, v, v', c);
    FlagsNext(com, u, v, v', c);
    KnownNext(com, u, v, v', c, c + 1);
  }

  // One has been skipped.
  lemma NormalizingSkips(com: State, u: State, v: State, c: CrtcId, numPlanes: nat)
    requires Consistent(com, u) && Normalizing(com, u, v, c, numPlanes)
    requires c in u.crtcs ==> c in com.crtcs && !Touched(com, u, c) && !v.crtcs[c].zposChanged
    ensures Normalizing(com, u, v, c + 1, numPlanes)
  {
    assert FlagOk(com, u, v, c);
    KnownNext(com, u, v, v, c, c + 1);
    ProgressSkipped(com, u, v, c);
  }

  class AtomicState {
    const com: State
    const numPlanes: nat
    const numCrtcs: nat
    var planes: map<PlaneId, PlaneState>
    var crtcs: map<CrtcId, CrtcState>

    function View(): State
      reads this
    {
      State(planes, crtcs)
    }

    // Planes and CRTCs are numbered without gaps.
    ghost predicate Indexed() {
      (forall p :: p in com.planes <==> p < numPlanes) && (forall c :: c in com.crtcs <==> c < numCrtcs)
    }

    constructor (com: State, numPlanes: nat, numCrtcs: nat)
      requires forall p :: p in com.planes <==> p < numPlanes
      requires forall c :: c in com.crtcs <==> c < numCrtcs
      ensures Indexed() && this.com == com && View() == State(map[], map[])
    {
      this.com, this.numPlanes, this.numCrtcs := com, numPlanes, numCrtcs;
      planes, crtcs := map[], map[];
    }

    // drm_atomic_get_plane_state for a plane whose CRTC is part of the atomic state: taking the
    // plane's lock or duplicating its state may fail with the error given for it.
    method Lookup(p: PlaneId, faults: map<PlaneId, int>) returns (ret: int)
      requires p in com.planes
      modifies this`planes
      ensures Merged(com, View()) == old(Merged(com, View())) && old(planes).Keys <= planes.Keys
      ensures forall q :: q in planes ==> q in old(planes) || q == p
      ensures ret == if p in old(planes) || p !in faults then 0 else faults[p]
      ensures ret == 0 ==> p in planes && planes[p] == Merged(com, View())[p]
    {
      if p in planes {
        return 0;
      }
      if p in faults && faults[p] != 0 {
        return faults[p];
      }
      planes := planes[p := com.planes[p]];
      assert Merged(com, View()) == old(Merged(com, View()));
      return 0;
    }

    // One pass of the gathering loop. known: the planes that had new states before the loop.
    method Collect(states: array<PlaneId>, n: nat, p: PlaneId, mask: set<PlaneId>, faults: map<PlaneId, int>,
      ghost known: set<PlaneId>) returns (ret: int, n': nat)
      requires p in com.planes && n <= p < states.Length && states[..n] == MaskedBelow(mask, p)
      requires FirstFault(known, faults, MaskedBelow(mask, p)) == 0
      requires known <= planes.Keys && forall q :: q in planes ==> q in known || q < p
      modifies this`planes, states
      ensures Merged(com, View()) == old(Merged(com, View())) && old(planes).Keys <= planes.Keys
      ensures forall q :: q in planes ==> q in known || q <= p
      ensures forall q :: q in planes ==> q in old(planes) || q in mask
      ensures ret == FirstFault(known, faults, MaskedBelow(mask, p + 1))
      ensures ret == 0 ==> n' <= p + 1 && states[..n'] == MaskedBelow(mask, p + 1) && (p in mask ==> p in planes)
    {
      ret, n' := 0, n;
      if p in mask {
        FaultNext(known, faults, mask, p);
        ret := Lookup(p, faults);
        if ret == 0 {
          states[n] := p;
          n' := n + 1;
        }
      }
    }

    // The gathering loop: the masked planes in list order, or the first error.
    method Gather(states: array<PlaneId>, mask: set<PlaneId>, faults: map<PlaneId, int>) returns (ret: int, n: nat)
      requires Indexed() && states.Length == numPlanes && forall p :: p in mask ==> p in com.planes
      modifies this`planes, states
      ensures Merged(com, View()) == old(Merged(com, View()))
      ensures ret == FirstFault(old(planes).Keys, faults, MaskedBelow(mask, numPlanes))
      ensures ret == 0 ==> n <= numPlanes && states[..n] == MaskedBelow(mask, numPlanes)
      ensures ret == 0 ==> mask <= planes.Keys
      ensures old(planes).Keys <= planes.Keys && forall q :: q in planes ==> q in old(planes) || q in mask
    {
      ghost var known := planes.Keys;
      n := 0;
      for p := 0 to numPlanes
        invariant n <= p && states[..n] == MaskedBelow(mask, p)
        invariant FirstFault(known, faults, MaskedBelow(mask, p)) == 0
        invariant known <= planes.Keys && forall q :: q in planes ==> q in known || q < p
        invariant Merged(com, View()) == old(Merged(com, View()))
        invariant forall q :: q in mask && q < p ==> q in planes
        invariant forall q :: q in planes ==> q in known || q in mask
      {
        ret, n := Collect(states, n, p, mask, faults, known);
        if ret != 0 {
          FaultStays(known, faults, mask, p + 1, numPlanes);
          return;
        }
      }
      ret := 0;
    }

    // The call of the library sort.
    method Order(states: array<PlaneId>, n: nat, mask: set<PlaneId>, ghost all: map<PlaneId, PlaneState>)
      requires Indexed() && (forall p :: p in mask ==> p in com.planes) && mask <= planes.Keys
      requires n <= states.Length && states[..n] == MaskedBelow(mask, numPlanes) && all == Merged(com, View())
      modifies states
      ensures Distinct(states[..n]) && Elements(states[..n]) == mask && n == |mask|
      ensures (forall p :: p in states[..n] ==> p in all) && (Comparable(all, mask) ==> Increasing(states[..n], all))
      ensures n == 2 ==> Compare(all[states[0]], all[states[1]]) <= 0
    {
      ghost var list := states[..n];
      MaskedBelowLists(mask, numPlanes);
      assert Elements(list) == mask;
      Sort(states, n, planes);
      PermutationDistinct(states[..n], list);
      SortAgrees(states[..n], list, planes, all);
    }

    // The numbering loop.
    method Number(states: array<PlaneId>, n: nat)
      requires n <= states.Length && Distinct(states[..n])
      requires forall i :: 0 <= i < n ==> states[i] in planes
      modifies this`planes
      ensures planes.Keys == old(planes).Keys
      ensures forall p :: p in planes && p !in states[..n] ==> planes[p] == old(planes)[p]
      ensures forall i :: 0 <= i < n ==> planes[states[i]] == old(planes)[states[i]].(normalized := i)
    {
      for i := 0 to n
        invariant planes.Keys == old(planes).Keys
        invariant forall p :: p in planes && p !in states[..i] ==> planes[p] == old(planes)[p]
        invariant forall k :: 0 <= k < i ==> planes[states[k]] == old(planes)[states[k]].(normalized := k)
      {
        assert states[i] !in states[..i] by {
          assert forall k :: 0 <= k < i ==> states[..n][k] == states[k];
          assert states[..n][i] == states[i];
        }
        planes := planes[states[i] := planes[states[i]].(normalized := i)];
      }
    }

    // What is done with the gathered planes.
    method OrderAndNumber(states: array<PlaneId>, n: nat, mask: set<PlaneId>)
      requires Indexed() && (forall p :: p in mask ==> p in com.planes) && mask <= planes.Keys
      requires n <= states.Length && states[..n] == MaskedBelow(mask, numPlanes)
      modifies this`planes, states
      ensures planes.Keys == old(planes).Keys
      ensures Renumbered(old(Merged(com, View())), mask, Merged(com, View()))
    {
      ghost var before := planes;
      Order(states, n, mask, Merged(com, View()));
      Number(states, n);
      NumberedInPlanes(com.planes, before, planes, mask, states[..n]);
    }

    // drm_atomic_helper_crtc_normalize_zpos
    method NormalizeCrtc(c: CrtcId, allocOk: bool, faults: map<PlaneId, int>) returns (ret: int)
      requires Indexed() && c in crtcs && forall p :: p in crtcs[c].planeMask ==> p in com.planes
      modifies this
      ensures ret ==
        if allocOk then FirstFault(old(planes).Keys, faults, MaskedBelow(old(crtcs)[c].planeMask, numPlanes))
        else -ENOMEM
      ensures ret != 0 ==> crtcs == old(crtcs) && Merged(com, View()) == old(Merged(com, View()))
      ensures old(planes).Keys <= planes.Keys
      ensures forall p :: p in planes ==> p in old(planes) || p in old(crtcs)[c].planeMask
      ensures ret == 0 ==>
        && crtcs == old(crtcs)[c := old(crtcs)[c].(zposChanged := true)]
        && Renumbered(old(Merged(com, View())), old(crtcs)[c].planeMask, Merged(com, View()))
    {
      if !allocOk {
        return -ENOMEM;
      }
      var states := new PlaneId[numPlanes];
      var mask := crtcs[c].planeMask;
      var n;
      ret, n := Gather(states, mask, faults);
      if ret != 0 {
        return;
      }
      OrderAndNumber(states, n, mask);
      crtcs := crtcs[c := crtcs[c].(zposChanged := true)];
    }

    // The first loop of drm_atomic_normalize_zpos.
    method MarkChanged()
      requires Indexed() && Consistent(com, View())
      modifies this`crtcs
      ensures crtcs.Keys == old(crtcs).Keys
      ensures forall c :: c in crtcs ==>
        crtcs[c] == old(crtcs)[c].(zposChanged := ChangedBelow(com, planes, c, numPlanes))
    {
      forall c | c in crtcs
        ensures !crtcs[c].zposChanged
      {
        assert MaskOk(com, View(), c);
      }
      for p := 0 to numPlanes
        invariant crtcs.Keys == old(crtcs).Keys
        invariant forall c :: c in crtcs ==>
          crtcs[c] == old(crtcs)[c].(zposChanged := ChangedBelow(com, planes, c, p))
      {
        assert PlaneOk(com, old(View()), p);
        if p in planes && planes[p].crtc.Some? && com.planes[p].zpos != planes[p].zpos {
          var c := planes[p].crtc.value;
          crtcs := crtcs[c := crtcs[c].(zposChanged := true)];
        }
      }
    }

    // What earlier passes added to the state does not matter to the lookups of this one.
    lemma SameErrors(u: State, c: CrtcId, faults: map<PlaneId, int>)
      requires Consistent(com, u) && c in u.crtcs && AllKnown(com, u, View(), c)
      ensures var list := MaskedBelow(u.crtcs[c].planeMask, numPlanes);
        FirstFault(planes.Keys, faults, list) == FirstFault(u.planes.Keys, faults, list)
    {
      var mask := u.crtcs[c].planeMask;
      MaskedBelowLists(mask, numPlanes);
      forall p | p in MaskedBelow(mask, numPlanes)
        ensures p in planes.Keys <==> p in u.planes.Keys
      {
        KnownOfCrtc(com, u, View(), c, p);
      }
      SameFault(planes.Keys, u.planes.Keys, faults, MaskedBelow(mask, numPlanes));
    }

    // The pass for a CRTC whose planes or z-positions changed.
    method Renumber(c: CrtcId, allocFails: set<CrtcId>, faults: map<PlaneId, int>, ghost u: State) returns (ret: int)
      requires Indexed() && Consistent(com, u) && Normalizing(com, u, View(), c, numPlanes)
      requires c in com.crtcs && c in u.crtcs
      requires Touched(com, u, c)
      modifies this
      ensures ret == CrtcError(com, u, c, allocFails, faults, numPlanes)
      ensures ret == 0 ==> Normalizing(com, u, View(), c + 1, numPlanes)
    {
      ghost var v := View();
      assert forall p :: p in crtcs[c].planeMask ==> p in com.planes by {
        assert MaskOk(com, u, c);
        MergedKeys(com, u);
      }
      SameErrors(u, c, faults);
      ret := NormalizeCrtc(c, c !in allocFails, faults);
      if ret == 0 {
        NormalizingNext(com, u, v, View(), c, numPlanes);
      }
    }

    // One pass of that loop.
    method Visit(c: CrtcId, allocFails: set<CrtcId>, faults: map<PlaneId, int>, ghost u: State) returns (ret: int)
      requires Indexed() && Consistent(com, u) && Normalizing(com, u, View(), c, numPlanes) && c in com.crtcs
      modifies this
      ensures ret == CrtcError(com, u, c, allocFails, faults, numPlanes)
      ensures ret == 0 ==> Normalizing(com, u, View(), c + 1, numPlanes)
    {
      if c in crtcs {
        TouchedIff(com, u, c, numPlanes);
        if com.crtcs[c].planeMask != crtcs[c].planeMask || crtcs[c].zposChanged {
          ret := Renumber(c, allocFails, faults, u);
          return;
        }
      }
      NormalizingSkips(com, u, View(), c, numPlanes);
      return 0;
    }

    // drm_atomic_normalize_zpos
    method NormalizeZpos(allocFails: set<CrtcId>, faults: map<PlaneId, int>) returns (ret: int)
      requires Indexed() && Consistent(com, View())
      modifies this
      ensures ret == 0 ==> NormalizedTo(com, old(View()), View())
      ensures ret == 0 ==> forall c :: c in com.crtcs ==> NumberedAt(com, old(View()), View(), c)
      ensures ret == FirstError(com, old(View()), numCrtcs, allocFails, faults, numPlanes)
    {
      ghost var u := View();
      MarkChanged();
      NormalizingStarts(com, u, View(), numPlanes);
      for c := 0 to numCrtcs
        invariant Normalizing(com, u, View(), c, numPlanes) && FirstError(com, u, c, allocFails, faults, numPlanes) == 0
      {
        ret := Visit(c, allocFails, faults, u);
        if ret != 0 {
          ErrorStays(com, u, c + 1, numCrtcs, allocFails, faults, numPlanes);
          return;
        }
      }
      NormalizingEnds(com, u, View(), numCrtcs, numPlanes);
      ret := 0;
    }
  }
}
