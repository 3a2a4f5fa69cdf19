/** Masters and authentication of primary-node clients (drivers/gpu/drm/drm_auth.c).

    Everything that happens under master_mutex is one operation. Masters and files live in maps
    from addresses to contents: destroying a master removes its address, and a new master may get
    an address that was used before. What the allocator, the IDR and the driver hooks answer is
    part of the operation. `Step` gives the net effect of an operation; the class `DrmDevice`
    carries it out as the source does, reference by reference, with its roll-back paths.
  */
module DrmAuth {
  import opened Errno
  import opened Options

  type MasterId = nat
  type FileId = nat

  // magic: the IDR of tokens, where an entry may have been replaced by NULL.
  datatype Master = Master(refcount: int, magic: map<int, Option<FileId>>)

  datatype File = File(master: Option<MasterId>, isMaster: bool, authenticated: bool, magic: int)

  datatype Device = Device(
    master: Option<MasterId>,
    masters: map<MasterId, Master>,
    files: map<FileId, File>)

  const Initial: Device := Device(None, map[], map[])

  // The answers drm_new_set_master and drm_set_master depend on: the address of a new master or
  // NULL, and what the hooks master_create and master_set return (0 where there is no hook).
  datatype Hooks = Hooks(addr: Option<MasterId>, createRet: int, setRet: int)

  datatype Op =
    | Open(file: FileId, admin: bool, hooks: Hooks)
    | Release(file: FileId)
    | SetMaster(file: FileId, hooks: Hooks)
    | DropMaster(file: FileId)
    | GetMagic(file: FileId, idr: int)     // idr: the id idr_alloc picks, or a negative error
    | AuthMagic(file: FileId, magic: int)

  /* ---------- reference counts ---------- */

  function FilesOf(files: map<FileId, File>, m: MasterId): set<FileId> {
    set f | f in files && files[f].master == Some(m)
  }

  // How many pointers lead to the master.
  function Refs(d: Device, m: MasterId): int {
    |FilesOf(d.files, m)| + if d.master == Some(m) then 1 else 0
  }

  predicate RefOk(d: Device, m: MasterId) {
    m in d.masters ==> d.masters[m].refcount == Refs(d, m) >= 1
  }

  predicate FileOk(d: Device, f: FileId) {
    f in d.files ==> d.files[f].master.Some? && d.files[f].master.value in d.masters
  }

  // Every count is the number of pointers, and no pointer leads to a destroyed master.
  ghost predicate RefInv(d: Device) {
    && (forall m :: RefOk(d, m))
    && (forall f :: FileOk(d, f))
    && (d.master.Some? ==> d.master.value in d.masters)
  }

  // The group the file belongs to.
  function MasterOf(d: Device, f: FileId): (m: MasterId)
    requires RefInv(d) && f in d.files
    ensures d.files[f].master == Some(m) && m in d.masters
  {
    assert FileOk(d, f);
    d.files[f].master.value
  }

  lemma CurrentHasTwoRefs(d: Device, f: FileId)
    requires RefInv(d) && f in d.files && d.files[f].master == d.master
    ensures d.masters[MasterOf(d, f)].refcount >= 2
  {
    var m := MasterOf(d, f);
    assert RefOk(d, m);
    assert f in FilesOf(d.files, m);
  }

  /* ---------- net effects ---------- */

  // drm_is_current_master, for devices without leases.
  predicate IsCurrent(d: Device, f: FileId)
    requires f in d.files
  {
    d.files[f].isMaster && d.files[f].master == d.master
  }

  // A reference is given up; the last one takes the master with it.
  function Unref(d: Device, m: MasterId): Device
    requires m in d.masters
  {
    if d.masters[m].refcount == 1 then d.(masters := d.masters - {m})
    else d.(masters := d.masters[m := d.masters[m].(refcount := d.masters[m].refcount - 1)])
  }

  function Ref(d: Device, m: MasterId): Device
    requires m in d.masters
  {
    d.(masters := d.masters[m := d.masters[m].(refcount := d.masters[m].refcount + 1)])
  }

  // A reference that is given up right after it was taken leaves no trace, as on the roll-back paths.
  lemma RefUnref(d: Device, m: MasterId)
    requires m in d.masters && d.masters[m].refcount >= 1
    ensures Unref(Ref(d, m), m) == d
  {
    assert Unref(Ref(d, m), m).masters == d.masters;
  }

  // The file becomes current master under a master of its own, which both of them refer to.
  function Crown(d: Device, f: FileId, file: File, m: MasterId): Device {
    Device(
      Some(m),
      d.masters[m := Master(2, map[])],
      d.files[f := file.(master := Some(m), isMaster := true, authenticated := true)])
  }

  // What the environment may answer: kzalloc returns an address not in use, and idr_alloc an id of
  // at least 1 that is free.
  ghost predicate Possible(d: Device, op: Op)
    requires RefInv(d)
  {
    match op
    case Open(f, _, hooks) => f !in d.files && (hooks.addr.Some? ==> hooks.addr.value !in d.masters)
    case SetMaster(f, hooks) => f in d.files && (hooks.addr.Some? ==> hooks.addr.value !in d.masters)
    case GetMagic(f, idr) =>
      f in d.files && (idr >= 0 ==> idr >= 1 && idr !in d.masters[MasterOf(d, f)].magic)
    case _ => op.file in d.files
  }

  function OpenStep(d: Device, f: FileId, admin: bool, hooks: Hooks): (Device, int)
    requires RefInv(d)
  {
    var file := File(None, false, admin, 0);
    if d.master.Some? then
      (Ref(d.(files := d.files[f := file.(master := d.master)]), d.master.value), 0)
    else if hooks.addr.None? then (d, -ENOMEM)
    else if hooks.createRet != 0 then (d, hooks.createRet)
    else if hooks.setRet != 0 then (d, hooks.setRet)
    else (Crown(d, f, file, hooks.addr.value), 0)
  }

  function SetMasterStep(d: Device, f: FileId, hooks: Hooks): (Device, int)
    requires RefInv(d) && f in d.files
  {
    var file, m := d.files[f], MasterOf(d, f);
    if IsCurrent(d, f) then (d, 0)
    else if d.master.Some? then (d, -EINVAL)
    else if file.isMaster then
      if hooks.setRet != 0 then (d, hooks.setRet) else (Ref(d.(master := file.master), m), 0)
    else if hooks.addr.None? then (d, -ENOMEM)
    else if hooks.createRet != 0 then (d, hooks.createRet)
    else if hooks.setRet != 0 then
      // The error path leaves is_master and authenticated behind.
      (d.(files := d.files[f := file.(isMaster := true, authenticated := true)]), hooks.setRet)
    else (Unref(Crown(d, f, file, hooks.addr.value), m), 0)
  }

  // The token of the file disappears from the group the file belongs to.
  function Forget(d: Device, f: FileId): Device
    requires RefInv(d) && f in d.files
  {
    var m := MasterOf(d, f);
    if d.files[f].magic == 0 then d
    else d.(masters := d.masters[m := d.masters[m].(magic := d.masters[m].magic - {d.files[f].magic})])
  }

  function ReleaseStep(d: Device, f: FileId): Device
    requires RefInv(d) && f in d.files
  {
    var m := MasterOf(d, f);
    var d1 := Forget(d, f);
    var d2 :=
      if IsCurrent(d, f) then (CurrentHasTwoRefs(d, f); Unref(d1.(master := None), m)) else d1;
    Unref(d2.(files := d2.files - {f}), m)
  }

  function GetMagicStep(d: Device, f: FileId, idr: int): (Device, int)
    requires RefInv(d) && f in d.files
  {
    var file, m := d.files[f], MasterOf(d, f);
    if file.magic != 0 then (d, 0)
    else if idr < 0 then (d, idr)
    else
      (d.(masters := d.masters[m := d.masters[m].(magic := d.masters[m].magic[idr := Some(f)])],
          files := d.files[f := file.(magic := idr)]), 0)
  }

  // The file a token stands for in a group.
  function Holder(d: Device, m: MasterId, magic: int): Option<FileId> {
    if m in d.masters && magic in d.masters[m].magic then d.masters[m].magic[magic] else None
  }

  function AuthMagicStep(d: Device, f: FileId, magic: int): (Device, int)
    requires RefInv(d) && f in d.files
  {
    var m := MasterOf(d, f);
    match Holder(d, m, magic)
    case None => (d, -EINVAL)
    case Some(g) =>
      var d1 := d.(masters := d.masters[m := d.masters[m].(magic := d.masters[m].magic[magic := None])]);
      // A write to a file that has been closed is outside the model; `TokenHolderIsOpen` says
      // when it cannot happen.
      (if g in d.files then d1.(files := d.files[g := d.files[g].(authenticated := true)]) else d1, 0)
  }

  function DropMasterStep(d: Device, f: FileId): (Device, int)
    requires RefInv(d) && f in d.files
  {
    if IsCurrent(d, f) then (Unref(d.(master := None), MasterOf(d, f)), 0) else (d, -EINVAL)
  }

  // The new state, and what the call returns.
  function Step(d: Device, op: Op): (Device, int)
    requires RefInv(d) && Possible(d, op)
  {
    match op
    case Open(f, admin, hooks) => OpenStep(d, f, admin, hooks)
    case Release(f) => (ReleaseStep(d, f), 0)
    case SetMaster(f, hooks) => SetMasterStep(d, f, hooks)
    case DropMaster(f) => DropMasterStep(d, f)
    case GetMagic(f, idr) => GetMagicStep(d, f, idr)
    case AuthMagic(f, magic) => AuthMagicStep(d, f, magic)
  }

  /* ---------- every operation keeps the counts ---------- */

  lemma FilesOfUpdate(files: map<FileId, File>, f: FileId, file: File, m: MasterId)
    ensures |FilesOf(files[f := file], m)|
         == |FilesOf(files, m) - {f}| + if file.master == Some(m) then 1 else 0
    ensures |FilesOf(files, m)|
         == |FilesOf(files, m) - {f}| + if f in files && files[f].master == Some(m) then 1 else 0
  {
    var rest := FilesOf(files, m) - {f};
    assert FilesOf(files[f := file], m) == if file.master == Some(m) then rest + {f} else rest;
    assert FilesOf(files, m) == if f in files && files[f].master == Some(m) then rest + {f} else rest;
  }

  lemma FilesOfRemove(files: map<FileId, File>, f: FileId, m: MasterId)
    requires f in files
    ensures |FilesOf(files, m)|
         == |FilesOf(files - {f}, m)| + if files[f].master == Some(m) then 1 else 0
  {
    assert FilesOf(files - {f}, m) == FilesOf(files, m) - {f};
  }

  lemma NoFilesOfFreeAddress(d: Device, m: MasterId)
    requires RefInv(d) && m !in d.masters
    ensures FilesOf(d.files, m) == {}
  {
    forall f | f in d.files
      ensures d.files[f].master != Some(m)
    {
      assert FileOk(d, f);
    }
  }

  lemma OpenKeepsRefs(d: Device, f: FileId, admin: bool, hooks: Hooks)
    requires RefInv(d) && Possible(d, Open(f, admin, hooks))
    ensures RefInv(OpenStep(d, f, admin, hooks).0)
  {
    var d' := OpenStep(d, f, admin, hooks).0;
    if d' != d {
      forall m
        ensures RefOk(d', m)
      {
        assert RefOk(d, m);
        FilesOfUpdate(d.files, f, d'.files[f], m);
        if m !in d.masters {
          NoFilesOfFreeAddress(d, m);
        }
      }
      forall g
        ensures FileOk(d', g)
      {
        assert FileOk(d, g);
      }
    }
  }

  // A file that is not a master is about to get a master of its own.
  predicate Promotes(d: Device, f: FileId, hooks: Hooks) {
    f in d.files && !d.files[f].isMaster && d.master.None? && hooks.addr.Some? && hooks.createRet == 0
  }

  lemma PromotionKeepsRefs(d: Device, f: FileId, hooks: Hooks)
    requires RefInv(d) && Possible(d, SetMaster(f, hooks)) && Promotes(d, f, hooks) && hooks.setRet == 0
    ensures RefInv(SetMasterStep(d, f, hooks).0)
  {
    var d', m0 := SetMasterStep(d, f, hooks).0, MasterOf(d, f);
    forall m
      ensures RefOk(d', m)
    {
      assert RefOk(d, m);
      FilesOfUpdate(d.files, f, d'.files[f], m);
      if m !in d.masters {
        NoFilesOfFreeAddress(d, m);
      }
    }
    forall g
      ensures FileOk(d', g)
    {
      assert FileOk(d, g) && RefOk(d, m0);
      if g in d.files && g != f && d.files[g].master == Some(m0) {
        TwoElements(FilesOf(d.files, m0), f, g);
      }
    }
  }

  lemma SetMasterKeepsRefs(d: Device, f: FileId, hooks: Hooks)
    requires RefInv(d) && Possible(d, SetMaster(f, hooks))
    ensures RefInv(SetMasterStep(d, f, hooks).0)
  {
    var d', m0 := SetMasterStep(d, f, hooks).0, MasterOf(d, f);
    if Promotes(d, f, hooks) && hooks.setRet == 0 {
      PromotionKeepsRefs(d, f, hooks);
    } else if d' != d {
      forall m
        ensures RefOk(d', m)
      {
        assert RefOk(d, m);
        assert FilesOf(d'.files, m) == FilesOf(d.files, m);
      }
      forall g
        ensures FileOk(d', g)
      {
        assert FileOk(d, g);
      }
    }
  }

  lemma TwoElements(s: set<FileId>, f: FileId, g: FileId)
    requires f in s && g in s && f != g
    ensures |s| >= 2
  {
    assert |s - {f}| >= 1 by { assert g in s - {f}; }
  }

  lemma DropMasterKeepsRefs(d: Device, f: FileId)
    requires RefInv(d) && f in d.files
    ensures RefInv(DropMasterStep(d, f).0)
  {
    if IsCurrent(d, f) {
      var d', m0 := DropMasterStep(d, f).0, MasterOf(d, f);
      CurrentHasTwoRefs(d, f);
      forall m
        ensures RefOk(d', m)
      {
        assert RefOk(d, m);
      }
      forall g
        ensures FileOk(d', g)
      {
        assert FileOk(d, g);
      }
    }
  }

  lemma ReleaseKeepsRefs(d: Device, f: FileId)
    requires RefInv(d) && f in d.files
    ensures RefInv(ReleaseStep(d, f))
  {
    var d', m0 := ReleaseStep(d, f), MasterOf(d, f);
    if d.files[f].master == d.master {
      CurrentHasTwoRefs(d, f);
    }
    forall m
      ensures RefOk(d', m)
    {
      assert RefOk(d, m);
      FilesOfRemove(d.files, f, m);
    }
    forall g
      ensures FileOk(d', g)
    {
      assert FileOk(d, g) && RefOk(d, m0);
      if g in d.files && g != f && d.files[g].master == Some(m0) {
        TwoElements(FilesOf(d.files, m0), f, g);
      }
    }
  }

  lemma MagicKeepsRefs(d: Device, op: Op)
    requires RefInv(d) && Possible(d, op) && (op.GetMagic? || op.AuthMagic?)
    ensures RefInv(Step(d, op).0)
  {
    var d' := Step(d, op).0;
    if d' != d {
      forall m
        ensures RefOk(d', m)
      {
        assert RefOk(d, m);
        assert FilesOf(d'.files, m) == FilesOf(d.files, m);
      }
      forall g
        ensures FileOk(d', g)
      {
        assert FileOk(d, g);
      }
    }
  }

  lemma StepKeepsRefs(d: Device, op: Op)
    requires RefInv(d) && Possible(d, op)
    ensures RefInv(Step(d, op).0)
  {
    match op
    case Open(f, admin, hooks) => OpenKeepsRefs(d, f, admin, hooks);
    case Release(f) => ReleaseKeepsRefs(d, f);
    case SetMaster(f, hooks) => SetMasterKeepsRefs(d, f, hooks);
    case DropMaster(f) => DropMasterKeepsRefs(d, f);
    case GetMagic(_, _) => MagicKeepsRefs(d, op);
    case AuthMagic(_, _) => MagicKeepsRefs(d, op);
  }

  // A master is destroyed exactly by the operation after which nothing refers to it.
  lemma DestroyedIffUnreferenced(d: Device, op: Op, m: MasterId)
    requires RefInv(d) && Possible(d, op) && m in d.masters
    ensures m !in Step(d, op).0.masters <==> Refs(Step(d, op).0, m) == 0
  {
    StepKeepsRefs(d, op);
    var d' := Step(d, op).0;
    assert RefOk(d', m);
    if m !in d'.masters {
      NoFilesOfFreeAddress(d', m);
    }
  }

  /* ---------- one current master ---------- */

  ghost predicate UniqueInv(d: Device) {
    && (forall f, g :: f in d.files && g in d.files && f != g && d.files[f].isMaster && d.files[g].isMaster
          ==> d.files[f].master != d.files[g].master)
    && (d.master.Some? ==> exists f :: f in d.files && IsCurrent(d, f))
  }

  // SETMASTER promotes a file and the master_set hook refuses.
  predicate PromotionFails(d: Device, op: Op) {
    op.SetMaster? && Promotes(d, op.file, op.hooks) && op.hooks.setRet != 0
  }

  lemma StepKeepsMarksDistinct(d: Device, op: Op, f: FileId, g: FileId)
    requires RefInv(d) && Possible(d, op) && UniqueInv(d) && !PromotionFails(d, op)
    requires var d' := Step(d, op).0;
      f in d'.files && g in d'.files && f != g && d'.files[f].isMaster && d'.files[g].isMaster
    ensures Step(d, op).0.files[f].master != Step(d, op).0.files[g].master
  {
    assert FileOk(d, f) && FileOk(d, g);
  }

  lemma StepKeepsCreator(d: Device, op: Op)
    requires RefInv(d) && Possible(d, op) && UniqueInv(d) && Step(d, op).0.master.Some?
    ensures exists f :: f in Step(d, op).0.files && IsCurrent(Step(d, op).0, f)
  {
    var d' := Step(d, op).0;
    if d'.master == d.master {
      var f :| f in d.files && IsCurrent(d, f);
      assert f in d'.files && IsCurrent(d', f);
    } else {
      assert op.file in d'.files && IsCurrent(d', op.file);
    }
  }

  lemma StepKeepsUnique(d: Device, op: Op)
    requires RefInv(d) && Possible(d, op) && UniqueInv(d) && !PromotionFails(d, op)
    ensures UniqueInv(Step(d, op).0)
  {
    var d' := Step(d, op).0;
    forall f, g | f in d'.files && g in d'.files && f != g && d'.files[f].isMaster && d'.files[g].isMaster
      ensures d'.files[f].master != d'.files[g].master
    {
      StepKeepsMarksDistinct(d, op, f, g);
    }
    if d'.master.Some? {
      StepKeepsCreator(d, op);
    }
  }

  // When it refuses, the file stays marked as master of the group it was in. That is harmless
  // exactly when the group has no other file so marked.
  lemma FailedPromotionKeepsUniqueIff(d: Device, op: Op)
    requires RefInv(d) && Possible(d, op) && UniqueInv(d) && PromotionFails(d, op)
    ensures UniqueInv(Step(d, op).0) <==>
      !exists g :: g in d.files && d.files[g].isMaster && d.files[g].master == d.files[op.file].master
  {
    var d' := Step(d, op).0;
    assert d'.master.None?;
    if g :| g in d.files && d.files[g].isMaster && d.files[g].master == d.files[op.file].master {
      assert g != op.file && d'.files[g] == d.files[g] && d'.files[op.file].isMaster;
    } else {
      forall f, g | f in d'.files && g in d'.files && f != g && d'.files[f].isMaster && d'.files[g].isMaster
        ensures d'.files[f].master != d'.files[g].master
      {
      }
    }
  }

  // At most one open file is the current master, and while there is a device master exactly one is.
  lemma ExactlyOneCurrent(d: Device)
    requires RefInv(d) && UniqueInv(d)
    ensures forall f, g :: f in d.files && g in d.files && IsCurrent(d, f) && IsCurrent(d, g) ==> f == g
    ensures d.master.Some? <==> exists f :: f in d.files && IsCurrent(d, f)
  {
    forall f | f in d.files && IsCurrent(d, f)
      ensures d.master.Some?
    {
      assert FileOk(d, f);
    }
  }

  /* ---------- tokens ---------- */

  // An entry that is not NULL is an open file of the group that holds the token.
  predicate EntryOk(d: Device, m: MasterId, k: int) {
    var h := Holder(d, m, k);
    h.Some? ==> h.value in d.files && d.files[h.value].master == Some(m) && d.files[h.value].magic == k != 0
  }

  // A token that has been given out occupies an entry of its group.
  predicate TokenOk(d: Device, f: FileId)
    requires FileOk(d, f)
  {
    f in d.files && d.files[f].magic != 0 ==>
      var entries := d.masters[d.files[f].master.value].magic;
      && d.files[f].magic >= 1 && d.files[f].magic in entries
      && (entries[d.files[f].magic] == None || entries[d.files[f].magic] == Some(f))
  }

  predicate SameToken(d: Device, f: FileId, g: FileId) {
    && f in d.files && g in d.files && f != g
    && d.files[f].master == d.files[g].master && d.files[f].magic == d.files[g].magic != 0
  }

  ghost predicate MagicInv(d: Device)
    requires RefInv(d)
  {
    && (forall m, k :: EntryOk(d, m, k))
    && (forall f :: FileOk(d, f) ==> TokenOk(d, f))
    && (forall f, g :: !SameToken(d, f, g))
  }

  // What a user sees of that: entries are open files of the group, and tokens are distinct.
  ghost predicate TokensMatch(d: Device) {
    (forall m, k :: EntryOk(d, m, k)) && (forall f, g :: !SameToken(d, f, g))
  }

  // A file that holds a token is moved to a new group.
  predicate TokenHolderMoves(d: Device, op: Op) {
    op.SetMaster? && Promotes(d, op.file, op.hooks) && op.hooks.setRet == 0 && d.files[op.file].magic != 0
  }

  // What a release leaves of the tokens.
  lemma ReleaseForgets(d: Device, f: FileId, m: MasterId)
    requires RefInv(d) && f in d.files
    ensures var d', token := ReleaseStep(d, f), d.files[f].magic;
      && d'.files == d.files - {f}
      && (m in d'.masters ==>
            && m in d.masters
            && d'.masters[m].magic == d.masters[m].magic - (if m == MasterOf(d, f) && token != 0 then {token} else {}))
  {
    if IsCurrent(d, f) {
      CurrentHasTwoRefs(d, f);
    }
    assert Forget(d, f).files == d.files;
  }

  lemma StepKeepsEntry(d: Device, op: Op, m: MasterId, k: int)
    requires RefInv(d) && Possible(d, op) && MagicInv(d) && !TokenHolderMoves(d, op)
    ensures EntryOk(Step(d, op).0, m, k)
  {
    assert EntryOk(d, m, k);
    assert FileOk(d, op.file);
    if op.Release? {
      ReleaseForgets(d, op.file, m);
    }
  }

  lemma StepKeepsToken(d: Device, op: Op, f: FileId)
    requires RefInv(d) && Possible(d, op) && MagicInv(d) && !TokenHolderMoves(d, op)
    requires RefInv(Step(d, op).0)
    ensures FileOk(Step(d, op).0, f) && TokenOk(Step(d, op).0, f)
  {
    var d' := Step(d, op).0;
    assert FileOk(d, f) && TokenOk(d, f);
    assert FileOk(d', f);
    if op.Release? {
      assert !SameToken(d, f, op.file);
      if f in d'.files {
        ReleaseForgets(d, op.file, d'.files[f].master.value);
      }
    }
  }

  lemma StepKeepsTokensDistinct(d: Device, op: Op, f: FileId, g: FileId)
    requires RefInv(d) && Possible(d, op) && MagicInv(d) && !TokenHolderMoves(d, op)
    ensures !SameToken(Step(d, op).0, f, g)
  {
    assert FileOk(d, f) && TokenOk(d, f);
    assert FileOk(d, g) && TokenOk(d, g);
    assert !SameToken(d, f, g);
  }

  lemma StepKeepsMagic(d: Device, op: Op)
    requires RefInv(d) && Possible(d, op) && MagicInv(d) && !TokenHolderMoves(d, op)
    ensures RefInv(Step(d, op).0) && MagicInv(Step(d, op).0)
  {
    StepKeepsRefs(d, op);
    var d' := Step(d, op).0;
    forall m, k
      ensures EntryOk(d', m, k)
    {
      StepKeepsEntry(d, op, m, k);
    }
    forall f | FileOk(d', f)
      ensures TokenOk(d', f)
    {
      StepKeepsToken(d, op, f);
    }
    forall f, g
      ensures !SameToken(d', f, g)
    {
      StepKeepsTokensDistinct(d, op, f, g);
    }
  }

  // The group that a promoted file leaves lives on, and its token still names the file there.
  predicate LeavesToken(d: Device, f: FileId)
    requires RefInv(d) && f in d.files
  {
    d.masters[MasterOf(d, f)].refcount != 1 && Holder(d, MasterOf(d, f), d.files[f].magic) == Some(f)
  }

  lemma PromotedEntries(d: Device, f: FileId, hooks: Hooks, m: MasterId, k: int)
    requires RefInv(d) && MagicInv(d) && Possible(d, SetMaster(f, hooks))
    requires Promotes(d, f, hooks) && hooks.setRet == 0 && !LeavesToken(d, f)
    ensures EntryOk(Step(d, SetMaster(f, hooks)).0, m, k)
  {
    assert EntryOk(d, m, k);
    assert FileOk(d, f);
  }

  lemma PromotedTokens(d: Device, f: FileId, hooks: Hooks, g: FileId, h: FileId)
    requires RefInv(d) && MagicInv(d) && Possible(d, SetMaster(f, hooks))
    requires Promotes(d, f, hooks) && hooks.setRet == 0
    ensures !SameToken(Step(d, SetMaster(f, hooks)).0, g, h)
  {
    assert !SameToken(d, g, h) && FileOk(d, g) && FileOk(d, h);
  }

  // After a promotion the tokens match exactly when the file leaves none behind: the group it
  // leaves ends with it, or its token was used or never given out.
  lemma PromotionKeepsTokensIff(d: Device, f: FileId, hooks: Hooks)
    requires RefInv(d) && MagicInv(d) && Possible(d, SetMaster(f, hooks))
    requires Promotes(d, f, hooks) && hooks.setRet == 0
    ensures TokensMatch(Step(d, SetMaster(f, hooks)).0) <==> !LeavesToken(d, f)
  {
    var d', m, k := Step(d, SetMaster(f, hooks)).0, MasterOf(d, f), d.files[f].magic;
    if LeavesToken(d, f) {
      assert !EntryOk(d', m, k);
    } else {
      forall n, j
        ensures EntryOk(d', n, j)
      {
        PromotedEntries(d, f, hooks, n, j);
      }
      forall g, h
        ensures !SameToken(d', g, h)
      {
        PromotedTokens(d, f, hooks, g, h);
      }
    }
  }

  // The full invariant, which also has every token given out occupy an entry of its group, is kept
  // exactly when the promoted file holds no token.
  lemma PromotionKeepsMagicIff(d: Device, f: FileId, hooks: Hooks)
    requires RefInv(d) && MagicInv(d) && Possible(d, SetMaster(f, hooks))
    requires Promotes(d, f, hooks) && hooks.setRet == 0
    ensures RefInv(Step(d, SetMaster(f, hooks)).0)
    ensures MagicInv(Step(d, SetMaster(f, hooks)).0) <==> d.files[f].magic == 0
  {
    var op := SetMaster(f, hooks);
    StepKeepsRefs(d, op);
    if d.files[f].magic == 0 {
      StepKeepsMagic(d, op);
    } else {
      var d' := Step(d, op).0;
      assert FileOk(d', f) && !TokenOk(d', f);
    }
  }

  // Nothing less will do in the long run: after a file that holds a token is promoted, the next
  // file that is opened can be given the same token.
  lemma PromotedHolderClashes(d: Device, f: FileId, hooks: Hooks, g: FileId)
    requires RefInv(d) && MagicInv(d) && Possible(d, SetMaster(f, hooks))
    requires Promotes(d, f, hooks) && hooks.setRet == 0 && d.files[f].magic != 0 && g !in d.files
    ensures var d1, k := Step(d, SetMaster(f, hooks)).0, d.files[f].magic;
      && RefInv(d1) && Possible(d1, Open(g, false, hooks.(addr := None)))
      && var d2 := Step(d1, Open(g, false, hooks.(addr := None))).0;
      RefInv(d2) && Possible(d2, GetMagic(g, k)) && SameToken(Step(d2, GetMagic(g, k)).0, f, g)
  {
    var op1, op2, k := SetMaster(f, hooks), Open(g, false, hooks.(addr := None)), d.files[f].magic;
    assert FileOk(d, f) && TokenOk(d, f);
    StepKeepsRefs(d, op1);
    StepKeepsRefs(Step(d, op1).0, op2);
  }

  /* ---------- what each call does, as its callers see it ---------- */

  ghost predicate NoneCurrent(d: Device) {
    forall g :: g in d.files ==> !IsCurrent(d, g)
  }

  // The group lost so many references, and is gone if none is left. Its tokens are as given.
  predicate Lost(d: Device, d': Device, m: MasterId, n: int, magic: map<int, Option<FileId>>)
    requires m in d.masters
  {
    var left := d.masters[m].refcount - n;
    if left == 0 then m !in d'.masters else m in d'.masters && d'.masters[m] == Master(left, magic)
  }

  predicate OthersKept(d: Device, d': Device, m: MasterId) {
    forall n | n in d.masters && n != m :: n in d'.masters && d'.masters[n] == d.masters[n]
  }

  // DROPMASTER works for the current master only. Then the device has no master and no file is
  // current; the group loses one reference, and all files keep what they have.
  lemma DropMasterDoes(d: Device, f: FileId)
    requires RefInv(d) && f in d.files
    ensures var (d', ret) := Step(d, DropMaster(f));
      && ret == (if IsCurrent(d, f) then 0 else -EINVAL) && (ret != 0 ==> d' == d)
      && (ret == 0 ==>
            && d'.master == None && NoneCurrent(d') && d'.files == d.files
            && d'.masters == d.masters[MasterOf(d, f) := Master(d.masters[MasterOf(d, f)].refcount - 1,
                                                                d.masters[MasterOf(d, f)].magic)])
  {
    var d' := Step(d, DropMaster(f)).0;
    if IsCurrent(d, f) {
      CurrentHasTwoRefs(d, f);
      forall g | g in d'.files
        ensures !IsCurrent(d', g)
      {
        assert FileOk(d, g);
      }
    }
  }

  // A file that dropped can set itself again, and everything is as before.
  lemma DropThenSet(d: Device, f: FileId, hooks: Hooks)
    requires RefInv(d) && f in d.files && IsCurrent(d, f) && hooks.setRet == 0
    requires hooks.addr.Some? ==> hooks.addr.value !in d.masters
    ensures var d' := Step(d, DropMaster(f)).0;
      RefInv(d') && Possible(d', SetMaster(f, hooks)) && Step(d', SetMaster(f, hooks)) == (d, 0)
  {
    StepKeepsRefs(d, DropMaster(f));
    CurrentHasTwoRefs(d, f);
    var m, d' := MasterOf(d, f), Step(d, DropMaster(f)).0;
    assert FileOk(d', f) && !IsCurrent(d', f);
    assert Ref(d'.(master := Some(m)), m).masters == d.masters;
  }

  // The file may become master: it created its group, or can be given a new one.
  predicate CanBeMaster(file: File, hooks: Hooks) {
    hooks.setRet == 0 && (file.isMaster || (hooks.addr.Some? && hooks.createRet == 0))
  }

  // SETMASTER succeeds for the current master, and for a file that may become master while there is
  // none; then the file is current, and no other file is changed. While another is master it is
  // refused. Whenever it fails the device's master and all counts stay as they were.
  lemma SetMasterDoes(d: Device, f: FileId, hooks: Hooks)
    requires RefInv(d) && Possible(d, SetMaster(f, hooks))
    ensures var (d', ret) := Step(d, SetMaster(f, hooks));
      && (ret == 0 <==> IsCurrent(d, f) || (d.master == None && CanBeMaster(d.files[f], hooks)))
      && d'.files.Keys == d.files.Keys && (forall g :: g in d.files && g != f ==> d'.files[g] == d.files[g])
      && (ret == 0 ==> IsCurrent(d', f))
      && (ret != 0 ==> d'.master == d.master && d'.masters == d.masters)
      && (d.master.Some? ==> d' == d && (ret == 0 || ret == -EINVAL))
  {
    assert FileOk(d, f);
    var d' := Step(d, SetMaster(f, hooks)).0;
    assert d'.files.Keys == d.files.Keys;
  }

  // The creator of a group gets it installed again, with one reference more.
  lemma SetMasterInstalls(d: Device, f: FileId, hooks: Hooks)
    requires RefInv(d) && Possible(d, SetMaster(f, hooks))
    requires d.master == None && d.files[f].isMaster && hooks.setRet == 0
    ensures var d', m := Step(d, SetMaster(f, hooks)).0, MasterOf(d, f);
      d' == Device(Some(m), d.masters[m := Master(d.masters[m].refcount + 1, d.masters[m].magic)], d.files)
  {
    assert FileOk(d, f);
  }

  // Any other file moves to a group of its own, which has no tokens, and is authenticated; the group
  // it leaves loses a reference. It keeps the token it may have.
  lemma SetMasterPromotes(d: Device, f: FileId, hooks: Hooks)
    requires RefInv(d) && Possible(d, SetMaster(f, hooks)) && Promotes(d, f, hooks) && hooks.setRet == 0
    ensures var d', m, m0 := Step(d, SetMaster(f, hooks)).0, hooks.addr.value, MasterOf(d, f);
      && d'.master == Some(m) && FilesOf(d'.files, m) == {f} && Holder(d', m, d.files[f].magic) == None
      && d'.files[f] == File(Some(m), true, true, d.files[f].magic)
      && m in d'.masters && d'.masters[m] == Master(2, map[])
      && Lost(d, d', m0, 1, d.masters[m0].magic) && OthersKept(d, d', m0)
  {
    NoFilesOfFreeAddress(d, hooks.addr.value);
    var d', m := Step(d, SetMaster(f, hooks)).0, hooks.addr.value;
    forall g | g in d'.files
      ensures d'.files[g].master == Some(m) <==> g == f
    {
      assert g in FilesOf(d.files, m) <==> d.files[g].master == Some(m);
    }
  }

  // The errors of a SETMASTER that could not be carried out.
  lemma SetMasterFails(d: Device, f: FileId, hooks: Hooks)
    requires RefInv(d) && Possible(d, SetMaster(f, hooks))
    requires d.master == None && !CanBeMaster(d.files[f], hooks)
    ensures var (d', ret) := Step(d, SetMaster(f, hooks));
      && ret == (if d.files[f].isMaster then hooks.setRet
                 else if hooks.addr == None then -ENOMEM
                 else if hooks.createRet != 0 then hooks.createRet
                 else hooks.setRet)
      && NoneCurrent(d')
  {
    var d' := Step(d, SetMaster(f, hooks)).0;
    forall g | g in d'.files
      ensures !IsCurrent(d', g)
    {
      assert FileOk(d, g);
    }
  }

  // Opening succeeds while there is a master, and makes a member of its group that is not current;
  // without one it succeeds if a new group can be set up, and the file is current. Only the new file
  // is added, without a token; when it fails nothing has changed.
  lemma OpenDoes(d: Device, f: FileId, admin: bool, hooks: Hooks)
    requires RefInv(d) && Possible(d, Open(f, admin, hooks))
    ensures var (d', ret) := Step(d, Open(f, admin, hooks));
      && (ret == 0 <==> d.master.Some? || (hooks.addr.Some? && hooks.createRet == hooks.setRet == 0))
      && (ret != 0 ==> d' == d)
      && (ret == 0 ==>
            && f in d'.files && d'.files - {f} == d.files && d'.master.Some?
            && (IsCurrent(d', f) <==> d.master == None)
            && (d.master.Some? ==>
                  && d'.files[f] == File(d.master, false, admin, 0) && d'.master == d.master
                  && OthersKept(d, d', d.master.value)
                  && Lost(d, d', d.master.value, -1, d.masters[d.master.value].magic))
            && (d.master == None ==>
                  && d'.files[f] == File(hooks.addr, true, true, 0) && d'.master == hooks.addr
                  && d'.masters == d.masters[hooks.addr.value := Master(2, map[])]))
  {
    var (d', ret) := Step(d, Open(f, admin, hooks));
    if ret == 0 {
      assert d'.files - {f} == d.files;
      if d.master.Some? {
        assert RefOk(d, d.master.value);
      }
    }
  }

  // Closing a file that was just opened undoes the opening.
  lemma OpenRelease(d: Device, f: FileId, admin: bool, hooks: Hooks)
    requires RefInv(d) && Possible(d, Open(f, admin, hooks)) && Step(d, Open(f, admin, hooks)).1 == 0
    ensures var d' := Step(d, Open(f, admin, hooks)).0;
      RefInv(d') && Possible(d', Release(f)) && Step(d', Release(f)).0 == d
  {
    StepKeepsRefs(d, Open(f, admin, hooks));
    OpenDoes(d, f, admin, hooks);
    var d' := Step(d, Open(f, admin, hooks)).0;
    var d'' := Step(d', Release(f)).0;
    assert FileOk(d', f) && MasterOf(d', f) == d'.master.value;
    assert d''.files == d.files;
    if d.master.Some? {
      assert RefOk(d, d.master.value);
    }
    assert d''.masters == d.masters;
  }

  // Closing takes the file away and no other; the device's master goes exactly with the current
  // master. The group loses the file's reference, the device's too in that case, and its token.
  lemma ReleaseDoes(d: Device, f: FileId)
    requires RefInv(d) && f in d.files
    ensures var d', m := Step(d, Release(f)).0, MasterOf(d, f);
      var token := d.files[f].magic;
      && d'.files == d.files - {f}
      && d'.master == (if IsCurrent(d, f) then None else d.master)
      && Lost(d, d', m, if IsCurrent(d, f) then 2 else 1, d.masters[m].magic - (if token != 0 then {token} else {}))
      && OthersKept(d, d', m)
  {
    assert RefOk(d, MasterOf(d, f));
    if IsCurrent(d, f) {
      CurrentHasTwoRefs(d, f);
    }
    ReleaseForgets(d, f, MasterOf(d, f));
  }

  // GETMAGIC gives a file one token: asking again returns the same, and changes nothing.
  lemma GetMagicDoes(d: Device, f: FileId, idr: int, idr': int)
    requires RefInv(d) && Possible(d, GetMagic(f, idr))
    ensures var (d', ret) := Step(d, GetMagic(f, idr));
      && ret == (if d.files[f].magic == 0 && idr < 0 then idr else 0) && (ret != 0 ==> d' == d)
      && (ret == 0 ==>
            && f in d'.files && d'.files[f].magic == (if d.files[f].magic != 0 then d.files[f].magic else idr) != 0
            && d'.files == d.files[f := d.files[f].(magic := d'.files[f].magic)] && d'.master == d.master
            && RefInv(d')
            && (Possible(d', GetMagic(f, idr')) ==> Step(d', GetMagic(f, idr')) == (d', 0)))
  {
    StepKeepsRefs(d, GetMagic(f, idr));
    var (d', ret) := Step(d, GetMagic(f, idr));
    assert d.files[f].magic != 0 ==> d'.files == d.files[f := d.files[f]];
  }

  // A new token lets any file of the group authenticate its holder, once.
  lemma TokenRoundTrip(d: Device, f: FileId, k: int, g: FileId)
    requires RefInv(d) && Possible(d, GetMagic(f, k)) && k >= 0 && d.files[f].magic == 0
    requires g in d.files && d.files[g].master == d.files[f].master
    ensures var d' := Step(d, GetMagic(f, k)).0;
      && RefInv(d') && Possible(d', AuthMagic(g, k))
      && var (d'', ret) := Step(d', AuthMagic(g, k));
      && ret == 0 && d''.files == d'.files[f := d'.files[f].(authenticated := true)] && d''.master == d.master
      && RefInv(d'') && Step(d'', AuthMagic(g, k)) == (d'', -EINVAL)
  {
    StepKeepsRefs(d, GetMagic(f, k));
    var d' := Step(d, GetMagic(f, k)).0;
    assert FileOk(d', g) && FileOk(d, g);
    StepKeepsRefs(d', AuthMagic(g, k));
  }

  // AUTHMAGIC without an unused entry for the token is refused, and changes nothing.
  lemma AuthMagicRefusedIff(d: Device, f: FileId, k: int)
    requires RefInv(d) && f in d.files
    ensures var (d', ret) := Step(d, AuthMagic(f, k));
      && (ret == 0 <==> exists h :: Holder(d, MasterOf(d, f), k) == Some(h))
      && (ret != 0 ==> ret == -EINVAL && d' == d)
  {
  }

  /* ---------- runs ---------- */

  // The operations of a run, what they returned, and the states before, between and after them.
  datatype Run = Run(ops: seq<Op>, rets: seq<int>, states: seq<Device>)

  // In a state with broken counts anything might happen; `RunKeepsRefs` says there is none.
  ghost predicate StepAt(r: Run, i: nat)
    requires i < |r.ops| && i < |r.rets| && i + 1 < |r.states|
  {
    RefInv(r.states[i]) ==>
      Possible(r.states[i], r.ops[i]) && (r.states[i + 1], r.rets[i]) == Step(r.states[i], r.ops[i])
  }

  ghost predicate Legal(r: Run) {
    && |r.states| == |r.ops| + 1 == |r.rets| + 1
    && r.states[0] == Initial
    && forall i :: 0 <= i < |r.ops| ==> StepAt(r, i)
  }

  // In every reachable state, after failing allocations and hooks too, each live master's count is
  // the number of pointers to it, and no pointer leads to a destroyed one.
  lemma {:induction false} RunKeepsRefs(r: Run, i: nat)
    requires Legal(r) && i < |r.states|
    ensures RefInv(r.states[i])
  {
    if i > 0 {
      RunKeepsRefs(r, i - 1);
      assert StepAt(r, i - 1);
      StepKeepsRefs(r.states[i - 1], r.ops[i - 1]);
    }
  }

  // As long as no promotion fails in the master_set hook, files marked as masters have distinct
  // masters, and a device master has exactly one creator, which is open.
  lemma {:induction false} RunKeepsUnique(r: Run, i: nat)
    requires Legal(r) && i < |r.states|
    requires forall j :: 0 <= j < i ==> !PromotionFails(r.states[j], r.ops[j])
    ensures RefInv(r.states[i]) && UniqueInv(r.states[i])
  {
    RunKeepsRefs(r, i);
    if i > 0 {
      RunKeepsUnique(r, i - 1);
      assert StepAt(r, i - 1);
      StepKeepsUnique(r.states[i - 1], r.ops[i - 1]);
    }
  }

  // As long as no file that holds a token is promoted, tokens and files match.
  lemma {:induction false} RunKeepsMagic(r: Run, i: nat)
    requires Legal(r) && i < |r.states|
    requires forall j :: 0 <= j < i ==> !TokenHolderMoves(r.states[j], r.ops[j])
    ensures RefInv(r.states[i]) && MagicInv(r.states[i])
  {
    if i > 0 {
      RunKeepsMagic(r, i - 1);
      assert StepAt(r, i - 1);
      StepKeepsMagic(r.states[i - 1], r.ops[i - 1]);
    }
  }

  // The file that AUTHMAGIC authenticates is open, and of the caller's group.
  lemma TokenHolderIsOpen(r: Run, i: nat)
    requires Legal(r) && i < |r.ops| && r.ops[i].AuthMagic? && r.rets[i] == 0
    requires forall j :: 0 <= j < i ==> !TokenHolderMoves(r.states[j], r.ops[j])
    ensures var d, d', f := r.states[i], r.states[i + 1], r.ops[i].file;
      exists h :: h in d.files && f in d.files
        && d.files[h].magic == r.ops[i].magic != 0 && d.files[h].master == d.files[f].master
        && d'.files == d.files[h := d.files[h].(authenticated := true)]
  {
    RunKeepsMagic(r, i);
    assert StepAt(r, i);
    var d, f := r.states[i], r.ops[i].file;
    var m := MasterOf(d, f);
    assert EntryOk(d, m, r.ops[i].magic);
    assert Holder(d, m, r.ops[i].magic).value in d.files;
  }

  // The file holds a token that has been used up.
  predicate Spent(d: Device, h: FileId, m: MasterId, k: int) {
    && h in d.files && d.files[h].master == Some(m) && d.files[h].magic == k != 0
    && m in d.masters && k in d.masters[m].magic && d.masters[m].magic[k] == None
  }

  lemma SpentStaysSpent(d: Device, op: Op, h: FileId, m: MasterId, k: int)
    requires RefInv(d) && Possible(d, op) && MagicInv(d) && !TokenHolderMoves(d, op)
    requires Spent(d, h, m, k) && op != Release(h)
    ensures Spent(Step(d, op).0, h, m, k)
  {
    StepKeepsRefs(d, op);
    var d' := Step(d, op).0;
    assert FileOk(d', h);
    if op.Release? {
      ReleaseForgets(d, op.file, m);
      assert !SameToken(d, h, op.file);
    }
  }

  lemma SuccessSpends(d: Device, f: FileId, k: int, h: FileId)
    requires RefInv(d) && MagicInv(d) && f in d.files && Holder(d, MasterOf(d, f), k) == Some(h)
    ensures Spent(AuthMagicStep(d, f, k).0, h, MasterOf(d, f), k)
  {
    assert EntryOk(d, MasterOf(d, f), k);
  }

  lemma {:induction false} SpentUntilRelease(r: Run, i: nat, j: nat, h: FileId, m: MasterId, k: int)
    requires Legal(r) && i <= j < |r.states| && Spent(r.states[i], h, m, k)
    requires forall n :: 0 <= n < j ==> !TokenHolderMoves(r.states[n], r.ops[n])
    requires forall n :: i <= n < j ==> r.ops[n] != Release(h)
    ensures Spent(r.states[j], h, m, k)
  {
    if i < j {
      SpentUntilRelease(r, i, j - 1, h, m, k);
      RunKeepsMagic(r, j - 1);
      assert StepAt(r, j - 1);
      SpentStaysSpent(r.states[j - 1], r.ops[j - 1], h, m, k);
    }
  }

  // A token authenticates at most once while its holder stays open.
  lemma AuthenticatesOnce(r: Run, i: nat, j: nat, h: FileId, m: MasterId, k: int)
    requires Legal(r) && i < j < |r.ops|
    requires forall n :: 0 <= n <= j ==> !TokenHolderMoves(r.states[n], r.ops[n])
    requires r.ops[i].AuthMagic? && r.ops[i].magic == k && r.ops[j].AuthMagic? && r.ops[j].magic == k
    requires r.ops[i].file in r.states[i].files && r.states[i].files[r.ops[i].file].master == Some(m)
    requires r.ops[j].file in r.states[j].files && r.states[j].files[r.ops[j].file].master == Some(m)
    requires Holder(r.states[i], m, k) == Some(h)
    requires forall n :: i < n < j ==> r.ops[n] != Release(h)
    ensures r.rets[i] == 0 && r.rets[j] == -EINVAL
  {
    RunKeepsMagic(r, i);
    assert StepAt(r, i);
    SuccessSpends(r.states[i], r.ops[i].file, k, h);
    SpentUntilRelease(r, i + 1, j, h, m, k);
    RunKeepsRefs(r, j);
    assert StepAt(r, j);
  }

  /* ---------- what the two conditions keep out ---------- */

  function Last(r: Run): Device
    requires r.states != []
  {
    r.states[|r.states| - 1]
  }

  lemma Extend(r: Run, op: Op) returns (r': Run)
    requires Legal(r) && RefInv(Last(r)) && Possible(Last(r), op)
    ensures Legal(r') && RefInv(Last(r')) && Last(r') == Step(Last(r), op).0
  {
    var (d, ret) := Step(Last(r), op);
    r' := Run(r.ops + [op], r.rets + [ret], r.states + [d]);
    forall i | 0 <= i < |r'.ops|
      ensures StepAt(r', i)
    {
      assert i < |r.ops| ==> StepAt(r, i);
    }
    StepKeepsRefs(Last(r), op);
  }

  // One failing master_set hook, and later two files are current master at once.
  lemma TwoCurrentMasters() returns (r: Run)
    ensures Legal(r) && 1 in Last(r).files && 2 in Last(r).files
    ensures IsCurrent(Last(r), 1) && IsCurrent(Last(r), 2)
  {
    r := Run([], [], [Initial]);
    r := Extend(r, Open(1, false, Hooks(Some(10), 0, 0)));
    r := Extend(r, Open(2, false, Hooks(None, 0, 0)));
    r := Extend(r, DropMaster(1));
    r := Extend(r, SetMaster(2, Hooks(Some(11), 0, -EINVAL)));
    r := Extend(r, SetMaster(1, Hooks(None, 0, 0)));
  }

  // A promoted file leaves its token behind; once it is closed, the token names a closed file.
  lemma TokenOfClosedFile() returns (r: Run)
    ensures Legal(r) && 1 in Last(r).files && 2 !in Last(r).files
    ensures Last(r).files[1].master == Some(10) && Holder(Last(r), 10, 1) == Some(2)
  {
    r := Run([], [], [Initial]);
    r := Extend(r, Open(1, false, Hooks(Some(10), 0, 0)));
    r := Extend(r, Open(2, false, Hooks(None, 0, 0)));
    r := Extend(r, GetMagic(2, 1));
    r := Extend(r, DropMaster(1));
    r := Extend(r, SetMaster(2, Hooks(Some(11), 0, 0)));
    r := Extend(r, Release(2));
  }

  // It leaves it behind used up, and everything matches still; then the next file gets the token
  // in the new group.
  lemma TwoHoldersOfOneToken() returns (r: Run)
    ensures Legal(r) && SameToken(Last(r), 2, 3)
  {
    r := Run([], [], [Initial]);
    r := Extend(r, Open(1, false, Hooks(Some(10), 0, 0)));
    r := Extend(r, Open(2, false, Hooks(None, 0, 0)));
    r := Extend(r, GetMagic(2, 1));
    r := Extend(r, AuthMagic(1, 1));
    r := Extend(r, DropMaster(1));
    r := Extend(r, SetMaster(2, Hooks(Some(11), 0, 0)));
    r := Extend(r, Open(3, false, Hooks(None, 0, 0)));
    r := Extend(r, GetMagic(3, 1));
  }

  /* ---------- the operations as the source carries them out ---------- */

  class DrmDevice {
    var master: Option<MasterId>
    var masters: map<MasterId, Master>
    var files: map<FileId, File>

    function View(): Device
      reads this
    {
      Device(master, masters, files)
    }

    ghost predicate Valid()
      reads this
    {
      RefInv(View())
    }

    constructor ()
      ensures Valid() && View() == Initial
    {
      master, masters, files := None, map[], map[];
    }

    // drm_master_get
    method Get(m: MasterId)
      requires m in masters
      modifies this`masters
      ensures View() == Ref(old(View()), m)
      // One reference more than pointers, for the pointer that follows; no other count suffers.
      ensures old(RefOk(View(), m)) ==> masters[m].refcount == Refs(View(), m) + 1
      ensures forall n :: n != m && old(RefOk(View(), n)) ==> RefOk(View(), n)
    {
      masters := masters[m := masters[m].(refcount := masters[m].refcount + 1)];
    }

    // drm_master_put, and drm_master_destroy when the count reaches zero.
    method Put(m: MasterId)
      requires m in masters
      modifies this`masters
      ensures View() == Unref(old(View()), m)
      // After a pointer has gone the count is right again, and the master with the last pointer is
      // destroyed; no other count suffers.
      ensures old(masters[m].refcount) == Refs(View(), m) + 1 ==>
        RefOk(View(), m) && (m in masters <==> Refs(View(), m) > 0)
      ensures forall n :: n != m && old(RefOk(View(), n)) ==> RefOk(View(), n)
    {
      var count := masters[m].refcount - 1;
      if count == 0 {
        masters := masters - {m};
      } else {
        masters := masters[m := masters[m].(refcount := count)];
      }
    }

    // drm_set_master: when the hook refuses, the reference taken is given back.
    method Install(f: FileId, setRet: int) returns (ret: int)
      requires f in files && files[f].master.Some? && files[f].master.value in masters
      requires masters[files[f].master.value].refcount >= 1
      modifies this`master, this`masters
      ensures ret == setRet
      ensures View() ==
        if setRet != 0 then old(View()).(master := None)
        else Ref(old(View()).(master := files[f].master), files[f].master.value)
    {
      var m := files[f].master.value;
      Get(m);
      master := Some(m);
      if setRet != 0 {
        Put(m);
        master := None;
        RefUnref(old(View()), m);
      }
      return setRet;
    }

    // drm_new_set_master, for a file that may have no master yet.
    method NewSetMaster(f: FileId, hooks: Hooks) returns (ret: int)
      requires f in files && master.None?
      requires hooks.addr.Some? ==> hooks.addr.value !in masters
      requires files[f].master.Some? ==> files[f].master.value in masters
      modifies this
      ensures ret ==
        if hooks.addr.None? then -ENOMEM else if hooks.createRet != 0 then hooks.createRet else hooks.setRet
      ensures var d, file := old(View()), old(files[f]);
        View() ==
          if hooks.addr.None? || hooks.createRet != 0 then d
          else if hooks.setRet != 0 then
            d.(files := d.files[f := file.(isMaster := true, authenticated := true)])
          else
            var crowned := Crown(d, f, file, hooks.addr.value);
            if file.master.Some? then Unref(crowned, file.master.value) else crowned
    {
      var prev := files[f].master;
      if hooks.addr.None? {
        return -ENOMEM;
      }
      var m := hooks.addr.value;
      masters := masters[m := Master(1, map[])];
      files := files[f := files[f].(master := Some(m))];
      if hooks.createRet != 0 {
        ret := hooks.createRet;
      } else {
        files := files[f := files[f].(isMaster := true, authenticated := true)];
        ret := Install(f, hooks.setRet);
        if ret == 0 {
          if prev.Some? {
            Put(prev.value);
          }
          return 0;
        }
      }
      // Give up the new master and restore the old one.
      Put(m);
      files := files[f := files[f].(master := prev)];
      assert masters == old(masters);
    }

    // drm_master_open; a file whose open fails is freed by its caller.
    method OpenFile(f: FileId, admin: bool, hooks: Hooks) returns (ret: int)
      requires Valid() && Possible(View(), Open(f, admin, hooks))
      modifies this
      ensures Valid() && (View(), ret) == Step(old(View()), Open(f, admin, hooks))
    {
      StepKeepsRefs(View(), Open(f, admin, hooks));
      files := files[f := File(None, false, admin, 0)];
      ret := 0;
      if master.None? {
        ret := NewSetMaster(f, hooks);
      } else {
        files := files[f := files[f].(master := master)];
        Get(master.value);
      }
      if ret != 0 {
        files := files - {f};
        assert files == old(files);
      } else {
        assert files == old(files)[f := files[f]];
      }
    }

    // drm_setmaster_ioctl
    method SetMasterIoctl(f: FileId, hooks: Hooks) returns (ret: int)
      requires Valid() && Possible(View(), SetMaster(f, hooks))
      modifies this
      ensures Valid() && (View(), ret) == Step(old(View()), SetMaster(f, hooks))
    {
      StepKeepsRefs(View(), SetMaster(f, hooks));
      assert FileOk(View(), f) && RefOk(View(), MasterOf(View(), f));
      if IsCurrent(View(), f) {
        return 0;
      }
      if master.Some? {
        return -EINVAL;
      }
      if !files[f].isMaster {
        ret := NewSetMaster(f, hooks);
        return;
      }
      ret := Install(f, hooks.setRet);
    }

    // drm_dropmaster_ioctl
    method DropMasterIoctl(f: FileId) returns (ret: int)
      requires Valid() && f in files
      modifies this
      ensures Valid() && (View(), ret) == Step(old(View()), DropMaster(f))
    {
      StepKeepsRefs(View(), DropMaster(f));
      assert FileOk(View(), f);
      if !IsCurrent(View(), f) {
        return -EINVAL;
      }
      Put(master.value);
      master := None;
      return 0;
    }

    // drm_master_release, after which the file is freed.
    method ReleaseFile(f: FileId)
      requires Valid() && f in files
      modifies this
      ensures Valid() && View() == Step(old(View()), Release(f)).0
    {
      StepKeepsRefs(View(), Release(f));
      var m := MasterOf(View(), f);
      var current := IsCurrent(View(), f);
      if current {
        CurrentHasTwoRefs(View(), f);
      }
      if files[f].magic != 0 {
        masters := masters[m := masters[m].(magic := masters[m].magic - {files[f].magic})];
      }
      if current {
        Put(m);
        master := None;
      }
      Put(m);
      files := files - {f};
    }

    // drm_getmagic
    method GetMagicIoctl(f: FileId, idr: int) returns (ret: int, magic: int)
      requires Valid() && Possible(View(), GetMagic(f, idr))
      modifies this
      ensures Valid() && (View(), ret) == Step(old(View()), GetMagic(f, idr))
      ensures magic == files[f].magic && (ret == 0 ==> magic != 0)
    {
      StepKeepsRefs(View(), GetMagic(f, idr));
      var m := MasterOf(View(), f);
      ret := 0;
      if files[f].magic == 0 {
        ret := idr;
        if ret >= 0 {
          masters := masters[m := masters[m].(magic := masters[m].magic[ret := Some(f)])];
          files := files[f := files[f].(magic := ret)];
        }
      }
      magic := files[f].magic;
      ret := if ret < 0 then ret else 0;
    }

    // drm_authmagic
    method AuthMagicIoctl(f: FileId, magic: int) returns (ret: int)
      requires Valid() && f in files
      modifies this
      ensures Valid() && (View(), ret) == Step(old(View()), AuthMagic(f, magic))
    {
      StepKeepsRefs(View(), AuthMagic(f, magic));
      var m := MasterOf(View(), f);
      var h := Holder(View(), m, magic);
      if h.Some? {
        if h.value in files {
          files := files[h.value := files[h.value].(authenticated := true)];
        }
        masters := masters[m := masters[m].(magic := masters[m].magic[magic := None])];
      }
      return if h.Some? then 0 else -EINVAL;
    }
  }
}
