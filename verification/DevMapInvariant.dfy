/** What every step of the device map keeps, as far as counts and pointers go. */
module DevMapInvariant {
  import opened CString
  import opened DevMap

  // ---- The lock ----

  predicate ReaderPc(pc: Pc) {
    pc.Reading? || pc.Found?
  }

  predicate WriterPc(pc: Pc) {
    pc.Writing? || pc.DropName? || pc.DropDevice? || pc.DropRef? || pc.DropFree? || pc.Adding? || pc.SetDevice?
      || pc.SetName?
  }

  /** The program counter of the writer, or Idle. */
  function WriterAt(s: State): Pc {
    if s.writer.Some? then PcOf(s, s.writer.value) else Idle
  }

  /** The lock excludes the writer from everyone else, and no thread has followed a null or dangling pointer. */
  ghost predicate Locks(s: State) {
    && (s.writer.Some? ==> s.readers == {})
    && forall t: Tid ::
         && (ReaderPc(PcOf(s, t)) <==> t in s.readers)
         && (WriterPc(PcOf(s, t)) <==> s.writer == Some(t))
         && !PcOf(s, t).Crashed?
  }

  // ---- Reference counts; `w` is the program counter of the writer ----

  /** The reference the writer keeps for a device that is not in the map, or not yet. */
  function Owed(w: Pc, a: Addr): int {
    if (w.DropRef? || w.SetDevice?) && w.a == a then 1 else 0
  }

  /** The count of every device: one if it is in the map, one per holder, one while the writer owes it. */
  ghost predicate Refs(d: Data, w: Pc) {
    && (forall a {:trigger Counted(d, w, a)} :: a in d.heap ==> Counted(d, w, a))
    && (forall a :: a in d.held ==> a in d.heap)
  }

  predicate Counted(d: Data, w: Pc, a: Addr)
    requires a in d.heap
  {
    && d.heap[a].refs == (if InMap(d, a) then 1 else 0) + d.held[a] + Owed(w, a)
    && (d.heap[a].freed ==> d.heap[a].refs == 0)
  }

  /** The thread has taken the count of `a` to zero and will free it. */
  predicate FreeingPc(pc: Pc, a: Addr) {
    (pc.Freeing? || pc.DropFree?) && pc.a == a
  }

  predicate AtZero(d: Data, a: Addr) {
    Alive(d, a) && d.heap[a].refs == 0
  }

  /** A device with count zero has been freed or is about to be, by exactly one thread. */
  ghost predicate Zeros(s: State) {
    && (forall a :: AtZero(s.db, a) ==> exists t: Tid :: FreeingPc(PcOf(s, t), a))
    && (forall t: Tid, a :: FreeingPc(PcOf(s, t), a) ==> AtZero(s.db, a))
    && (forall t: Tid, u: Tid, a :: FreeingPc(PcOf(s, t), a) && FreeingPc(PcOf(s, u), a) ==> t == u)
  }

  /** A device being looked up is in the map. */
  ghost predicate Lookups(s: State) {
    forall t: Tid :: PcOf(s, t).Found? ==> InMap(s.db, PcOf(s, t).a)
  }

  // ---- The maps ----

  /** Ids lead to devices of that id; names lead through the id string of a stored device of that name. */
  ghost predicate Stored(d: Data) {
    && (forall id :: id in d.devices ==> StoredAt(d, id))
    && (forall n :: n in d.nameToId ==> d.nameToId[n].id in d.devices && NameIs(d, d.nameToId[n], n))
  }

  predicate StoredAt(d: Data, id: string)
    requires id in d.devices
  {
    d.devices[id] in d.heap && d.heap[d.devices[id]].info.id == id
  }

  /** The id a name leads to is that of a stored device of this name, and the string lies in this very device. */
  predicate NameIs(d: Data, ref: IdRef, n: string)
    requires ref.id in d.devices
  {
    ref.owner == d.devices[ref.id] && ref.owner in d.heap && d.heap[ref.owner].info.name == n
  }

  // ---- What the writer may rely on at each of its statements ----

  /** The rest can be added once `dev` has been. */
  predicate RestAddable(d: Data, dev: Info, rest: seq<Info>) {
    Addable(d.nameToId.Keys + {dev.name}, d.devices.Keys + {dev.id}, rest)
  }

  ghost predicate WriterKnows(d: Data, w: Pc) {
    match w
    case Writing(op) => Harmless(d, op)
    case DropName(a, next) => InMap(d, a) && (next.Some? ==> next.value.id == d.heap[a].info.id)
    case DropDevice(a, next) =>
      && InMap(d, a) && d.heap[a].info.name !in d.nameToId
      && (next.Some? ==> next.value.id == d.heap[a].info.id)
    case DropRef(a, next) => a in d.heap && !InMap(d, a) && (next.Some? ==> next.value.id !in d.devices)
    case DropFree(a, next) => next.Some? ==> next.value.id !in d.devices
    case Adding(dev, rest) => dev.id !in d.devices && RestAddable(d, dev, rest)
    case SetDevice(a, rest) =>
      a in d.heap && d.heap[a].info.id !in d.devices && RestAddable(d, d.heap[a].info, rest)
    case SetName(a, rest) => InMap(d, a) && RestAddable(d, d.heap[a].info, rest)
    case _ => true
  }

  ghost predicate DataInv(d: Data, w: Pc) {
    Refs(d, w) && Stored(d) && WriterKnows(d, w)
  }

  ghost predicate Inv(s: State) {
    Locks(s) && Zeros(s) && Lookups(s) && DataInv(s.db, WriterAt(s))
  }

  // ---- One thread moves ----

  /** Only the program counter of `t` differs. */
  ghost predicate Moves(s: State, s': State, t: Tid) {
    forall u: Tid :: u != t ==> PcOf(s', u) == PcOf(s, u)
  }

  lemma GotoMoves(s: State, t: Tid, pc: Pc)
    ensures Moves(s, Goto(s, t, pc), t) && PcOf(Goto(s, t, pc), t) == pc
  {
  }

  predicate FreeingAny(pc: Pc) {
    pc.Freeing? || pc.DropFree?
  }

  lemma ZerosKept(s: State, s': State, t: Tid)
    requires Zeros(s) && Moves(s, s', t) && !FreeingAny(PcOf(s, t)) && !FreeingAny(PcOf(s', t))
    requires forall a :: AtZero(s.db, a) <==> AtZero(s'.db, a)
    ensures Zeros(s')
  {
    forall a | AtZero(s'.db, a)
      ensures exists u: Tid :: FreeingPc(PcOf(s', u), a)
    {
      assert AtZero(s.db, a);
      var u: Tid :| FreeingPc(PcOf(s, u), a);
      assert FreeingPc(PcOf(s', u), a);
    }
    forall u: Tid, a | FreeingPc(PcOf(s', u), a)
      ensures AtZero(s'.db, a)
    {
      assert FreeingPc(PcOf(s, u), a) && AtZero(s.db, a);
    }
  }

  lemma ZeroReached(s: State, s': State, t: Tid, b: Addr)
    requires Zeros(s) && Moves(s, s', t) && !FreeingAny(PcOf(s, t)) && FreeingPc(PcOf(s', t), b)
    requires !AtZero(s.db, b) && AtZero(s'.db, b)
    requires forall a :: a != b ==> (AtZero(s.db, a) <==> AtZero(s'.db, a))
    ensures Zeros(s')
  {
    forall a | AtZero(s'.db, a)
      ensures exists u: Tid :: FreeingPc(PcOf(s', u), a)
    {
      if a == b {
        assert FreeingPc(PcOf(s', t), b);
      } else {
        var u: Tid :| FreeingPc(PcOf(s, u), a);
        assert FreeingPc(PcOf(s', u), a);
      }
    }
    forall u: Tid, a | FreeingPc(PcOf(s', u), a)
      ensures AtZero(s'.db, a) && (u == t <==> a == b)
    {
      if u != t {
        assert FreeingPc(PcOf(s, u), a) && AtZero(s.db, a);
      }
    }
  }

  lemma ZeroFreed(s: State, s': State, t: Tid, b: Addr)
    requires Zeros(s) && Moves(s, s', t) && FreeingPc(PcOf(s, t), b) && !FreeingAny(PcOf(s', t))
    requires !AtZero(s'.db, b)
    requires forall a :: a != b ==> (AtZero(s.db, a) <==> AtZero(s'.db, a))
    ensures Zeros(s')
  {
    forall a | AtZero(s'.db, a)
      ensures exists u: Tid :: FreeingPc(PcOf(s', u), a)
    {
      var u: Tid :| FreeingPc(PcOf(s, u), a);
      assert FreeingPc(PcOf(s', u), a);
    }
    forall u: Tid, a | FreeingPc(PcOf(s', u), a)
      ensures AtZero(s'.db, a)
    {
      assert FreeingPc(PcOf(s, u), a) && AtZero(s.db, a);
    }
  }

  /** The lock is consistent after a move when it is consistent for the thread that moved. */
  lemma LocksKept(s: State, s': State, t: Tid)
    requires Locks(s) && Moves(s, s', t)
    requires s'.writer.Some? ==> s'.readers == {}
    requires forall u: Tid ::
      u != t ==> (u in s'.readers <==> u in s.readers) && (s'.writer == Some(u) <==> s.writer == Some(u))
    requires ReaderPc(PcOf(s', t)) <==> t in s'.readers
    requires WriterPc(PcOf(s', t)) <==> s'.writer == Some(t)
    requires !PcOf(s', t).Crashed?
    ensures Locks(s')
  {
  }

  // ---- Steps of readers ----

  lemma StartReadKeeps(s: State, t: Tid)
    requires Inv(s) && Take(s, StartRead(t)).Some?
    ensures Inv(Take(s, StartRead(t)).value)
  {
    hide DataInv;
    var s' := Take(s, StartRead(t)).value;
    GotoMoves(s, t, Reading);
    LocksKept(s, s', t);
    ZerosKept(s, s', t);
  }

  lemma LookupKeeps(s: State, step: Step)
    requires Inv(s) && (step.LookupId? || step.LookupName?) && Take(s, step).Some?
    ensures Inv(Take(s, step).value)
  {
    NoWriterWhileReading(s, step.t);
    StoredIsInMap(s.db, WriterAt(s));
    NamesFollow(s.db, WriterAt(s));
    hide DataInv;
    var s' := Take(s, step).value;
    if s' != s {
      GotoMoves(s, step.t, PcOf(s', step.t));
      LocksKept(s, s', step.t);
      ZerosKept(s, s', step.t);
    }
  }

  lemma StoredIsInMap(d: Data, w: Pc)
    requires DataInv(d, w)
    ensures forall id :: id in d.devices ==> StoredAt(d, id) && InMap(d, d.devices[id])
    ensures forall n :: n in d.nameToId ==> d.nameToId[n].id in d.devices && InMap(d, d.nameToId[n].owner)
  {
    hide Refs, WriterKnows;
  }

  lemma NamesFollow(d: Data, w: Pc)
    requires DataInv(d, w)
    ensures forall n :: n in d.nameToId ==> FollowsTo(d, d.nameToId[n])
  {
    StoredIsInMap(d, w);
    forall n | n in d.nameToId
      ensures FollowsTo(d, d.nameToId[n])
    {
      InMapIsCounted(d, w, d.nameToId[n].owner);
    }
    hide DataInv;
  }

  lemma NoWriterWhileReading(s: State, t: Tid)
    requires Locks(s) && ReaderPc(PcOf(s, t))
    ensures s.writer.None? && t in s.readers
  {
  }

  lemma EndReadKeeps(s: State, t: Tid)
    requires Inv(s) && Take(s, EndRead(t)).Some?
    ensures Inv(Take(s, EndRead(t)).value)
  {
    NoWriterWhileReading(s, t);
    hide DataInv;
    var s' := Take(s, EndRead(t)).value;
    GotoMoves(s, t, Idle);
    LocksKept(s, s', t);
    ZerosKept(s, s', t);
  }

  // ---- Steps that change only a count ----

  /** Only counts and freed marks differ. */
  ghost predicate SameButCounts(d: Data, d': Data) {
    && d'.heap.Keys == d.heap.Keys
    && d'.devices == d.devices && d'.nameToId == d.nameToId && d'.profiles == d.profiles
    && (forall a :: a in d.heap ==> d'.heap[a].info == d.heap[a].info && d'.heap[a].profile == d.heap[a].profile)
    && (forall a :: Alive(d', a) ==> Alive(d, a))
  }

  lemma StoredIgnoresCounts(d: Data, d': Data)
    requires SameButCounts(d, d')
    ensures Stored(d) ==> Stored(d')
  {
    hide Alive;
  }

  lemma KnowledgeIgnoresCounts(d: Data, d': Data, w: Pc)
    requires SameButCounts(d, d')
    ensures WriterKnows(d, w) ==> WriterKnows(d', w)
    ensures forall a :: InMap(d, a) <==> InMap(d', a)
  {
    hide Addable;
  }

  /** One count changes by as much as the number of holders does. */
  lemma HolderCounted(d: Data, w: Pc, b: Addr, n: int, held: multiset<Addr>)
    requires DataInv(d, w) && Alive(d, b) && (n == 1 || (n == -1 && b in d.held))
    requires held == if n == 1 then d.held + multiset{b} else d.held - multiset{b}
    ensures DataInv(AddRefs(d, b, n).(held := held), w)
  {
    var d' := AddRefs(d, b, n).(held := held);
    RefsSame(d, b, n, held);
    StoredIgnoresCounts(d, d');
    KnowledgeIgnoresCounts(d, d', w);
    hide Stored, WriterKnows, InMap, SameButCounts;
    HolderRefs(d, w, b, n, held);
    hide Refs;
  }

  lemma RefsSame(d: Data, b: Addr, n: int, held: multiset<Addr>)
    requires Alive(d, b)
    ensures SameButCounts(d, AddRefs(d, b, n).(held := held))
  {
  }

  lemma HolderRefs(d: Data, w: Pc, b: Addr, n: int, held: multiset<Addr>)
    requires Refs(d, w) && Alive(d, b) && (n == 1 || (n == -1 && b in d.held))
    requires held == if n == 1 then d.held + multiset{b} else d.held - multiset{b}
    ensures Refs(AddRefs(d, b, n).(held := held), w)
  {
    assert Counted(d, w, b);
    RefsKept(d, w, AddRefs(d, b, n).(held := held), w, b);
  }

  lemma CountKeeps(s: State, t: Tid)
    requires Inv(s) && Take(s, Count(t)).Some?
    ensures Inv(Take(s, Count(t)).value)
  {
    hide DataInv, Locks, Zeros;
    NoWriterWhileReading(s, t);
    var b := PcOf(s, t).a;
    InMapIsCounted(s.db, Idle, b);
    var d' := AddRefs(s.db, b, 1).(held := s.db.held + multiset{b});
    var s' := Goto(s, t, Reading).(db := d');
    HolderCounted(s.db, Idle, b, 1, d'.held);
    assert Take(s, Count(t)) == Some(s');
    GotoMoves(s, t, Reading);
    LocksKept(s, s', t);
    assert forall a :: AtZero(s.db, a) <==> AtZero(d', a);
    assert forall a :: InMap(s.db, a) <==> InMap(d', a);
    ZerosKept(s, s', t);
  }

  /** A device in the map, or held, has a positive count and so has not been freed. */
  lemma InMapIsCounted(d: Data, w: Pc, a: Addr)
    requires DataInv(d, w)
    ensures InMap(d, a) || a in d.held ==> Alive(d, a) && d.heap[a].refs > 0
    ensures AtZero(d, a) ==> !InMap(d, a) && d.held[a] == 0 && Owed(w, a) == 0
  {
    hide Stored, WriterKnows;
    if a in d.heap {
      assert Counted(d, w, a);
    }
  }

  /** The counts are right after a change when they are right for the one device that changed. */
  lemma RefsKept(d: Data, w: Pc, d': Data, w': Pc, b: Addr)
    requires Refs(d, w) && d'.heap.Keys == d.heap.Keys + {b}
    requires forall a :: a in d.heap && a != b ==>
      d'.heap[a].refs == d.heap[a].refs && d'.heap[a].freed == d.heap[a].freed && d'.held[a] == d.held[a]
      && Owed(w', a) == Owed(w, a) && (InMap(d', a) <==> InMap(d, a))
    requires Counted(d', w', b)
    requires forall a :: a in d'.held ==> a in d.held || a == b
    ensures Refs(d', w')
  {
    forall a | a in d'.heap
      ensures Counted(d', w', a)
    {
      if a != b {
        assert Counted(d, w, a);
      }
    }
  }

  lemma ReleaseKeeps(s: State, t: Tid, b: Addr)
    requires Inv(s) && Take(s, Release(t, b)).Some?
    ensures Inv(Take(s, Release(t, b)).value)
  {
    hide DataInv, Zeros;
    InMapIsCounted(s.db, WriterAt(s), b);
    var d' := AddRefs(s.db, b, -1).(held := s.db.held - multiset{b});
    var last := s.db.heap[b].refs == 1;
    var s' := Goto(s, t, if last then Freeing(b) else Idle).(db := d');
    assert Take(s, Release(t, b)) == Some(s');
    HolderCounted(s.db, WriterAt(s), b, -1, d'.held);
    GotoMoves(s, t, PcOf(s', t));
    LocksKept(s, s', t);
    assert forall a :: a != b ==> (AtZero(s.db, a) <==> AtZero(d', a));
    assert forall a :: InMap(s.db, a) <==> InMap(d', a);
    if last {
      ZeroReached(s, s', t, b);
    } else {
      ZerosKept(s, s', t);
    }
    hide Zeros, AtZero;
  }

  lemma FreeingKeepsData(d: Data, w: Pc, b: Addr)
    requires DataInv(d, w) && AtZero(d, b)
    ensures DataInv(MarkFreed(d, b), w)
  {
    var d' := MarkFreed(d, b);
    FreedSame(d, b);
    StoredIgnoresCounts(d, d');
    KnowledgeIgnoresCounts(d, d', w);
    hide Stored, WriterKnows, InMap, SameButCounts;
    FreedRefs(d, w, b);
    hide Refs;
  }

  lemma FreedSame(d: Data, b: Addr)
    requires b in d.heap
    ensures SameButCounts(d, MarkFreed(d, b))
  {
  }

  lemma FreedRefs(d: Data, w: Pc, b: Addr)
    requires Refs(d, w) && AtZero(d, b)
    ensures Refs(MarkFreed(d, b), w)
  {
    assert Counted(d, w, b);
    RefsKept(d, w, MarkFreed(d, b), w, b);
  }

  lemma FreeKeeps(s: State, t: Tid)
    requires Inv(s) && Take(s, Free(t)).Some?
    ensures Inv(Take(s, Free(t)).value)
  {
    hide DataInv;
    var b := PcOf(s, t).a;
    assert FreeingPc(PcOf(s, t), b) && AtZero(s.db, b);
    var s' := Goto(s, t, Idle).(db := MarkFreed(s.db, b));
    assert Take(s, Free(t)) == Some(s');
    FreeingKeepsData(s.db, WriterAt(s), b);
    hide Take;
    GotoMoves(s, t, Idle);
    LocksKept(s, s', t);
    hide Locks;
    assert forall a :: a != b ==> (AtZero(s.db, a) <==> AtZero(s'.db, a));
    assert forall a :: InMap(s.db, a) <==> InMap(s'.db, a);
    ZeroFreed(s, s', t, b);
    hide Zeros, AtZero;
  }

  lemma StartWriteKeeps(s: State, t: Tid, op: Write)
    requires Inv(s) && Take(s, StartWrite(t, op)).Some? && Harmless(s.db, op)
    ensures Inv(Take(s, StartWrite(t, op)).value)
  {
    var s' := Take(s, StartWrite(t, op)).value;
    GotoMoves(s, t, Writing(op));
    LocksKept(s, s', t);
    ZerosKept(s, s', t);
    WritingStarts(s.db, op);
    hide DataInv, Zeros;
  }

  lemma WritingStarts(d: Data, op: Write)
    requires DataInv(d, Idle) && Harmless(d, op)
    ensures DataInv(d, Writing(op))
  {
    RefsWithoutOwed(d, Idle, Writing(op));
    hide Refs, Harmless;
  }

  // ---- Statements under the write lock ----

  lemma DecidePopulate(d: Data, devs: seq<Info>)
    requires DataInv(d, Writing(Populate(devs)))
    ensures var (d', w) := Decide(d, Populate(devs)); DataInv(d', w) && d' == d && (w.Idle? || WriterPc(w))
  {
    hide Refs, InMap;
    RefsWithoutOwed(d, Writing(Populate(devs)), Decide(d, Populate(devs)).1);
  }

  /** Program counters at which the writer owes nothing are alike to the counts. */
  lemma RefsWithoutOwed(d: Data, w: Pc, w': Pc)
    requires Refs(d, w) && forall a :: Owed(w', a) == Owed(w, a)
    ensures Refs(d, w')
  {
    forall a | a in d.heap
      ensures Counted(d, w', a)
    {
      assert Counted(d, w, a);
    }
  }

  lemma DecideReplace(d: Data, dev: Info)
    requires DataInv(d, Writing(Replace(dev)))
    ensures var (d', w) := Decide(d, Replace(dev));
      DataInv(d', w) && (w.Idle? || WriterPc(w))
        && forall a :: (AtZero(d', a) <==> AtZero(d, a)) && (InMap(d', a) <==> InMap(d, a))
  {
    var w := Writing(Replace(dev));
    StoredIsInMap(d, w);
    if dev.id !in d.devices {
      RefsWithoutOwed(d, w, Adding(dev, []));
    } else {
      var a := d.devices[dev.id];
      InMapIsCounted(d, w, a);
      if SameInPlace(d.heap[a].info, dev) {
        RefsWithoutOwed(d, w, Idle);
        InPlaceKeeps(d, a, dev.details);
      } else {
        RefsWithoutOwed(d, w, DropName(a, Some(dev)));
      }
    }
  }

  /** update_in_place writes no field the maps or the counts look at. */
  lemma InPlaceKeeps(d: Data, a: Addr, details: Details)
    requires DataInv(d, Idle) && a in d.heap
    ensures var d' := d.(heap := d.heap[a := d.heap[a].(info := d.heap[a].info.(details := details))]);
      DataInv(d', Idle) && forall b :: (AtZero(d', b) <==> AtZero(d, b)) && (InMap(d', b) <==> InMap(d, b))
  {
    hide Stored;
    var d' := d.(heap := d.heap[a := d.heap[a].(info := d.heap[a].info.(details := details))]);
    assert forall b :: b in d'.heap <==> b in d.heap;
    assert Counted(d, Idle, a);
    RefsKept(d, Idle, d', Idle, a);
    InPlaceStored(d, a, details);
    hide Refs, Counted;
  }

  lemma InPlaceStored(d: Data, a: Addr, details: Details)
    requires Stored(d) && a in d.heap
    ensures Stored(d.(heap := d.heap[a := d.heap[a].(info := d.heap[a].info.(details := details))]))
  {
  }

  lemma DecideRemove(d: Data, op: Write)
    requires (op.RemoveByName? || op.RemoveById?) && DataInv(d, Writing(op))
    ensures var (d', w) := Decide(d, op); DataInv(d', w) && d' == d && (w.Idle? || WriterPc(w))
  {
    StoredIsInMap(d, Writing(op));
    NamesFollow(d, Writing(op));
    hide FollowsTo;
    RefsWithoutOwed(d, Writing(op), Decide(d, op).1);
    hide Refs;
  }

  lemma DecideAddProfile(d: Data, name: string, profile: Addr)
    requires DataInv(d, Writing(AddProfile(name, profile)))
    ensures var (d', w) := Decide(d, AddProfile(name, profile)); DataInv(d', w) && w.Idle?
    ensures var d' := Decide(d, AddProfile(name, profile)).0; forall a :: AtZero(d', a) <==> AtZero(d, a)
  {
    var d' := d.(profiles := d.profiles[name := profile]);
    RefsWithoutOwed(d, Writing(AddProfile(name, profile)), Idle);
    assert Refs(d', Idle) by {
      forall a | a in d.heap
        ensures Counted(d', Idle, a)
      {
        assert Counted(d, Idle, a);
      }
    }
    hide Refs;
  }

  lemma DropNameKeeps(d: Data, a: Addr, next: Option<Info>)
    requires DataInv(d, DropName(a, next))
    ensures Alive(d, a)
    ensures DataInv(d.(nameToId := d.nameToId - {d.heap[a].info.name}), DropDevice(a, next))
  {
    InMapIsCounted(d, DropName(a, next), a);
    DropNameStores(d, a, next);
    var d' := d.(nameToId := d.nameToId - {d.heap[a].info.name});
    assert Counted(d, DropName(a, next), a);
    RefsKept(d, DropName(a, next), d', DropDevice(a, next), a);
    hide Refs, Stored, WriterKnows;
  }

  lemma DropNameStores(d: Data, a: Addr, next: Option<Info>)
    requires Stored(d) && WriterKnows(d, DropName(a, next))
    ensures var d' := d.(nameToId := d.nameToId - {d.heap[a].info.name});
      Stored(d') && WriterKnows(d', DropDevice(a, next))
  {
  }

  lemma DropDeviceKeeps(d: Data, a: Addr, next: Option<Info>)
    requires DataInv(d, DropDevice(a, next))
    ensures Alive(d, a)
    ensures DataInv(d.(devices := d.devices - {d.heap[a].info.id}), DropRef(a, next))
  {
    InMapIsCounted(d, DropDevice(a, next), a);
    DropDeviceStores(d, a, next);
    var d' := d.(devices := d.devices - {d.heap[a].info.id});
    assert Counted(d, DropDevice(a, next), a);
    RefsKept(d, DropDevice(a, next), d', DropRef(a, next), a);
    hide Refs, Stored, WriterKnows;
  }

  lemma DropDeviceStores(d: Data, a: Addr, next: Option<Info>)
    requires Stored(d) && WriterKnows(d, DropDevice(a, next))
    ensures var d' := d.(devices := d.devices - {d.heap[a].info.id});
      Stored(d') && WriterKnows(d', DropRef(a, next))
  {
  }

  lemma DropRefKeeps(d: Data, a: Addr, next: Option<Info>)
    requires DataInv(d, DropRef(a, next))
    ensures Alive(d, a) && d.heap[a].refs > 0
    ensures DataInv(AddRefs(d, a, -1), AfterDrop(next)) && DataInv(AddRefs(d, a, -1), DropFree(a, next))
  {
    var (w, d') := (DropRef(a, next), AddRefs(d, a, -1));
    DropRefRefs(d, a, next);
    RefsSame(d, a, -1, d.held);
    StoredIgnoresCounts(d, d');
    KnowledgeIgnoresCounts(d, d', w);
    hide Stored, WriterKnows, InMap, SameButCounts, Refs;
    NothingAfterDrop(d', a, next);
  }

  lemma DropRefRefs(d: Data, a: Addr, next: Option<Info>)
    requires Refs(d, DropRef(a, next)) && a in d.heap && !InMap(d, a)
    ensures Alive(d, a) && d.heap[a].refs > 0
    ensures Refs(AddRefs(d, a, -1), AfterDrop(next)) && Refs(AddRefs(d, a, -1), DropFree(a, next))
  {
    var (w, d') := (DropRef(a, next), AddRefs(d, a, -1));
    assert Counted(d, w, a);
    RefsKept(d, w, d', AfterDrop(next), a);
    RefsKept(d, w, d', DropFree(a, next), a);
  }

  lemma NothingAfterDrop(d: Data, a: Addr, next: Option<Info>)
    requires WriterKnows(d, DropRef(a, next))
    ensures WriterKnows(d, DropFree(a, next)) && WriterKnows(d, AfterDrop(next))
  {
  }

  lemma DropFreeKeeps(d: Data, a: Addr, next: Option<Info>)
    requires DataInv(d, DropFree(a, next)) && AtZero(d, a)
    ensures DataInv(MarkFreed(d, a), AfterDrop(next))
  {
    var d' := MarkFreed(d, a);
    FreeingKeepsData(d, DropFree(a, next), a);
    RefsWithoutOwed(d', DropFree(a, next), AfterDrop(next));
    hide Refs;
  }

  lemma DuplicateKeepsData(d: Data, dev: Info, rest: seq<Info>, a: Addr, p: Addr)
    requires DataInv(d, Adding(dev, rest)) && a !in d.heap
    ensures DataInv(Dup(d, dev, a, p), SetDevice(a, rest))
  {
    hide Addable, Stored;
    var d' := Dup(d, dev, a, p);
    assert forall b :: b in d'.heap <==> b in d.heap || b == a;
    assert forall b :: b in d.heap ==> d'.heap[b] == d.heap[b];
    RefsKept(d, Adding(dev, rest), d', SetDevice(a, rest), a);
    DuplicateStored(d, dev, a, p);
    hide Refs;
  }

  lemma DuplicateStored(d: Data, dev: Info, a: Addr, p: Addr)
    requires Stored(d) && a !in d.heap
    ensures Stored(Dup(d, dev, a, p))
  {
  }

  lemma SetDeviceKeeps(d: Data, a: Addr, rest: seq<Info>)
    requires DataInv(d, SetDevice(a, rest))
    ensures Alive(d, a)
    ensures DataInv(d.(devices := d.devices[d.heap[a].info.id := a]), SetName(a, rest))
  {
    assert Counted(d, SetDevice(a, rest), a);
    SetDeviceStores(d, a, rest);
    var d' := d.(devices := d.devices[d.heap[a].info.id := a]);
    RefsKept(d, SetDevice(a, rest), d', SetName(a, rest), a);
    hide Refs, Stored, WriterKnows;
  }

  lemma SetDeviceStores(d: Data, a: Addr, rest: seq<Info>)
    requires Stored(d) && WriterKnows(d, SetDevice(a, rest))
    ensures var d' := d.(devices := d.devices[d.heap[a].info.id := a]);
      Stored(d') && WriterKnows(d', SetName(a, rest))
  {
    hide Addable;
    var d' := d.(devices := d.devices[d.heap[a].info.id := a]);
    assert d'.devices.Keys + {d.heap[a].info.id} == d.devices.Keys + {d.heap[a].info.id};
  }

  lemma SetNameKeeps(d: Data, a: Addr, rest: seq<Info>)
    requires DataInv(d, SetName(a, rest))
    ensures Alive(d, a)
    ensures DataInv(d.(nameToId := d.nameToId[d.heap[a].info.name := IdRef(d.heap[a].info.id, a)]),
                    Writing(Populate(rest)))
  {
    var d' := d.(nameToId := d.nameToId[d.heap[a].info.name := IdRef(d.heap[a].info.id, a)]);
    InMapIsCounted(d, SetName(a, rest), a);
    SetNameStores(d, a, rest);
    assert Counted(d, SetName(a, rest), a);
    RefsKept(d, SetName(a, rest), d', Writing(Populate(rest)), a);
    hide WriterKnows, Refs, Stored;
  }

  lemma SetNameStores(d: Data, a: Addr, rest: seq<Info>)
    requires Stored(d) && WriterKnows(d, SetName(a, rest))
    ensures var d' := d.(nameToId := d.nameToId[d.heap[a].info.name := IdRef(d.heap[a].info.id, a)]);
      Stored(d') && WriterKnows(d', Writing(Populate(rest)))
  {
    hide Addable;
    var d' := d.(nameToId := d.nameToId[d.heap[a].info.name := IdRef(d.heap[a].info.id, a)]);
    assert d'.nameToId.Keys == d.nameToId.Keys + {d.heap[a].info.name};
    assert d.devices.Keys + {d.heap[a].info.id} == d.devices.Keys;
  }

  // ---- Every step, every run ----

  /** Which counts are at zero changes only as the program counter says. */
  ghost predicate ZerosFollow(d: Data, w: Pc, d': Data, w': Pc) {
    if w'.DropFree? then !w.DropFree? && !AtZero(d, w'.a) && AtZero(d', w'.a) && OthersAtZero(d, d', w'.a)
    else if w.DropFree? then !AtZero(d', w.a) && OthersAtZero(d, d', w.a)
    else forall a :: AtZero(d, a) <==> AtZero(d', a)
  }

  ghost predicate OthersAtZero(d: Data, d': Data, b: Addr) {
    forall a :: a != b ==> (AtZero(d, a) <==> AtZero(d', a))
  }

  lemma DecideKeeps(d: Data, op: Write)
    requires DataInv(d, Writing(op))
    ensures var (d', w') := Decide(d, op);
      DataInv(d', w') && (w'.Idle? || WriterPc(w')) && ZerosFollow(d, Writing(op), d', w')
  {
    hide DataInv;
    match op
    case Populate(devs) => DecidePopulate(d, devs);
    case Replace(dev) => DecideReplace(d, dev);
    case RemoveByName(_) => DecideRemove(d, op);
    case RemoveById(_) => DecideRemove(d, op);
    case AddProfile(name, profile) => DecideAddProfile(d, name, profile);
  }

  lemma ExecuteKeeps(d: Data, w: Pc)
    requires DataInv(d, w) && Execute(d, w).Some? && (w.DropFree? ==> AtZero(d, w.a))
    ensures var (d', w') := Execute(d, w).value;
      DataInv(d', w') && (w'.Idle? || WriterPc(w')) && ZerosFollow(d, w, d', w')
  {
    hide DataInv, Decide;
    match w
    case Writing(op) => DecideKeeps(d, op);
    case DropName(a, next) => DropNameKeeps(d, a, next);
    case DropDevice(a, next) => DropDeviceKeeps(d, a, next);
    case DropRef(a, next) => DropRefKeeps(d, a, next);
    case DropFree(a, next) => DropFreeKeeps(d, a, next);
    case SetDevice(a, rest) => SetDeviceKeeps(d, a, rest);
    case SetName(a, rest) => SetNameKeeps(d, a, rest);
    case _ =>
  }

  /** A thread that holds the write lock makes a move that keeps the data invariant. */
  lemma WriterMoves(s: State, t: Tid, d': Data, w': Pc)
    requires Inv(s) && s.writer == Some(t)
    requires DataInv(d', w') && (w'.Idle? || WriterPc(w')) && ZerosFollow(s.db, PcOf(s, t), d', w')
    ensures Inv(Goto(s, t, w').(db := d', writer := if w'.Idle? then None else s.writer))
  {
    hide DataInv;
    var s' := Goto(s, t, w').(db := d', writer := if w'.Idle? then None else s.writer);
    GotoMoves(s, t, w');
    LocksKept(s, s', t);
    if w'.DropFree? {
      ZeroReached(s, s', t, w'.a);
    } else if PcOf(s, t).DropFree? {
      ZeroFreed(s, s', t, PcOf(s, t).a);
    } else {
      ZerosKept(s, s', t);
    }
    hide Zeros, AtZero;
  }

  lemma StatementKeeps(s: State, t: Tid)
    requires Inv(s) && Take(s, Statement(t)).Some?
    ensures Inv(Take(s, Statement(t)).value)
  {
    var w := PcOf(s, t);
    assert WriterPc(w) && s.writer == Some(t);
    if w.DropFree? {
      assert FreeingPc(w, w.a) && AtZero(s.db, w.a);
    }
    hide DataInv, Execute, Zeros, Locks, Lookups;
    ExecuteKeeps(s.db, w);
    var (d', w') := Execute(s.db, w).value;
    WriterMoves(s, t, d', w');
  }

  lemma DuplicateKeeps(s: State, t: Tid, a: Addr, p: Addr)
    requires Inv(s) && Take(s, Duplicate(t, a, p)).Some?
    ensures Inv(Take(s, Duplicate(t, a, p)).value)
  {
    var w := PcOf(s, t);
    assert WriterPc(w) && s.writer == Some(t);
    hide DataInv, Zeros, Locks, Lookups;
    DuplicateKeepsData(s.db, w.dev, w.rest, a, p);
    WriterMoves(s, t, Dup(s.db, w.dev, a, p), SetDevice(a, w.rest));
  }

  lemma StepKeeps(s: State, step: Step)
    requires Inv(s) && Take(s, step).Some? && StepHarmless(s, step)
    ensures Inv(Take(s, step).value)
  {
    hide Inv, Take;
    match step
    case StartRead(t) => StartReadKeeps(s, t);
    case LookupId(_, _) => LookupKeeps(s, step);
    case LookupName(_, _) => LookupKeeps(s, step);
    case Count(t) => CountKeeps(s, t);
    case EndRead(t) => EndReadKeeps(s, t);
    case Release(t, a) => ReleaseKeeps(s, t, a);
    case Free(t) => FreeKeeps(s, t);
    case StartWrite(t, op) => StartWriteKeeps(s, t, op);
    case Statement(t) => StatementKeeps(s, t);
    case Duplicate(t, a, p) => DuplicateKeeps(s, t, a, p);
  }

  lemma EmptyHolds()
    ensures Inv(EMPTY)
  {
  }

  /** The invariant holds after every harmless run, however the threads interleave. */
  lemma {:induction false} RunKeeps(steps: seq<Step>)
    requires HarmlessRun(EMPTY, steps)
    ensures Inv(Run(EMPTY, steps).value)
    decreases |steps|
  {
    hide Inv, Take;
    if steps == [] {
      EmptyHolds();
    } else {
      RunKeeps(steps[..|steps| - 1]);
      StepKeeps(Run(EMPTY, steps[..|steps| - 1]).value, steps[|steps| - 1]);
    }
  }
}
