/** What the invariant of the device map means for its callers. */
module DevMapSafety {
  import opened DevMap
  import opened DevMapIndexes
  import opened DevMapInvariant
  import opened ListCompare

  /**
   * After every harmless run, even when the indexes no longer agree: no pointer a thread, a holder or the map uses
   * leads
   * to a freed device, and no thread has crashed.
   */
  lemma {:induction false} NothingDangles(steps: seq<Step>, t: Tid, a: Addr)
    requires HarmlessRun(EMPTY, steps)
    ensures var s := Run(EMPTY, steps).value;
      && !PcOf(s, t).Crashed?
      && (a in s.db.held ==> Alive(s.db, a))
      && (forall id :: id in s.db.devices ==> Alive(s.db, s.db.devices[id]))
      && (forall n :: n in s.db.nameToId ==> FollowsTo(s.db, s.db.nameToId[n]))
      && (PcOf(s, t).Found? ==> Alive(s.db, PcOf(s, t).a))
      && (FreeingPc(PcOf(s, t), a) ==> Alive(s.db, a))
  {
    RunKeeps(steps);
    var s := Run(EMPTY, steps).value;
    StoredIsInMap(s.db, WriterAt(s));
    InMapIsCounted(s.db, WriterAt(s), a);
    forall id | id in s.db.devices
      ensures Alive(s.db, s.db.devices[id])
    {
      InMapIsCounted(s.db, WriterAt(s), s.db.devices[id]);
    }
    NamesFollow(s.db, WriterAt(s));
    if PcOf(s, t).Found? {
      InMapIsCounted(s.db, WriterAt(s), PcOf(s, t).a);
    }
    hide DataInv;
  }

  /** Whenever no call is inside the write lock, a count is one for the map plus one for each live holder. */
  lemma {:induction false} CountsAreExact(steps: seq<Step>, a: Addr)
    requires HarmlessRun(EMPTY, steps) && Run(EMPTY, steps).value.writer.None? && a in Run(EMPTY, steps).value.db.heap
    ensures var d := Run(EMPTY, steps).value.db;
      d.heap[a].refs == (if InMap(d, a) then 1 else 0) + d.held[a]
  {
    RunKeeps(steps);
    var s := Run(EMPTY, steps).value;
    assert Counted(s.db, WriterAt(s), a);
  }

  // ---- Freeing ----

  /** A step frees `a`. */
  predicate Frees(s: State, step: Step, a: Addr) {
    Take(s, step).Some? && Alive(s.db, a) && a in Take(s, step).value.db.heap && Take(s, step).value.db.heap[a].freed
  }

  function BoolCount(b: bool): nat {
    if b then 1 else 0
  }

  /** How many steps of a run free `a`. */
  function FreeCount(s: State, steps: seq<Step>, a: Addr): nat
    decreases |steps|
  {
    if steps == [] then 0
    else
      var before := Run(s, steps[..|steps| - 1]);
      FreeCount(s, steps[..|steps| - 1], a) + BoolCount(before.Some? && Frees(before.value, steps[|steps| - 1], a))
  }

  /** Memory is never un-freed or reused, and nothing writes to a freed device. */
  lemma FreedStaysFreed(s: State, step: Step, a: Addr)
    requires Inv(s) && Take(s, step).Some? && a in s.db.heap
    ensures a in Take(s, step).value.db.heap
    ensures s.db.heap[a].freed ==> Take(s, step).value.db.heap[a] == s.db.heap[a]
  {
    hide Inv, Execute;
    if step.Statement? {
      ExecuteKeepsFreed(s.db, PcOf(s, step.t), a);
    }
  }

  lemma ExecuteKeepsFreed(d: Data, w: Pc, a: Addr)
    requires a in d.heap && Execute(d, w).Some?
    ensures var after := Execute(d, w).value.0;
      a in after.heap && (d.heap[a].freed ==> after.heap[a] == d.heap[a])
  {
    hide Decide;
    DecideKeepsFreed(d, w, a);
  }

  lemma DecideKeepsFreed(d: Data, w: Pc, a: Addr)
    requires a in d.heap
    ensures w.Writing? ==> a in Decide(d, w.op).0.heap && (d.heap[a].freed ==> Decide(d, w.op).0.heap[a] == d.heap[a])
  {
    hide SameInPlace;
  }

  /** A step that frees a device is taken by the one thread that brought its count to zero. */
  lemma FreedAtZero(s: State, step: Step, a: Addr)
    requires Inv(s) && Frees(s, step, a)
    ensures AtZero(s.db, a) && FreeingPc(PcOf(s, step.t), a)
  {
    hide DataInv, Locks, Lookups, AtZero, Frees;
    FreesWhenFreeing(s, step, a);
  }

  lemma FreesWhenFreeing(s: State, step: Step, a: Addr)
    requires Frees(s, step, a)
    ensures FreeingPc(PcOf(s, step.t), a)
  {
    hide SameInPlace;
  }

  /** And that thread can always go on to free it. */
  lemma {:induction false} ZeroWillBeFreed(s: State, a: Addr) returns (step: Step)
    requires Inv(s) && AtZero(s.db, a)
    ensures Frees(s, step, a)
  {
    var t: Tid :| FreeingPc(PcOf(s, t), a);
    hide DataInv;
    step := if PcOf(s, t).Freeing? then Free(t) else Statement(t);
  }

  /** Each device is freed at most once in a run, and it has been freed exactly when it is marked so. */
  lemma {:induction false} FreedOnce(steps: seq<Step>, a: Addr)
    requires HarmlessRun(EMPTY, steps)
    ensures var d := Run(EMPTY, steps).value.db;
      FreeCount(EMPTY, steps, a) == BoolCount(a in d.heap && d.heap[a].freed)
    decreases |steps|
  {
    if steps != [] {
      var front, last := steps[..|steps| - 1], steps[|steps| - 1];
      var s := Run(EMPTY, front).value;
      FreedOnce(front, a);
      RunKeeps(front);
      if a in s.db.heap {
        FreedStaysFreed(s, last, a);
      } else {
        NewIsNotFreed(s, last, a);
      }
      hide Inv, Take;
    }
  }

  lemma NewIsNotFreed(s: State, step: Step, a: Addr)
    requires Inv(s) && Take(s, step).Some? && a !in s.db.heap
    ensures a in Take(s, step).value.db.heap ==> !Take(s, step).value.db.heap[a].freed
  {
    hide DataInv, Zeros, Locks, Lookups;
  }

  // ---- The indexes ----

  /** Name-to-id and id-to-name are mutually inverse, and every device in the map shares the stored profile object. */
  ghost predicate IndexesAgree(d: Data) {
    && (forall id :: id in d.devices ==>
          && Alive(d, d.devices[id]) && d.heap[d.devices[id]].info.id == id
          && NamedBack(d, id)
          && d.heap[d.devices[id]].info.profileName in d.profiles
          && d.profiles[d.heap[d.devices[id]].info.profileName] == d.heap[d.devices[id]].profile)
    && (forall n :: n in d.nameToId ==> d.nameToId[n].id in d.devices && NameIs(d, d.nameToId[n], n))
  }

  lemma {:induction false} IndexesAlwaysAgree(steps: seq<Step>)
    requires PermittedRun(EMPTY, steps) && Run(EMPTY, steps).value.writer.None?
    ensures IndexesAgree(Run(EMPTY, steps).value.db)
  {
    RunAgrees(steps);
    RunKeeps(steps);
    var s := Run(EMPTY, steps).value;
    StoredIsInMap(s.db, Idle);
    forall id | id in s.db.devices
      ensures Alive(s.db, s.db.devices[id])
    {
      InMapIsCounted(s.db, Idle, s.db.devices[id]);
    }
    hide Refs, InMap;
  }

  /** All of add_locked. */
  function AddLocked(d: Data, dev: Info, a: Addr, p: Addr): Data {
    Dup(d, dev, a, p).(devices := d.devices[dev.id := a], nameToId := d.nameToId[dev.name := IdRef(dev.id, a)])
  }

  /** Adding keeps the indexes inverse exactly when id and name are both new, or already belong together. */
  lemma AddLockedAgreesIff(d: Data, dev: Info, a: Addr, p: Addr)
    requires Names(d, Idle) && a !in d.heap
    ensures Names(AddLocked(d, dev, a, p), Idle)
      <==> (dev.id in d.devices || dev.name in d.nameToId
            ==> dev.name in d.nameToId && d.nameToId[dev.name].id == dev.id)
  {
    var d' := AddLocked(d, dev, a, p);
    assert d'.heap[a].info == dev && forall b :: b in d.heap ==> b in d'.heap && d'.heap[b] == d.heap[b];
    if dev.name in d.nameToId && d.nameToId[dev.name].id != dev.id {
      var other := d.nameToId[dev.name].id;
      assert NameIs(d, d.nameToId[dev.name], dev.name);
      assert !NamedBack(d', other);
    } else if dev.id in d.devices && dev.name !in d.nameToId {
      var was := d.heap[d.devices[dev.id]].info.name;
      assert NamedBack(d, dev.id);
      assert was in d'.nameToId && d'.nameToId[was].id == dev.id && d'.devices[dev.id] == a;
      assert !NameIs(d', d'.nameToId[was], was);
    } else {
      AddLockedAgrees(d, dev, a, p);
    }
  }

  lemma AddLockedAgrees(d: Data, dev: Info, a: Addr, p: Addr)
    requires Names(d, Idle) && a !in d.heap
    requires dev.id in d.devices || dev.name in d.nameToId
      ==> dev.name in d.nameToId && d.nameToId[dev.name].id == dev.id
    ensures Names(AddLocked(d, dev, a, p), Idle)
  {
    var d' := AddLocked(d, dev, a, p);
    assert d'.heap[a].info == dev && forall b :: b in d.heap ==> b in d'.heap && d'.heap[b] == d.heap[b];
    forall id | id in d'.devices
      ensures StoredAt(d', id) && NamedBack(d', id)
    {
      if id != dev.id {
        assert StoredAt(d, id) && NamedBack(d, id);
      }
    }
    forall n | n in d'.nameToId
      ensures d'.nameToId[n].id in d'.devices && NameIs(d', d'.nameToId[n], n)
    {
      if n != dev.name {
        assert NameIs(d, d.nameToId[n], n);
      }
    }
  }

  /** From a reachable state with the lock free, removing by id crashes exactly when the id is absent. */
  lemma RemoveByIdCrashesIff(s: State, id: string)
    requires Inv(s) && s.writer.None?
    ensures Decide(s.db, RemoveById(id)).1.Crashed? <==> id !in s.db.devices
    ensures Decide(s.db, RemoveById(id)).1.Crashed? <==> !Harmless(s.db, RemoveById(id))
  {
  }

  /** Every device not yet freed that has this profile name points to this profile object. */
  ghost predicate OwnersPointTo(d: Data, name: string, profile: Addr) {
    forall a :: Alive(d, a) && d.heap[a].info.profileName == name ==> d.heap[a].profile == profile
  }

  /**
   * Storing a profile never touches counts and pointers; it keeps the indexes in agreement exactly when the devices of
   * that profile name already share the object.
   */
  lemma AddProfileKeepsIff(d: Data, name: string, profile: Addr)
    requires DataInv(d, Idle)
    ensures DataInv(d.(profiles := d.profiles[name := profile]), Idle)
    ensures forall a :: AtZero(d.(profiles := d.profiles[name := profile]), a) <==> AtZero(d, a)
    ensures Agrees(d, Idle) ==>
      (Agrees(d.(profiles := d.profiles[name := profile]), Idle) <==> OwnersPointTo(d, name, profile))
    ensures Agrees(d, Idle) && Permitted(d, AddProfile(name, profile)) ==> OwnersPointTo(d, name, profile)
  {
    WritingStarts(d, AddProfile(name, profile));
    DecideAddProfile(d, name, profile);
    ProfilesKeptIff(d, name, profile);
    hide DataInv, OwnersPointTo;
  }

  lemma ProfilesKeptIff(d: Data, name: string, profile: Addr)
    ensures Agrees(d, Idle) ==>
      (Agrees(d.(profiles := d.profiles[name := profile]), Idle) <==> OwnersPointTo(d, name, profile))
    ensures Agrees(d, Idle) && name !in d.profiles ==> OwnersPointTo(d, name, profile)
  {
    var d' := d.(profiles := d.profiles[name := profile]);
    assert forall id :: id in d.devices ==> (NamedBack(d', id) <==> NamedBack(d, id));
  }

  // ---- Updating in place ----

  /**
   * A device can be updated in place by some description exactly when its automatic events do not name one resource
   * with two schedules and its protocols equal some list. Otherwise replace_device removes it and adds it anew every
   * time.
   */
  lemma InPlaceIffMatchable(dest: Info)
    ensures (exists src :: SameInPlace(dest, src)) <==> Consistent(dest.autos) && Matchable(dest.protocols)
    ensures SameInPlace(dest, dest) <==> Consistent(dest.autos) && ProtocolsEqual(dest.protocols, dest.protocols)
    ensures DistinctProtocols(dest.protocols) ==> ProtocolsEqual(dest.protocols, dest.protocols)
  {
    hide AutoEventsEqual, ProtocolsEqual, Consistent, Matchable;
    AutoEventsEqualSomethingIffConsistent(dest.autos);
    ProtocolsEqualSomethingIffMatchable(dest.protocols);
    if Consistent(dest.autos) && Matchable(dest.protocols) {
      var autos: AutoEvents :| AutoEventsEqual(dest.autos, autos);
      var protocols: Protocols :| ProtocolsEqual(dest.protocols, protocols);
      assert SameInPlace(dest, dest.(autos := autos, protocols := protocols));
    }
    if DistinctProtocols(dest.protocols) {
      ProtocolsEqualIsEquivalence(dest.protocols, dest.protocols, dest.protocols);
    }
  }
}
