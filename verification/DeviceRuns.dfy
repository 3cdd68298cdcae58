/** The calls of the device map as runs of the state machine, and runs that show where harm comes from. */
module DeviceRuns {
  import opened CString
  import opened DevMap
  import opened DevMapIndexes
  import opened DevMapInvariant
  import opened DevMapSafety
  import opened DeviceCalls

  // ---- Each call is a run of one thread of the state machine ----

  /** Thread `t` of `s` holds the write lock at `w`, with the data `d`. */
  function Inside(s: State, t: Tid, d: Data, w: Pc): State {
    s.(db := d, writer := Some(t), pcs := s.pcs[t := w])
  }

  function Done(s: State, t: Tid, d: Data): State {
    s.(db := d, writer := None, pcs := s.pcs[t := Idle])
  }

  lemma OneMoreStep(s: State, steps: seq<Step>, middle: State, step: Step, after: State)
    requires Run(s, steps) == Some(middle) && Take(middle, step) == Some(after)
    ensures Run(s, steps + [step]) == Some(after)
  {
    hide Take;
    assert (steps + [step])[..|steps|] == steps;
  }

  lemma OneStatement(s: State, from: State, steps: seq<Step>, t: Tid, d: Data, w: Pc)
    requires Run(from, steps) == Some(Inside(s, t, d, w)) && Execute(d, w).Some?
    ensures var (d', w') := Execute(d, w).value;
      Run(from, steps + [Statement(t)]) == Some(if w'.Idle? then Done(s, t, d') else Inside(s, t, d', w'))
  {
    var (d', w') := Execute(d, w).value;
    var middle := Inside(s, t, d, w);
    var after := if w'.Idle? then Done(s, t, d') else Inside(s, t, d', w');
    hide Execute, Run;
    assert middle.pcs[t := w'] == s.pcs[t := w'];
    OneMoreStep(from, steps, middle, Statement(t), after);
  }

  lemma AddRuns(s: State, from: State, steps: seq<Step>, t: Tid, d: Data, dev: Info, rest: seq<Info>, a: Addr, p: Addr)
    requires Run(from, steps) == Some(Inside(s, t, d, Adding(dev, rest))) && a !in d.heap
    ensures Run(from, steps + [Duplicate(t, a, p), Statement(t), Statement(t)])
         == Some(Inside(s, t, AddLocked(d, dev, a, p), Writing(Populate(rest))))
  {
    var d1 := Dup(d, dev, a, p);
    var d2 := d1.(devices := d1.devices[dev.id := a]);
    AddExecutes(d, dev, rest, a, p);
    hide *;
    DuplicateRuns(s, from, steps, t, d, dev, rest, a, p);
    var steps1 := steps + [Duplicate(t, a, p)];
    OneStatement(s, from, steps1, t, d1, SetDevice(a, rest));
    OneStatement(s, from, steps1 + [Statement(t)], t, d2, SetName(a, rest));
    assert steps1 + [Statement(t)] + [Statement(t)] == steps + [Duplicate(t, a, p), Statement(t), Statement(t)];
  }

  lemma AddExecutes(d: Data, dev: Info, rest: seq<Info>, a: Addr, p: Addr)
    requires a !in d.heap
    ensures var d1 := Dup(d, dev, a, p);
      var d2 := d1.(devices := d1.devices[dev.id := a]);
      && Execute(d1, SetDevice(a, rest)) == Some((d2, SetName(a, rest)))
      && Execute(d2, SetName(a, rest)) == Some((AddLocked(d, dev, a, p), Writing(Populate(rest))))
  {
  }

  lemma DuplicateRuns(s: State, from: State, steps: seq<Step>, t: Tid, d: Data, dev: Info, rest: seq<Info>, a: Addr,
                      p: Addr)
    requires Run(from, steps) == Some(Inside(s, t, d, Adding(dev, rest))) && a !in d.heap
    ensures Run(from, steps + [Duplicate(t, a, p)]) == Some(Inside(s, t, Dup(d, dev, a, p), SetDevice(a, rest)))
  {
    hide Dup, Run;
    var middle := Inside(s, t, d, Adding(dev, rest));
    assert middle.pcs[t := SetDevice(a, rest)] == s.pcs[t := SetDevice(a, rest)];
    OneMoreStep(from, steps, middle, Duplicate(t, a, p), Inside(s, t, Dup(d, dev, a, p), SetDevice(a, rest)));
  }

  lemma RemoveRuns(s: State, from: State, steps: seq<Step>, t: Tid, d: Data, a: Addr, next: Option<Info>)
    returns (all: seq<Step>)
    requires Run(from, steps) == Some(Inside(s, t, d, DropName(a, next))) && Alive(d, a)
    ensures ThenStatements(steps, all, t)
    ensures next.None? ==> Run(from, all) == Some(Done(s, t, Removed(d, a)))
    ensures next.Some? ==> Run(from, all) == Some(Inside(s, t, Removed(d, a), Adding(next.value, [])))
  {
    var d1 := d.(nameToId := d.nameToId - {d.heap[a].info.name});
    var d2 := d1.(devices := d1.devices - {d.heap[a].info.id});
    var d3 := AddRefs(d2, a, -1);
    var last := d.heap[a].refs == 1;
    assert Execute(d, DropName(a, next)) == Some((d1, DropDevice(a, next)));
    assert Execute(d1, DropDevice(a, next)) == Some((d2, DropRef(a, next)));
    assert Execute(d2, DropRef(a, next)) == Some((d3, if last then DropFree(a, next) else AfterDrop(next)));
    assert last ==> Execute(d3, DropFree(a, next)) == Some((MarkFreed(d3, a), AfterDrop(next)));
    assert Removed(d, a) == if last then MarkFreed(d3, a) else d3;
    hide Execute, Run, Removed, Inside, Done, ThenStatements;
    OneStatement(s, from, steps, t, d, DropName(a, next));
    all := steps + [Statement(t)];
    OneStatement(s, from, all, t, d1, DropDevice(a, next));
    all := all + [Statement(t)];
    OneStatement(s, from, all, t, d2, DropRef(a, next));
    all := all + [Statement(t)];
    FewStatements(steps, t);
    if last {
      OneStatement(s, from, all, t, d3, DropFree(a, next));
      all := all + [Statement(t)];
    }
  }

  /** All steps after the first ones are statements under the write lock. */
  predicate ThenStatements(steps: seq<Step>, all: seq<Step>, t: Tid) {
    steps <= all && forall i :: |steps| <= i < |all| ==> all[i] == Statement(t)
  }

  lemma FewStatements(steps: seq<Step>, t: Tid)
    ensures var three := steps + [Statement(t)] + [Statement(t)] + [Statement(t)];
      ThenStatements(steps, three, t) && ThenStatements(steps, three + [Statement(t)], t)
  {
  }

  lemma {:induction false} PopulateRuns(s: State, from: State, steps: seq<Step>, t: Tid, d: Data, devs: seq<Info>,
                                        at: seq<(Addr, Addr)>)
    returns (all: seq<Step>)
    requires |at| == |devs| && Run(from, steps) == Some(Inside(s, t, d, Writing(Populate(devs))))
    requires NewObjects(d, at)
    ensures Run(from, all) == Some(Done(s, t, Populated(d, devs, at)))
    decreases |devs|
  {
    hide Run, Inside, Done, Take;
    OneStatement(s, from, steps, t, d, Writing(Populate(devs)));
    all := steps + [Statement(t)];
    if devs != [] {
      var d' := d;
      OthersStayNew(d, devs[0], at);
      if devs[0].name !in d.nameToId {
        var (a, p) := at[0];
        AddRuns(s, from, all, t, d, devs[0], devs[1..], a, p);
        all := all + [Duplicate(t, a, p), Statement(t), Statement(t)];
        d' := AddLocked(d, devs[0], a, p);
      }
      all := PopulateRuns(s, from, all, t, d', devs[1..], at[1..]);
    }
  }

  lemma LockTaken(s: State, t: Tid, op: Write)
    requires PcOf(s, t).Idle? && s.writer.None? && s.readers == {}
    ensures Run(s, [StartWrite(t, op)]) == Some(Inside(s, t, s.db, Writing(op)))
  {
    assert [StartWrite(t, op)][..0] == [];
    assert Run(s, []) == Some(s);
  }

  /** From any reachable state with the lock free, a thread can carry out each call as its method does. */
  lemma ReplaceIsARun(s: State, t: Tid, dev: Info, a: Addr, p: Addr) returns (all: seq<Step>)
    requires Inv(s) && PcOf(s, t).Idle? && s.writer.None? && s.readers == {}
    requires a !in s.db.heap
    ensures dev.id in s.db.devices ==> s.db.devices[dev.id] in s.db.heap
    ensures Run(s, all) == Some(Done(s, t, Replaced(s.db, dev, a, p)))
  {
    LockTaken(s, t, Replace(dev));
    StoredIsInMap(s.db, Idle);
    if dev.id in s.db.devices {
      InMapIsCounted(s.db, Idle, s.db.devices[dev.id]);
    }
    all := [StartWrite(t, Replace(dev))];
    OneStatement(s, s, all, t, s.db, Writing(Replace(dev)));
    all := all + [Statement(t)];
    hide Inv, Run, Inside, Done, SameInPlace;
    if dev.id !in s.db.devices {
      AddRuns(s, s, all, t, s.db, dev, [], a, p);
      all := PopulateRuns(s, s, all + [Duplicate(t, a, p), Statement(t), Statement(t)], t, AddLocked(s.db, dev, a, p),
                          [], []);
    } else {
      var prior := s.db.devices[dev.id];
      if !SameInPlace(s.db.heap[prior].info, dev) {
        all := RemoveRuns(s, s, all, t, s.db, prior, Some(dev));
        var d := Removed(s.db, prior);
        AddRuns(s, s, all, t, d, dev, [], a, p);
        all := PopulateRuns(s, s, all + [Duplicate(t, a, p), Statement(t), Statement(t)], t, AddLocked(d, dev, a, p),
                            [], []);
      }
    }
  }

  lemma {:induction false} PopulateIsARun(s: State, t: Tid, devs: seq<Info>, at: seq<(Addr, Addr)>)
    returns (all: seq<Step>)
    requires PcOf(s, t).Idle? && s.writer.None? && s.readers == {}
    requires |at| == |devs| && NewObjects(s.db, at)
    ensures Run(s, all) == Some(Done(s, t, Populated(s.db, devs, at)))
  {
    LockTaken(s, t, Populate(devs));
    all := PopulateRuns(s, s, [StartWrite(t, Populate(devs))], t, s.db, devs, at);
  }

  lemma RemoveByNameIsARun(s: State, t: Tid, name: string) returns (all: seq<Step>)
    requires Inv(s) && PcOf(s, t).Idle? && s.writer.None? && s.readers == {}
    ensures name in s.db.nameToId ==> s.db.nameToId[name].owner in s.db.heap
    ensures Run(s, all) ==
      Some(Done(s, t, if name in s.db.nameToId then Removed(s.db, s.db.nameToId[name].owner) else s.db))
  {
    LockTaken(s, t, RemoveByName(name));
    NamesFollow(s.db, Idle);
    NameLeadsToOwner(s.db, name);
    all := [StartWrite(t, RemoveByName(name))];
    OneStatement(s, s, all, t, s.db, Writing(RemoveByName(name)));
    all := all + [Statement(t)];
    hide Inv, Run, Inside, Done;
    if name in s.db.nameToId {
      all := RemoveRuns(s, s, all, t, s.db, s.db.nameToId[name].owner, None);
    }
  }

  /** Removing by id: a run that ends well exactly when the id is present, and otherwise one that crashes. */
  lemma RemoveByIdIsARun(s: State, t: Tid, id: string) returns (all: seq<Step>)
    requires Inv(s) && PcOf(s, t).Idle? && s.writer.None? && s.readers == {}
    ensures id in s.db.devices ==> s.db.devices[id] in s.db.heap
    ensures Run(s, all) ==
      Some(if id in s.db.devices then Done(s, t, Removed(s.db, s.db.devices[id])) else Inside(s, t, s.db, Crashed))
  {
    LockTaken(s, t, RemoveById(id));
    StoredIsInMap(s.db, Idle);
    all := [StartWrite(t, RemoveById(id))];
    OneStatement(s, s, all, t, s.db, Writing(RemoveById(id)));
    all := all + [Statement(t)];
    if id in s.db.devices {
      InMapIsCounted(s.db, Idle, s.db.devices[id]);
      hide Inv, Run, Inside, Done;
      all := RemoveRuns(s, s, all, t, s.db, s.db.devices[id], None);
    }
  }

  lemma AddProfileIsARun(s: State, t: Tid, name: string, p: Addr) returns (all: seq<Step>)
    requires PcOf(s, t).Idle? && s.writer.None? && s.readers == {}
    ensures Run(s, all) == Some(Done(s, t, s.db.(profiles := s.db.profiles[name := p])))
  {
    LockTaken(s, t, AddProfile(name, p));
    all := [StartWrite(t, AddProfile(name, p))];
    OneStatement(s, s, all, t, s.db, Writing(AddProfile(name, p)));
    all := all + [Statement(t)];
  }

  // ---- Readers ----

  lemma TwoSteps(s: State, a: Step, s1: State, b: Step, s2: State)
    requires Take(s, a) == Some(s1) && Take(s1, b) == Some(s2)
    ensures Run(s, [a, b]) == Some(s2)
  {
    hide Take;
    assert [a, b][..1] == [a] && [a][..0] == [];
    assert Run(s, []) == Some(s) && Run(s, [a]) == Some(s1);
  }

  lemma LookupRuns(s: State, t: Tid, lookup: Step, found: Option<Addr>) returns (all: seq<Step>)
    requires Inv(s) && PcOf(s, t).Idle? && s.writer.None? && lookup.t == t
    requires found.Some? ==> Alive(s.db, found.value)
    requires var reading := Goto(s, t, Reading).(readers := s.readers + {t});
      Take(reading, lookup) == Some(if found.None? then reading else Goto(reading, t, Found(found.value)))
    ensures Run(s, all) == Some(s.(pcs := s.pcs[t := Idle],
      db := if found.None? then s.db else Held(s.db, found.value)))
  {
    ReadBegins(s, t);
    hide Inv;
    var s1 := Goto(s, t, Reading).(readers := s.readers + {t});
    var s2 := if found.None? then s1 else Goto(s1, t, Found(found.value));
    TwoSteps(s, StartRead(t), s1, lookup, s2);
    all := [StartRead(t), lookup];
    var s3 := s2;
    hide Run, Take, Held;
    if found.Some? {
      s3 := s1.(db := Held(s.db, found.value));
      CountTaken(s1, t, found.value);
      OneMoreStep(s, all, s2, Count(t), s3);
      all := all + [Count(t)];
    }
    ReadEnds(s, s3.db, t);
    OneMoreStep(s, all, s3, EndRead(t), s.(pcs := s.pcs[t := Idle], db := s3.db));
    all := all + [EndRead(t)];
  }

  lemma ReadBegins(s: State, t: Tid)
    requires Inv(s) && PcOf(s, t).Idle? && s.writer.None?
    ensures t !in s.readers
    ensures Take(s, StartRead(t)) == Some(Goto(s, t, Reading).(readers := s.readers + {t}))
  {
    hide DataInv, Zeros, Lookups;
  }

  lemma CountTaken(s: State, t: Tid, a: Addr)
    requires t in s.pcs && s.pcs[t].Reading? && Alive(s.db, a)
    ensures Take(Goto(s, t, Found(a)), Count(t)) == Some(s.(db := Held(s.db, a)))
  {
    assert s.pcs[t := Found(a)][t := Reading] == s.pcs;
  }

  lemma ReadEnds(s: State, d: Data, t: Tid)
    requires t !in s.readers
    ensures Take(Goto(s, t, Reading).(readers := s.readers + {t}, db := d), EndRead(t))
      == Some(s.(pcs := s.pcs[t := Idle], db := d))
  {
    assert s.pcs[t := Reading][t := Idle] == s.pcs[t := Idle];
    assert s.readers + {t} - {t} == s.readers;
  }

  lemma DeviceByIdIsARun(s: State, t: Tid, id: string) returns (all: seq<Step>)
    requires Inv(s) && PcOf(s, t).Idle? && s.writer.None?
    ensures id in s.db.devices ==> s.db.devices[id] in s.db.heap
    ensures Run(s, all) == Some(s.(pcs := s.pcs[t := Idle],
      db := if id in s.db.devices then Held(s.db, s.db.devices[id]) else s.db))
  {
    StoredIsInMap(s.db, Idle);
    var found := None;
    if id in s.db.devices {
      found := Some(s.db.devices[id]);
      InMapIsCounted(s.db, Idle, s.db.devices[id]);
    }
    hide Inv, Run, Held;
    all := LookupRuns(s, t, LookupId(t, id), found);
  }

  lemma DeviceByNameIsARun(s: State, t: Tid, name: string) returns (all: seq<Step>)
    requires Inv(s) && PcOf(s, t).Idle? && s.writer.None?
    ensures name in s.db.nameToId ==> s.db.nameToId[name].owner in s.db.heap
    ensures Run(s, all) == Some(s.(pcs := s.pcs[t := Idle],
      db := if name in s.db.nameToId then Held(s.db, s.db.nameToId[name].owner) else s.db))
  {
    NamesFollow(s.db, Idle);
    NameLeadsToOwner(s.db, name);
    var found := if name in s.db.nameToId then Some(s.db.nameToId[name].owner) else None;
    hide Inv, Run, Held;
    all := LookupRuns(s, t, LookupName(t, name), found);
  }

  lemma {:induction false} HandingOutRuns(s: State, from: State, steps: seq<Step>, t: Tid, ids: seq<string>,
                                          has: Addr -> bool)
    returns (all: seq<Step>)
    requires Run(from, steps) == Some(s) && t in s.pcs && s.pcs[t].Reading? && AllStored(s.db, ids)
    ensures Run(from, all) == Some(s.(db := HeldAll(s.db, Answering(s.db, ids, has))))
  {
    hide Run, Take, Held, Answers;
    all := steps;
    if ids != [] {
      var front, id := ids[..|ids| - 1], ids[|ids| - 1];
      var queue := Answering(s.db, front, has);
      all := HandingOutRuns(s, from, steps, t, front, has);
      var a := s.db.devices[id];
      if Answers(s.db.heap[a], has) {
        HeldOneMore(s.db, a, queue);
        all := HandOutOne(s.(db := HeldAll(s.db, queue)), s.db, queue, from, all, t, id);
      }
    }
  }

  lemma HandOutOne(s: State, d: Data, queue: seq<Addr>, from: State, steps: seq<Step>, t: Tid, id: string)
    returns (all: seq<Step>)
    requires Run(from, steps) == Some(s) && t in s.pcs && s.pcs[t].Reading?
    requires (forall a <- queue :: a in d.heap) && s.db == HeldAll(d, queue) && id in d.devices
      && Alive(d, d.devices[id])
    ensures id in s.db.devices && s.db.devices[id] == d.devices[id] && d.devices[id] in s.db.heap
    ensures Run(from, all) == Some(s.(db := Held(s.db, d.devices[id])))
  {
    var a := d.devices[id];
    HeldAllIs(d, queue);
    hide HeldAll, Run;
    CountTaken(s, t, a);
    OneMoreStep(from, steps, s, LookupId(t, id), Goto(s, t, Found(a)));
    OneMoreStep(from, steps + [LookupId(t, id)], Goto(s, t, Found(a)), Count(t), s.(db := Held(s.db, a)));
    all := steps + [LookupId(t, id)] + [Count(t)];
  }

  lemma ForCommandIsARun(s: State, t: Tid, ids: seq<string>, has: Addr -> bool) returns (all: seq<Step>)
    requires Inv(s) && PcOf(s, t).Idle? && s.writer.None? && forall id <- ids :: id in s.db.devices
    ensures AllStored(s.db, ids)
    ensures Run(s, all) == Some(s.(pcs := s.pcs[t := Idle], db := HeldAll(s.db, Answering(s.db, ids, has))))
  {
    StoredAreApart(s.db);
    ReadBegins(s, t);
    hide Inv, Answering, HeldAll, Take;
    var s1 := Goto(s, t, Reading).(readers := s.readers + {t});
    assert Run(s, []) == Some(s);
    OneMoreStep(s, [], s, StartRead(t), s1);
    all := HandingOutRuns(s1, s, [] + [StartRead(t)], t, ids, has);
    var d := HeldAll(s.db, Answering(s.db, ids, has));
    ReadEnds(s, d, t);
    OneMoreStep(s, all, s1.(db := d), EndRead(t), s.(pcs := s.pcs[t := Idle], db := d));
    all := all + [EndRead(t)];
  }

  lemma ReleaseIsARun(s: State, t: Tid, a: Addr) returns (all: seq<Step>)
    requires Inv(s) && PcOf(s, t).Idle? && a in s.db.held
    ensures a in s.db.heap && Run(s, all) == Some(s.(pcs := s.pcs[t := Idle], db := Released(s.db, a)))
  {
    InMapIsCounted(s.db, WriterAt(s), a);
    hide Inv;
    var last := s.db.heap[a].refs == 1;
    var d := AddRefs(s.db, a, -1).(held := s.db.held - multiset{a});
    var s1 := Goto(s, t, if last then Freeing(a) else Idle).(db := d);
    assert [Release(t, a)][..0] == [];
    assert Run(s, []) == Some(s);
    assert Run(s, [Release(t, a)]) == Some(s1);
    all := [Release(t, a)];
    hide Run;
    if last {
      assert s1.pcs[t := Idle] == s.pcs[t := Idle];
      OneMoreStep(s, all, s1, Free(t), s.(pcs := s.pcs[t := Idle], db := MarkFreed(d, a)));
      all := all + [Free(t)];
    }
  }

  // ---- Runs that end where a later call does harm ----

  lemma {:induction false} OnlyTheFirstAsks(s: State, steps: seq<Step>)
    requires Run(s, steps).Some? && steps != []
    requires forall i :: 0 < i < |steps| ==> !steps[i].StartWrite?
    ensures StepHarmless(s, steps[0]) ==> HarmlessRun(s, steps)
    ensures StepPermitted(s, steps[0]) ==> PermittedRun(s, steps)
    decreases |steps|
  {
    hide Take, Permitted, Harmless;
    var front := steps[..|steps| - 1];
    if front == [] {
      assert Run(s, front) == Some(s) && HarmlessRun(s, front) && PermittedRun(s, front);
    } else {
      OnlyTheFirstAsks(s, front);
    }
  }

  lemma {:induction false} RunOn(from: State, a: seq<Step>, middle: State, b: seq<Step>)
    requires Run(from, a) == Some(middle)
    ensures Run(from, a + b) == Run(middle, b)
    decreases |b|
  {
    hide Take;
    if b == [] {
      assert a + b == a;
    } else {
      var n := |b| - 1;
      assert (a + b)[..|a| + n] == a + b[..n] && (a + b)[|a| + n] == b[n];
      RunOn(from, a, middle, b[..n]);
    }
  }

  /** One thread populates an empty map with one device. */
  lemma OneDeviceAdded(dev: Info, a: Addr, p: Addr) returns (steps: seq<Step>)
    ensures PermittedRun(EMPTY, steps)
    ensures Run(EMPTY, steps) == Some(Done(EMPTY, 0, AddLocked(EMPTY.db, dev, a, p)))
  {
    hide *;
    var ask := [StartWrite(0, Populate([dev]))];
    var begun := ask + [Statement(0)];
    var added := begun + [Duplicate(0, a, p), Statement(0), Statement(0)];
    OnePopulates(dev, a, p);
    LockTaken(EMPTY, 0, Populate([dev]));
    OneStatement(EMPTY, EMPTY, ask, 0, EMPTY.db, Writing(Populate([dev])));
    AddRuns(EMPTY, EMPTY, begun, 0, EMPTY.db, dev, [], a, p);
    OneStatement(EMPTY, EMPTY, added, 0, AddLocked(EMPTY.db, dev, a, p), Writing(Populate([])));
    steps := added + [Statement(0)];
    OnlyTheFirstAsks(EMPTY, steps);
  }

  lemma OnePopulates(dev: Info, a: Addr, p: Addr)
    ensures PcOf(EMPTY, 0).Idle? && EMPTY.writer.None? && EMPTY.readers == {} && a !in EMPTY.db.heap
    ensures StepPermitted(EMPTY, StartWrite(0, Populate([dev])))
    ensures Execute(EMPTY.db, Writing(Populate([dev]))) == Some((EMPTY.db, Adding(dev, [])))
    ensures var d := AddLocked(EMPTY.db, dev, a, p); Execute(d, Writing(Populate([]))) == Some((d, Idle))
  {
    assert [dev][1..] == [];
    assert Addable(EMPTY.db.nameToId.Keys + {dev.name}, EMPTY.db.devices.Keys + {dev.id}, []);
    assert Addable(EMPTY.db.nameToId.Keys, EMPTY.db.devices.Keys, [dev]);
    hide AddLocked;
  }

  /** The data with one device in the map, with its count at one. */
  lemma OneDeviceIs(dev: Info, a: Addr, p: Addr)
    ensures var d := AddLocked(EMPTY.db, dev, a, p);
      && AllAgree(d) && d.heap == map[a := Device(dev, p, 1, false)] && d.held == multiset{}
      && d.devices == map[dev.id := a] && d.nameToId == map[dev.name := IdRef(dev.id, a)]
  {
    EmptyAgrees();
    AddedAgreesIff(EMPTY.db, dev, a, p);
    hide AllAgree;
  }

  /** Storing another profile object under a name that a device uses: the device keeps the old one. */
  lemma ProfileReplaced(dev: Info, a: Addr, p: Addr, q: Addr) returns (steps: seq<Step>)
    requires p != q
    ensures PermittedRun(EMPTY, steps)
    ensures var s := Run(EMPTY, steps).value;
      && s.writer.None? && PcOf(s, 0).Idle? && !OwnersPointTo(s.db, dev.profileName, q)
      && AllAgree(s.db) && !AllAgree(s.db.(profiles := s.db.profiles[dev.profileName := q]))
  {
    steps := OneDeviceAdded(dev, a, p);
    var d := AddLocked(EMPTY.db, dev, a, p);
    OneDeviceIs(dev, a, p);
    assert d.heap[a].profile == p && Alive(d, a);
    ProfilesKeptIff(d, dev.profileName, q);
    hide Agrees, Run;
  }

  /**
   * Replacing under the id `other` a device whose name belongs to another id: the first id keeps a device of that
   * name.
   */
  lemma NameTaken(dev: Info, other: string, a: Addr, p: Addr, b: Addr, q: Addr) returns (steps: seq<Step>)
    requires dev.id != other && a != b
    ensures PermittedRun(EMPTY, steps)
    ensures var s := Run(EMPTY, steps).value;
      && s.writer.None? && PcOf(s, 0).Idle? && other !in s.db.devices && b !in s.db.heap
      && AllAgree(s.db) && !AllAgree(Replaced(s.db, dev.(id := other), b, q))
  {
    steps := OneDeviceAdded(dev, a, p);
    OneDeviceIs(dev, a, p);
    ReplaceAgreesIff(AddLocked(EMPTY.db, dev, a, p), dev.(id := other), b, q);
    hide AllAgree, Run;
  }

  // ---- What a list that harms leads to ----

  predicate Points(pc: Pc, a: Addr) {
    (pc.Found? || pc.Freeing? || pc.DropName? || pc.DropDevice? || pc.DropRef? || pc.DropFree? || pc.SetDevice?
      || pc.SetName?) && pc.a == a
  }

  /** A live device that is counted, although neither the map nor a holder nor any thread leads to it. */
  ghost predicate Lost(s: State, a: Addr) {
    && Alive(s.db, a) && s.db.heap[a].refs > 0 && s.db.held[a] == 0
    && (forall id :: id in s.db.devices ==> s.db.devices[id] != a)
    && forall t: Tid :: !Points(PcOf(s, t), a)
  }

  lemma LostStays(s: State, step: Step, a: Addr)
    requires Lost(s, a) && Take(s, step).Some?
    ensures Lost(Take(s, step).value, a)
  {
    hide SameInPlace, Execute;
    var s' := Take(s, step).value;
    assert !Points(PcOf(s, step.t), a);
    if step.Statement? {
      LostInStatement(s.db, PcOf(s, step.t), a);
    }
    assert !Points(PcOf(s', step.t), a);
    forall t: Tid
      ensures !Points(PcOf(s', t), a)
    {
      assert t != step.t ==> PcOf(s', t) == PcOf(s, t);
      assert !Points(PcOf(s, t), a);
    }
  }

  lemma LostInStatement(d: Data, w: Pc, a: Addr)
    requires Alive(d, a) && d.heap[a].refs > 0 && d.held[a] == 0
      && (forall id :: id in d.devices ==> d.devices[id] != a)
    requires !Points(w, a) && Execute(d, w).Some?
    ensures var (d', w') := Execute(d, w).value;
      && Alive(d', a) && d'.heap[a].refs > 0 && d'.held[a] == 0 && !Points(w', a)
      && forall id :: id in d'.devices ==> d'.devices[id] != a
  {
    hide SameInPlace;
  }

  /** Whatever happens next, such a device is never freed. */
  lemma {:induction false} LostForever(s: State, steps: seq<Step>, a: Addr)
    requires Lost(s, a) && Run(s, steps).Some?
    ensures Lost(Run(s, steps).value, a) && FreeCount(s, steps, a) == 0
    decreases |steps|
  {
    hide Take, Lost;
    if steps != [] {
      var front, last := steps[..|steps| - 1], steps[|steps| - 1];
      LostForever(s, front, a);
      LostStays(Run(s, front).value, last, a);
      LostIsNotFreed(Run(s, front).value, last, a);
    }
  }

  lemma LostIsNotFreed(s: State, step: Step, a: Addr)
    requires Take(s, step).Some? && Lost(Take(s, step).value, a)
    ensures !Frees(s, step, a)
  {
    hide Take;
  }

  /**
   * Populating with an unknown name for a known id: the indexes part, and the device that had the id is lost. The run
   * up to the call is permitted; `more` is the call.
   */
  lemma IdTaken(dev: Info, other: string, a: Addr, p: Addr, b: Addr, q: Addr)
    returns (steps: seq<Step>, more: seq<Step>)
    requires dev.name != other && a != b
    ensures PermittedRun(EMPTY, steps)
    ensures var s := Run(EMPTY, steps).value;
      && s == Done(EMPTY, 0, AddLocked(EMPTY.db, dev, a, p)) && b !in s.db.heap
      && !Harmless(s.db, Populate([dev.(name := other)]))
      && Run(s, more) == Some(Done(s, 0, Populated(s.db, [dev.(name := other)], [(b, q)])))
      && var s' := Run(s, more).value; Lost(s', a) && !AllAgree(s'.db) && !DataInv(s'.db, Idle)
  {
    steps := OneDeviceAdded(dev, a, p);
    OneDeviceIs(dev, a, p);
    var devs, at := [dev.(name := other)], [(b, q)];
    var d := AddLocked(EMPTY.db, dev, a, p);
    var s := Done(EMPTY, 0, d);
    more := PopulateIsARun(s, 0, devs, at);
    TwoDevicesAre(dev, other, a, p, b, q);
    hide AllAgree, DataInv, Run, AddLocked, Populated;
    PopulateAgreesIff(d, devs, at);
    LeakedIsNotCounted(Populated(d, devs, at));
  }

  /** The data after both: the first device is in neither map, and yet its name leads to the id of the second. */
  lemma TwoDevicesAre(dev: Info, other: string, a: Addr, p: Addr, b: Addr, q: Addr)
    requires dev.name != other && a != b
    ensures var d := AddLocked(EMPTY.db, dev, a, p);
      var d' := Populated(d, [dev.(name := other)], [(b, q)]);
      && LeakedAt(d', a) && d'.held == multiset{} && Alive(d', a) && d'.heap[a].refs == 1
      && Alive(d', b) && d'.heap[b].refs == 1 && d'.heap[b].info == dev.(name := other)
      && d'.devices == map[dev.id := b]
      && d'.nameToId == map[dev.name := IdRef(dev.id, a), other := IdRef(dev.id, b)]
  {
    var d := AddLocked(EMPTY.db, dev, a, p);
    OneDeviceIs(dev, a, p);
    assert [dev.(name := other)][1..] == [] && [(b, q)][1..] == [];
    NothingToPopulate(AddLocked(d, dev.(name := other), b, q));
    hide AllAgree;
  }

  lemma LookupAfterRemoval(s: State, dev: Info, other: string, a: Addr, b: Addr) returns (steps: seq<Step>)
    requires PcOf(s, 0).Idle? && s.writer.None? && s.readers == {} && dev.name != other
    requires Alive(s.db, b) && s.db.heap[b].info == dev.(name := other) && s.db.devices == map[dev.id := b]
    requires s.db.nameToId == map[dev.name := IdRef(dev.id, a), other := IdRef(dev.id, b)]
    ensures HarmlessRun(s, steps) && PcOf(Run(s, steps).value, 0).Crashed?
  {
    RemovalStarts(s.db, dev, b);
    NameLeadsNowhere(s.db, dev, other, a, b);
    var d := Removed(s.db, b);
    hide *;
    var ask := [StartWrite(0, RemoveById(dev.id))];
    LockTaken(s, 0, RemoveById(dev.id));
    OneStatement(s, s, ask, 0, s.db, Writing(RemoveById(dev.id)));
    var removed := RemoveRuns(s, s, ask + [Statement(0)], 0, s.db, b, None);
    CrashingLookup(s, d, dev.name);
    steps := removed + [StartRead(0), LookupName(0, dev.name)];
    RunOn(s, removed, Done(s, 0, d), [StartRead(0), LookupName(0, dev.name)]);
    OneRemovalAsks(ask[0], removed, dev.name);
    OnlyTheFirstAsks(s, steps);
  }

  lemma RemovalStarts(d: Data, dev: Info, b: Addr)
    requires d.devices == map[dev.id := b] && Alive(d, b)
    ensures Execute(d, Writing(RemoveById(dev.id))) == Some((d, DropName(b, None)))
    ensures Harmless(d, RemoveById(dev.id))
  {
  }

  lemma OneRemovalAsks(ask: Step, removed: seq<Step>, name: string)
    requires ThenStatements([ask] + [Statement(0)], removed, 0)
    ensures var all := removed + [StartRead(0), LookupName(0, name)];
      all[0] == ask && forall i :: 0 < i < |all| ==> !all[i].StartWrite?
  {
    assert removed[0] == ([ask] + [Statement(0)])[0] && removed[1] == ([ask] + [Statement(0)])[1];
  }

  lemma CrashingLookup(s: State, d: Data, name: string)
    requires s.readers == {} && name in d.nameToId && !FollowsTo(d, d.nameToId[name])
    ensures var r := Run(Done(s, 0, d), [StartRead(0), LookupName(0, name)]);
      r.Some? && PcOf(r.value, 0).Crashed?
  {
    var s1 := Done(s, 0, d);
    var s2 := Goto(s1, 0, Reading).(readers := s1.readers + {0});
    TwoSteps(s1, StartRead(0), s2, LookupName(0, name), Goto(s2, 0, Crashed));
    hide Run, FollowsTo;
  }

  lemma NameLeadsNowhere(d: Data, dev: Info, other: string, a: Addr, b: Addr)
    requires b in d.heap && d.heap[b].info == dev.(name := other) && d.devices == map[dev.id := b] && dev.name != other
    requires d.nameToId == map[dev.name := IdRef(dev.id, a), other := IdRef(dev.id, b)]
    ensures var d' := Removed(d, b); dev.name in d'.nameToId && !FollowsTo(d', d'.nameToId[dev.name])
  {
  }

  /** From there, removing that id and looking the first name up, both in themselves harmless, follow a null pointer. */
  lemma StaleNameCrashes(dev: Info, other: string, a: Addr, p: Addr, b: Addr, q: Addr)
    returns (steps: seq<Step>, more: seq<Step>, rest: seq<Step>)
    requires dev.name != other && a != b
    ensures PermittedRun(EMPTY, steps)
    ensures var s := Run(EMPTY, steps).value;
      && Run(s, more) == Some(Done(s, 0, Populated(s.db, [dev.(name := other)], [(b, q)])))
      && var s' := Run(s, more).value;
         HarmlessRun(s', rest) && PcOf(Run(s', rest).value, 0).Crashed?
    ensures Run(EMPTY, steps + more + rest).Some? && PcOf(Run(EMPTY, steps + more + rest).value, 0).Crashed?
  {
    steps, more := IdTaken(dev, other, a, p, b, q);
    OneDeviceIs(dev, a, p);
    var s := Run(EMPTY, steps).value;
    var s' := Run(s, more).value;
    TwoDevicesAre(dev, other, a, p, b, q);
    hide Run, HarmlessRun, AddLocked, Populated;
    rest := LookupAfterRemoval(s', dev, other, a, b);
    RunOn(EMPTY, steps, s, more);
    RunOn(EMPTY, steps + more, s', rest);
  }
}
