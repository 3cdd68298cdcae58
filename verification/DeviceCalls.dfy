/** What each call of the device map does as a whole, and what that keeps. */
module DeviceCalls {
  import opened CString
  import opened DevMap
  import opened DevMapIndexes
  import opened DevMapInvariant
  import opened DevMapSafety
  import opened ListCompare

  // ---- What each call does as a whole ----

  /** remove_locked: no name, no id, one reference less; freed when that was the last. */
  function Removed(d: Data, a: Addr): (r: Data)
    requires a in d.heap
    ensures r.heap.Keys == d.heap.Keys
  {
    var dropped := AddRefs(d.(nameToId := d.nameToId - {d.heap[a].info.name},
                              devices := d.devices - {d.heap[a].info.id}), a, -1);
    if d.heap[a].refs == 1 then MarkFreed(dropped, a) else dropped
  }

  function Replaced(d: Data, dev: Info, a: Addr, p: Addr): Data
    requires dev.id in d.devices ==> d.devices[dev.id] in d.heap
  {
    if dev.id !in d.devices then AddLocked(d, dev, a, p)
    else
      var prior := d.devices[dev.id];
      if SameInPlace(d.heap[prior].info, dev)
      then d.(heap := d.heap[prior := d.heap[prior].(info := d.heap[prior].info.(details := dev.details))])
      else AddLocked(Removed(d, prior), dev, a, p)
  }

  /** The devices whose names are not known yet, added in order; `at` gives the addresses of the copies made of each. */
  function Populated(d: Data, devs: seq<Info>, at: seq<(Addr, Addr)>): Data
    requires |at| == |devs|
    decreases |devs|
  {
    if devs == [] then d
    else
      Populated(if devs[0].name in d.nameToId then d else AddLocked(d, devs[0], at[0].0, at[0].1), devs[1..], at[1..])
  }

  /** The addresses of the copies are new and differ from each other. */
  ghost predicate NewObjects(d: Data, at: seq<(Addr, Addr)>) {
    && (forall i :: 0 <= i < |at| ==> at[i].0 !in d.heap)
    && (forall i, j :: 0 <= i < j < |at| ==> at[i].0 != at[j].0)
  }

  lemma OthersStayNew(d: Data, dev: Info, at: seq<(Addr, Addr)>)
    requires NewObjects(d, at) && at != []
    ensures at[0].0 !in d.heap && NewObjects(d, at[1..])
    ensures NewObjects(AddLocked(d, dev, at[0].0, at[0].1), at[1..])
  {
  }

  ghost predicate NoZeros(d: Data) {
    forall a :: !AtZero(d, a)
  }

  lemma AddedHasNoZeros(d: Data, dev: Info, a: Addr, p: Addr)
    requires NoZeros(d)
    ensures NoZeros(AddLocked(d, dev, a, p))
    ensures AddLocked(d, dev, a, p).heap.Keys == d.heap.Keys + {a}
  {
    forall b
      ensures !AtZero(AddLocked(d, dev, a, p), b)
    {
      assert !AtZero(d, b);
    }
  }

  lemma RemovedHasNoZeros(d: Data, a: Addr)
    requires NoZeros(d) && a in d.heap
    ensures NoZeros(Removed(d, a))
  {
    forall b
      ensures !AtZero(Removed(d, a), b)
    {
      assert !AtZero(d, b);
    }
  }

  lemma OneDeviceChanges(d: Data, d': Data, a: Addr)
    requires NoZeros(d) && d'.heap.Keys == d.heap.Keys && !AtZero(d', a)
    requires forall b :: b in d.heap && b != a ==> d'.heap[b] == d.heap[b]
    ensures NoZeros(d')
  {
    forall b
      ensures !AtZero(d', b)
    {
      assert !AtZero(d, b);
    }
  }

  /** A device with one more reference handed out. */
  function Held(d: Data, a: Addr): Data
    requires a in d.heap
  {
    AddRefs(d, a, 1).(held := d.held + multiset{a})
  }

  function Released(d: Data, a: Addr): Data
    requires a in d.heap
  {
    (if d.heap[a].refs == 1 then MarkFreed(AddRefs(d, a, -1), a) else AddRefs(d, a, -1)).(held := d.held - multiset{a})
  }

  const UNLOCKED := 1
  const ENABLED := 0

  /** The device may be asked and its profile has the command; which profile objects have it is a parameter. */
  predicate Answers(device: Device, has: Addr -> bool) {
    device.info.details.operatingState == ENABLED && device.info.details.adminState == UNLOCKED && has(device.profile)
  }

  /** The ids belong to stored devices. */
  ghost predicate AllStored(d: Data, ids: seq<string>) {
    forall id <- ids :: id in d.devices && Alive(d, d.devices[id])
  }

  /** The devices that answer among those of the given ids, the last first. */
  ghost function Answering(d: Data, ids: seq<string>, has: Addr -> bool): (r: seq<Addr>)
    requires AllStored(d, ids)
    ensures forall a <- r :: a in d.heap
  {
    if ids == [] then []
    else
      var a := d.devices[ids[|ids| - 1]];
      var front := Answering(d, ids[..|ids| - 1], has);
      if Answers(d.heap[a], has) then [a] + front else front
  }

  /** The data with one more reference to each of the devices. */
  ghost function HeldAll(d: Data, queue: seq<Addr>): (r: Data)
    requires forall a <- queue :: a in d.heap
    ensures r.heap.Keys == d.heap.Keys
  {
    if queue == [] then d else Held(HeldAll(d, queue[1..]), queue[0])
  }

  /** Counts have gone up by as many references as are handed out, and nothing else has changed. */
  ghost predicate Gained(d: Data, d': Data, given: multiset<Addr>) {
    && d'.held == d.held + given && d' == d.(heap := d'.heap, held := d'.held) && d'.heap.Keys == d.heap.Keys
    && forall a :: a in d.heap ==> d'.heap[a] == d.heap[a].(refs := d.heap[a].refs + given[a])
  }

  lemma GainedOneMore(d: Data, d': Data, given: multiset<Addr>, a: Addr)
    requires Gained(d, d', given) && a in d.heap
    ensures Gained(d, Held(d', a), given + multiset{a})
  {
  }

  lemma {:induction false} HeldAllIs(d: Data, queue: seq<Addr>)
    requires forall a <- queue :: a in d.heap
    ensures Gained(d, HeldAll(d, queue), multiset(queue))
  {
    hide Gained, Held;
    if queue == [] {
      NothingGained(d);
    } else {
      HeldAllIs(d, queue[1..]);
      GainedOneMore(d, HeldAll(d, queue[1..]), multiset(queue[1..]), queue[0]);
      FirstAndRest(queue);
    }
  }

  lemma NothingGained(d: Data)
    ensures Gained(d, d, multiset([]))
  {
  }

  lemma FirstAndRest(queue: seq<Addr>)
    requires queue != []
    ensures multiset(queue) == multiset(queue[1..]) + multiset{queue[0]}
  {
    assert queue == [queue[0]] + queue[1..];
  }

  lemma HeldOneMore(d: Data, a: Addr, queue: seq<Addr>)
    requires a in d.heap && forall b <- queue :: b in d.heap
    ensures HeldAll(d, [a] + queue) == Held(HeldAll(d, queue), a)
  {
    assert ([a] + queue)[1..] == queue;
  }

  /** Every id once; no two ids of one device. */
  ghost predicate EachOnce(d: Data, ids: seq<string>) {
    && (forall i, j :: 0 <= i < j < |ids| ==> ids[i] != ids[j])
    && (forall i, j :: i in d.devices && j in d.devices && d.devices[i] == d.devices[j] ==> i == j)
  }

  /** With every id given once, the devices in the map that answer are handed out, once each, and no others. */
  lemma {:induction false} AnsweringIs(d: Data, ids: seq<string>, has: Addr -> bool)
    requires AllStored(d, ids) && EachOnce(d, ids)
    ensures forall a :: a in Answering(d, ids, has) <==>
      exists id :: id in ids && d.devices[id] == a && Answers(d.heap[a], has)
    ensures forall a :: multiset(Answering(d, ids, has))[a] <= 1
  {
    if ids != [] {
      var front, id := ids[..|ids| - 1], ids[|ids| - 1];
      AnsweringIs(d, front, has);
      assert ids == front + [id];
      assert id !in front;
    }
  }

  /** When the ids are those of the map, that is every device in the map that answers. */
  lemma AnsweringIsAll(d: Data, ids: seq<string>, has: Addr -> bool)
    requires DataInv(d, Idle) && (forall id :: id in ids <==> id in d.devices)
    requires forall i, j :: 0 <= i < j < |ids| ==> ids[i] != ids[j]
    ensures AllStored(d, ids)
    ensures forall a :: a in Answering(d, ids, has) <==> InMap(d, a) && Answers(d.heap[a], has)
    ensures forall a :: multiset(Answering(d, ids, has))[a] <= 1
    ensures Gained(d, HeldAll(d, Answering(d, ids, has)), multiset(Answering(d, ids, has)))
  {
    StoredAreApart(d);
    hide DataInv;
    AnsweringIs(d, ids, has);
    HeldAllIs(d, Answering(d, ids, has));
    hide Gained, HeldAll, Answering, Answers;
    forall a
      ensures a in Answering(d, ids, has) <==> InMap(d, a) && Answers(d.heap[a], has)
    {
      if InMap(d, a) {
        assert d.heap[a].info.id in ids;
      }
    }
  }

  // ---- What the devices hold after a call, said without the functions above ----

  /** What decides between updating and replacing: name, profile name, automatic events and protocols. */
  ghost predicate Updatable(d: Data, dev: Info)
    requires dev.id in d.devices && d.devices[dev.id] in d.heap
  {
    var was := d.heap[d.devices[dev.id]].info;
    && was.name == dev.name && was.profileName == dev.profileName
    && AutoEventsEqual(was.autos, dev.autos) && ProtocolsEqual(was.protocols, dev.protocols)
  }

  /**
   * The id leads to a live device that is as described: the one that had the id, whose events and protocols stay as
   * they were when they compare equal to those given, or else the new one, with what was given. Nothing else changes
   * for other ids, and no other device holds anything new.
   */
  ghost predicate IsReplaced(d: Data, d': Data, dev: Info, a: Addr) {
    && dev.id in d'.devices && Alive(d', d'.devices[dev.id])
    && (forall id :: id != dev.id ==> (id in d'.devices <==> id in d.devices))
    && (forall id :: id != dev.id && id in d.devices ==> d'.devices[id] == d.devices[id])
    && (forall b :: b in d.heap ==> b in d'.heap)
    && (forall b :: b in d.heap && b != d'.devices[dev.id] ==>
          d'.heap[b].info == d.heap[b].info && d'.heap[b].profile == d.heap[b].profile)
    && var (x, now) := (d'.devices[dev.id], d'.heap[d'.devices[dev.id]]);
    && now.info.id == dev.id && now.info.name == dev.name && now.info.profileName == dev.profileName
    && now.info.details == dev.details
    && if dev.id in d.devices && d.devices[dev.id] in d.heap && Updatable(d, dev) then
         var was := d.heap[d.devices[dev.id]];
         && x == d.devices[dev.id] && now.profile == was.profile && now.refs == was.refs
         && now.info.autos == was.info.autos && now.info.protocols == was.info.protocols
       else
         x == a && now.refs == 1 && now.info.autos == dev.autos && now.info.protocols == dev.protocols
  }

  lemma ReplacedHolds(d: Data, dev: Info, a: Addr, p: Addr)
    requires DataInv(d, Idle) && a !in d.heap
    ensures dev.id in d.devices ==> d.devices[dev.id] in d.heap
    ensures IsReplaced(d, Replaced(d, dev, a, p), dev, a)
  {
    StoredIsInMap(d, Idle);
    hide DataInv, AutoEventsEqual, ProtocolsEqual, IsReplaced, AddLocked, Removed, SameInPlace, Updatable;
    if dev.id !in d.devices {
      AddedHolds(d, dev, a, p);
      AddedIsReplaced(d, d, AddLocked(d, dev, a, p), dev, a);
    } else {
      var prior := d.devices[dev.id];
      UpdatableIs(d, dev);
      if SameInPlace(d.heap[prior].info, dev) {
        InMapIsCounted(d, Idle, prior);
        InPlaceIsReplaced(d, dev, a);
      } else {
        RemovedHolds(d, prior);
        AddedHolds(Removed(d, prior), dev, a, p);
        AddedIsReplaced(d, Removed(d, prior), AddLocked(Removed(d, prior), dev, a, p), dev, a);
      }
    }
  }

  lemma UpdatableIs(d: Data, dev: Info)
    requires dev.id in d.devices && d.devices[dev.id] in d.heap
    ensures Updatable(d, dev) <==> SameInPlace(d.heap[d.devices[dev.id]].info, dev)
  {
    hide AutoEventsEqual, ProtocolsEqual;
  }

  lemma InPlaceIsReplaced(d: Data, dev: Info, a: Addr)
    requires dev.id in d.devices && StoredAt(d, dev.id) && Alive(d, d.devices[dev.id]) && Updatable(d, dev)
    ensures var prior := d.devices[dev.id];
      var d' := d.(heap := d.heap[prior := d.heap[prior].(info := d.heap[prior].info.(details := dev.details))]);
      IsReplaced(d, d', dev, a)
  {
    hide AutoEventsEqual, ProtocolsEqual;
  }

  /** Without the device of an id: the others are as they were. */
  lemma RemovedHolds(d: Data, a: Addr)
    requires a in d.heap
    ensures var d' := Removed(d, a);
      && d'.heap.Keys == d.heap.Keys && d'.devices == d.devices - {d.heap[a].info.id}
      && forall b :: b in d.heap ==> d'.heap[b].info == d.heap[b].info && d'.heap[b].profile == d.heap[b].profile
  {
  }

  lemma AddedIsReplaced(d: Data, d1: Data, d': Data, dev: Info, a: Addr)
    requires IsAdded(d1, d', dev, a) && a !in d.heap && d1.heap.Keys == d.heap.Keys
    requires d1.devices == d.devices - {dev.id}
    requires forall b :: b in d.heap ==> d1.heap[b].info == d.heap[b].info && d1.heap[b].profile == d.heap[b].profile
    requires dev.id in d.devices && d.devices[dev.id] in d.heap ==> !Updatable(d, dev)
    ensures IsReplaced(d, d', dev, a)
  {
    hide Updatable;
    forall id | id != dev.id && id in d.devices
      ensures id in d'.devices && d'.devices[id] == d.devices[id]
    {
      assert id in d1.devices;
    }
  }

  lemma ValidHolds(d: Data, dev: Info, a: Addr, p: Addr)
    requires Sound(d, Idle) && a !in d.heap
    ensures dev.id in d.devices ==> d.devices[dev.id] in d.heap
    ensures IsReplaced(d, Replaced(d, dev, a, p), dev, a)
  {
    ReplacedHolds(d, dev, a, p);
    hide DataInv, NoZeros, IsReplaced;
  }

  /** The device described is new by name: unknown before the call and not named by an earlier one of the list. */
  predicate NewName(d: Data, devs: seq<Info>, i: nat)
    requires i < |devs|
  {
    devs[i].name !in d.nameToId && forall j :: 0 <= j < i ==> devs[j].name != devs[i].name
  }

  /** Exactly the descriptions with new names become devices, each as described with one reference; no other changes. */
  ghost predicate IsPopulated(d: Data, d': Data, devs: seq<Info>, at: seq<(Addr, Addr)>)
    requires |at| == |devs|
  {
    && (forall b :: b in d.heap ==> b in d'.heap && d'.heap[b] == d.heap[b])
    && (forall b :: b in d'.heap ==> b in d.heap || exists i :: 0 <= i < |at| && at[i].0 == b)
    && forall i :: 0 <= i < |devs| ==>
         && (at[i].0 in d'.heap <==> NewName(d, devs, i))
         && (NewName(d, devs, i) ==>
               var now := d'.heap[at[i].0]; now.info == devs[i] && now.refs == 1 && !now.freed)
  }

  lemma {:induction false} PopulatedHolds(d: Data, devs: seq<Info>, at: seq<(Addr, Addr)>)
    requires |at| == |devs| && NewObjects(d, at)
    ensures IsPopulated(d, Populated(d, devs, at), devs, at)
    decreases |devs|
  {
    if devs != [] {
      OthersStayNew(d, devs[0], at);
      var known := devs[0].name in d.nameToId;
      var d1 := if known then d else AddLocked(d, devs[0], at[0].0, at[0].1);
      AddedHolds(d, devs[0], at[0].0, at[0].1);
      PopulatedHolds(d1, devs[1..], at[1..]);
      hide AddLocked, IsPopulated;
      OneMorePopulated(d, d1, Populated(d1, devs[1..], at[1..]), devs, at);
    }
  }

  lemma OneMorePopulated(d: Data, d1: Data, d': Data, devs: seq<Info>, at: seq<(Addr, Addr)>)
    requires |at| == |devs| && devs != [] && NewObjects(d, at) && IsPopulated(d1, d', devs[1..], at[1..])
    requires devs[0].name in d.nameToId ==> d1 == d
    requires devs[0].name !in d.nameToId ==> IsAdded(d, d1, devs[0], at[0].0)
    ensures IsPopulated(d, d', devs, at)
  {
    hide NewName;
    FirstIsNew(d, devs);
    forall i | 0 < i < |devs|
      ensures NewName(d, devs, i) <==> NewName(d1, devs[1..], i - 1)
      ensures devs[i] == devs[1..][i - 1] && at[i] == at[1..][i - 1]
    {
      LaterIsNew(d, d1, devs, i);
    }
    forall b | b in d'.heap
      ensures b in d.heap || exists i :: 0 <= i < |at| && at[i].0 == b
    {
      if b !in d1.heap {
        var k :| 0 <= k < |at[1..]| && at[1..][k].0 == b;
        assert at[k + 1].0 == b;
      } else if b !in d.heap {
        assert at[0].0 == b;
      }
    }
  }

  lemma LaterIsNew(d: Data, d1: Data, devs: seq<Info>, i: nat)
    requires 0 < i < |devs|
    requires devs[0].name in d.nameToId ==> d1 == d
    requires devs[0].name !in d.nameToId ==> d1.nameToId.Keys == d.nameToId.Keys + {devs[0].name}
    ensures NewName(d, devs, i) <==> NewName(d1, devs[1..], i - 1)
  {
    if NewName(d, devs, i) {
      assert forall j :: 0 <= j < i - 1 ==> devs[1..][j] == devs[j + 1];
    }
    if NewName(d1, devs[1..], i - 1) {
      forall j | 0 <= j < i
        ensures devs[j].name != devs[i].name
      {
        assert j > 0 ==> devs[j] == devs[1..][j - 1];
      }
    }
  }

  lemma FirstIsNew(d: Data, devs: seq<Info>)
    requires devs != []
    ensures NewName(d, devs, 0) <==> devs[0].name !in d.nameToId
  {
  }

  /** A new live device that is as described, with one reference, stored under its id and name; no device changes. */
  ghost predicate IsAdded(d: Data, d': Data, dev: Info, a: Addr) {
    && d'.heap.Keys == d.heap.Keys + {a} && (forall b :: b in d.heap ==> d'.heap[b] == d.heap[b])
    && d'.heap[a].info == dev && d'.heap[a].refs == 1 && !d'.heap[a].freed
    && d'.nameToId.Keys == d.nameToId.Keys + {dev.name} && d'.devices == d.devices[dev.id := a]
    && d'.nameToId[dev.name] == IdRef(dev.id, a)
  }

  lemma AddedHolds(d: Data, dev: Info, a: Addr, p: Addr)
    requires a !in d.heap
    ensures IsAdded(d, AddLocked(d, dev, a, p), dev, a)
  {
  }

  // ---- What keeps counts and pointers right ----

  /** Where a call is inside the write lock: counts and maps as they should be there, and nothing left to free. */
  ghost predicate Sound(d: Data, w: Pc) {
    DataInv(d, w) && NoZeros(d)
  }

  lemma AddedKeeps(d: Data, dev: Info, rest: seq<Info>, a: Addr, p: Addr)
    requires Sound(d, Adding(dev, rest)) && a !in d.heap
    ensures Sound(AddLocked(d, dev, a, p), Writing(Populate(rest)))
  {
    AddedHasNoZeros(d, dev, a, p);
    AddedKeepsData(d, dev, rest, a, p);
    hide DataInv, NoZeros;
  }

  lemma AddedKeepsData(d: Data, dev: Info, rest: seq<Info>, a: Addr, p: Addr)
    requires DataInv(d, Adding(dev, rest)) && a !in d.heap
    ensures DataInv(AddLocked(d, dev, a, p), Writing(Populate(rest)))
  {
    hide DataInv;
    DuplicateKeepsData(d, dev, rest, a, p);
    var d1 := Dup(d, dev, a, p);
    SetDeviceKeeps(d1, a, rest);
    SetNameKeeps(d1.(devices := d1.devices[dev.id := a]), a, rest);
  }

  lemma RemovedKeeps(d: Data, a: Addr, next: Option<Info>)
    requires Sound(d, DropName(a, next)) && a in d.heap
    ensures Sound(Removed(d, a), AfterDrop(next))
  {
    RemovedHasNoZeros(d, a);
    RemovedKeepsData(d, a, next);
    hide DataInv, NoZeros;
  }

  lemma RemovedKeepsData(d: Data, a: Addr, next: Option<Info>)
    requires DataInv(d, DropName(a, next)) && a in d.heap
    ensures DataInv(Removed(d, a), AfterDrop(next))
  {
    hide DataInv;
    DropNameKeeps(d, a, next);
    var d1 := d.(nameToId := d.nameToId - {d.heap[a].info.name});
    DropDeviceKeeps(d1, a, next);
    var d2 := d1.(devices := d1.devices - {d.heap[a].info.id});
    DropRefKeeps(d2, a, next);
    if d.heap[a].refs == 1 {
      DropFreeKeeps(AddRefs(d2, a, -1), a, next);
    }
  }

  lemma ReleasedKeeps(d: Data, a: Addr)
    requires Sound(d, Idle) && a in d.held
    ensures a in d.heap && Sound(Released(d, a), Idle)
  {
    InMapIsCounted(d, Idle, a);
    HolderCounted(d, Idle, a, -1, d.held - multiset{a});
    hide DataInv, NoZeros;
    var d1 := AddRefs(d, a, -1).(held := d.held - multiset{a});
    if d.heap[a].refs == 1 {
      FreeingKeepsData(d1, Idle, a);
      assert Released(d, a) == MarkFreed(d1, a);
    }
    OneDeviceChanges(d, Released(d, a), a);
  }

  lemma ProfileKeeps(d: Data, name: string, profile: Addr)
    requires Sound(d, Idle)
    ensures Sound(d.(profiles := d.profiles[name := profile]), Idle)
  {
    var d' := d.(profiles := d.profiles[name := profile]);
    AddProfileKeepsIff(d, name, profile);
    forall a
      ensures !AtZero(d', a)
    {
      assert !AtZero(d, a);
    }
    hide DataInv, AtZero;
  }

  lemma NameLeadsToOwner(d: Data, name: string)
    requires DataInv(d, Idle)
    ensures name in d.nameToId ==>
      d.nameToId[name].id in d.devices && d.devices[d.nameToId[name].id] == d.nameToId[name].owner
  {
    hide Refs, WriterKnows;
  }

  lemma InPlaceHasNoZeros(d: Data, a: Addr, details: Details)
    requires NoZeros(d) && a in d.heap
    ensures NoZeros(d.(heap := d.heap[a := d.heap[a].(info := d.heap[a].info.(details := details))]))
  {
    var d' := d.(heap := d.heap[a := d.heap[a].(info := d.heap[a].info.(details := details))]);
    forall b
      ensures !AtZero(d', b)
    {
      assert !AtZero(d, b);
    }
  }

  /** Where a replacement begins, whichever branch it takes. */
  lemma ReplaceStarts(d: Data, dev: Info)
    requires Sound(d, Idle)
    ensures dev.id in d.devices ==> d.devices[dev.id] in d.heap
    ensures dev.id !in d.devices ==> Sound(d, Adding(dev, []))
    ensures dev.id in d.devices ==>
      var prior := d.devices[dev.id];
      if SameInPlace(d.heap[prior].info, dev)
      then Sound(d.(heap := d.heap[prior := d.heap[prior].(info := d.heap[prior].info.(details := dev.details))]), Idle)
      else Sound(d, DropName(prior, Some(dev)))
  {
    StoredIsInMap(d, Idle);
    if dev.id in d.devices {
      var prior := d.devices[dev.id];
      InMapIsCounted(d, Idle, prior);
      InPlaceKeeps(d, prior, dev.details);
      InPlaceHasNoZeros(d, prior, dev.details);
    }
    WritingStarts(d, Replace(dev));
    DecideReplace(d, dev);
    hide DataInv, NoZeros, AtZero, SameInPlace, InMap;
  }

  lemma PopulateStarts(d: Data, devs: seq<Info>)
    requires Sound(d, Idle)
    ensures Harmless(d, Populate(devs)) ==> Sound(d, Writing(Populate(devs)))
  {
    if Harmless(d, Populate(devs)) {
      WritingStarts(d, Populate(devs));
    }
    hide DataInv, NoZeros;
  }

  /** One round of the populating loop. */
  lemma PopulateOne(d: Data, devs: seq<Info>, at: seq<(Addr, Addr)>, i: nat)
    requires |at| == |devs| && i < |devs| && NewObjects(d, at[i..])
    ensures at[i].0 !in d.heap
    ensures var (known, d') := (devs[i].name in d.nameToId, AddLocked(d, devs[i], at[i].0, at[i].1));
      && Populated(d, devs[i..], at[i..]) == Populated(if known then d else d', devs[i + 1..], at[i + 1..])
      && NewObjects(if known then d else d', at[i + 1..])
    ensures Sound(d, Writing(Populate(devs[i..]))) ==>
      Sound(d, if devs[i].name in d.nameToId then Writing(Populate(devs[i + 1..])) else Adding(devs[i], devs[i + 1..]))
  {
    assert devs[i..][1..] == devs[i + 1..] && at[i..][1..] == at[i + 1..];
    OthersStayNew(d, devs[i], at[i..]);
    if Sound(d, Writing(Populate(devs[i..]))) {
      DecidePopulate(d, devs[i..]);
    }
    hide DataInv, NoZeros, NewObjects, AddLocked;
  }

  lemma NothingToPopulate(d: Data)
    ensures Populated(d, [], []) == d
  {
  }

  lemma PopulateEnds(d: Data)
    ensures Sound(d, Writing(Populate([]))) ==> Sound(d, Idle)
  {
    if Sound(d, Writing(Populate([]))) {
      DecidePopulate(d, []);
    }
    hide DataInv, NoZeros;
  }

  /** Stored devices are in the map, each under its own id. */
  lemma StoredAreApart(d: Data)
    requires DataInv(d, Idle)
    ensures forall id :: id in d.devices ==> InMap(d, d.devices[id]) && Alive(d, d.devices[id])
    ensures forall i, j :: i in d.devices && j in d.devices && d.devices[i] == d.devices[j] ==> i == j
  {
    StoredIsInMap(d, Idle);
    forall id | id in d.devices
      ensures StoredAt(d, id) && Alive(d, d.devices[id])
    {
      InMapIsCounted(d, Idle, d.devices[id]);
    }
    hide DataInv;
  }

  // ---- Populating keeps the counts exact under exactly one condition ----

  /** A device out of the map has one reference more than it has holders. */
  ghost predicate Leaked(d: Data) {
    exists a :: LeakedAt(d, a)
  }

  predicate LeakedAt(d: Data, a: Addr) {
    a in d.heap && !InMap(d, a) && d.heap[a].refs == d.held[a] + 1
  }

  lemma LeakedStays(d: Data, dev: Info, a: Addr, p: Addr)
    requires Leaked(d) && a !in d.heap
    ensures Leaked(AddLocked(d, dev, a, p))
  {
    var b :| LeakedAt(d, b);
    assert LeakedAt(AddLocked(d, dev, a, p), b);
  }

  lemma {:induction false} LeakedForGood(d: Data, devs: seq<Info>, at: seq<(Addr, Addr)>)
    requires Leaked(d) && |at| == |devs| && NewObjects(d, at)
    ensures Leaked(Populated(d, devs, at))
    decreases |devs|
  {
    if devs != [] {
      OthersStayNew(d, devs[0], at);
      hide Leaked, AddLocked, NewObjects;
      if devs[0].name in d.nameToId {
        LeakedForGood(d, devs[1..], at[1..]);
      } else {
        LeakedStays(d, devs[0], at[0].0, at[0].1);
        LeakedForGood(AddLocked(d, devs[0], at[0].0, at[0].1), devs[1..], at[1..]);
      }
    }
  }

  lemma LeakedIsNotCounted(d: Data)
    requires Leaked(d)
    ensures !DataInv(d, Idle)
  {
    var a :| LeakedAt(d, a);
    assert !Counted(d, Idle, a);
    hide Stored, WriterKnows;
  }

  lemma AddedKeepsOrLeaks(d: Data, dev: Info, a: Addr, p: Addr)
    requires DataInv(d, Idle) && dev.name !in d.nameToId && a !in d.heap
    ensures var d' := AddLocked(d, dev, a, p);
      && d'.nameToId.Keys == d.nameToId.Keys + {dev.name} && d'.devices.Keys == d.devices.Keys + {dev.id}
      && if dev.id in d.devices then Leaked(d') else DataInv(d', Idle)
  {
    if dev.id in d.devices {
      DisplacedLeaks(d, dev, a, p);
    } else {
      WritingStarts(d, Replace(dev));
      DecideReplace(d, dev);
      hide DataInv;
      AddedKeepsData(d, dev, [], a, p);
      DecidePopulate(AddLocked(d, dev, a, p), []);
    }
  }

  lemma DisplacedLeaks(d: Data, dev: Info, a: Addr, p: Addr)
    requires DataInv(d, Idle) && dev.id in d.devices && a !in d.heap
    ensures d.devices[dev.id] in d.heap && LeakedAt(AddLocked(d, dev, a, p), d.devices[dev.id])
  {
    var b := d.devices[dev.id];
    StoredIsInMap(d, Idle);
    assert Counted(d, Idle, b);
    hide Stored, Refs;
  }

  /**
   * Populating leaves every count exact exactly when each device with an unknown name has an unknown id at its turn.
   */
  lemma {:induction false} PopulateCountsIff(d: Data, devs: seq<Info>, at: seq<(Addr, Addr)>)
    requires DataInv(d, Idle) && |at| == |devs| && NewObjects(d, at)
    ensures DataInv(Populated(d, devs, at), Idle) <==> Harmless(d, Populate(devs))
    decreases |devs|
  {
    hide DataInv, NewObjects, AddLocked, Leaked;
    if devs != [] {
      OthersStayNew(d, devs[0], at);
      if devs[0].name in d.nameToId {
        PopulateCountsIff(d, devs[1..], at[1..]);
      } else {
        var d' := AddLocked(d, devs[0], at[0].0, at[0].1);
        AddedKeepsOrLeaks(d, devs[0], at[0].0, at[0].1);
        if devs[0].id in d.devices {
          LeakedForGood(d', devs[1..], at[1..]);
          LeakedIsNotCounted(Populated(d', devs[1..], at[1..]));
        } else {
          PopulateCountsIff(d', devs[1..], at[1..]);
        }
      }
    }
  }

  lemma {:induction false} PopulatedHasNoZeros(d: Data, devs: seq<Info>, at: seq<(Addr, Addr)>)
    requires NoZeros(d) && |at| == |devs|
    ensures NoZeros(Populated(d, devs, at))
    decreases |devs|
  {
    hide NoZeros, AddLocked;
    if devs != [] {
      AddedHasNoZeros(d, devs[0], at[0].0, at[0].1);
      PopulatedHasNoZeros(if devs[0].name in d.nameToId then d else AddLocked(d, devs[0], at[0].0, at[0].1),
                          devs[1..], at[1..]);
    }
  }

  /** A list that harms leaves the counts wrong. */
  lemma PopulateHarms(d: Data, devs: seq<Info>, at: seq<(Addr, Addr)>)
    requires Sound(d, Idle) && |at| == |devs| && NewObjects(d, at)
    ensures Sound(Populated(d, devs, at), Idle) <==> Harmless(d, Populate(devs))
  {
    PopulateCountsIff(d, devs, at);
    PopulatedHasNoZeros(d, devs, at);
    hide DataInv, NoZeros, Harmless, Populated;
  }

  // ---- What keeps the indexes in agreement ----

  lemma GainedAgrees(d: Data, d': Data, given: multiset<Addr>)
    requires Gained(d, d', given) && AllAgree(d)
    ensures AllAgree(d')
  {
    StoredIgnoresCounts(d, d');
    CountsDoNotMatter(d, d', Idle);
    hide Stored, Agrees;
  }

  lemma HeldAgrees(d: Data, a: Addr)
    requires a in d.heap && AllAgree(d)
    ensures AllAgree(Held(d, a))
  {
    NothingGained(d);
    GainedOneMore(d, d, multiset([]), a);
    GainedAgrees(d, Held(d, a), multiset([]) + multiset{a});
    hide Gained, AllAgree, Held;
  }

  lemma AllHeldAgree(d: Data, queue: seq<Addr>)
    requires forall a <- queue :: a in d.heap
    ensures AllAgree(d) ==> AllAgree(HeldAll(d, queue))
  {
    hide AllAgree, HeldAll, Gained;
    HeldAllIs(d, queue);
    if AllAgree(d) {
      GainedAgrees(d, HeldAll(d, queue), multiset(queue));
    }
  }

  lemma ReleasedAgrees(d: Data, a: Addr)
    requires a in d.heap && AllAgree(d)
    ensures AllAgree(Released(d, a))
  {
    hide Stored, Agrees;
    var d' := Released(d, a);
    assert SameButCounts(d, d');
    StoredIgnoresCounts(d, d');
    CountsDoNotMatter(d, d', Idle);
  }

  lemma RemovedAgrees(d: Data, a: Addr)
    requires AllAgree(d) && InMap(d, a)
    ensures AllAgree(Removed(d, a))
  {
    RemovedNames(d, a);
    RemovedProfiles(d, a);
    hide Stored, BackNamed, Profiles, Removed;
  }

  lemma RemovedNames(d: Data, a: Addr)
    requires Names(d, Idle) && InMap(d, a)
    ensures Names(Removed(d, a), Idle)
  {
    var d' := Removed(d, a);
    var id0 := d.heap[a].info.id;
    assert NamedBack(d, id0);
    forall id | id in d'.devices
      ensures StoredAt(d', id) && NamedBack(d', id)
    {
      assert StoredAt(d, id) && NamedBack(d, id) && d.devices[id] != a;
    }
    forall n | n in d'.nameToId
      ensures d'.nameToId[n].id in d'.devices && NameIs(d', d'.nameToId[n], n)
    {
      assert NameIs(d, d.nameToId[n], n);
    }
  }

  lemma RemovedProfiles(d: Data, a: Addr)
    requires Profiles(d) && a in d.heap
    ensures Profiles(Removed(d, a))
  {
  }

  lemma AddedProfiles(d: Data, dev: Info, a: Addr, p: Addr)
    requires Profiles(d) && a !in d.heap
    ensures Profiles(AddLocked(d, dev, a, p))
  {
  }

  lemma AddedAgreesIff(d: Data, dev: Info, a: Addr, p: Addr)
    requires AllAgree(d) && a !in d.heap
    ensures AllAgree(AddLocked(d, dev, a, p))
      <==> (dev.id in d.devices || dev.name in d.nameToId
            ==> dev.name in d.nameToId && d.nameToId[dev.name].id == dev.id)
  {
    AddLockedAgreesIff(d, dev, a, p);
    AddedProfiles(d, dev, a, p);
    hide Stored, BackNamed, Profiles, AddLocked;
  }

  /** Replacing keeps the indexes in agreement exactly when the name does not belong to another id. */
  lemma ReplaceAgreesIff(d: Data, dev: Info, a: Addr, p: Addr)
    requires AllAgree(d) && a !in d.heap
    ensures dev.id in d.devices ==> d.devices[dev.id] in d.heap
    ensures AllAgree(Replaced(d, dev, a, p)) <==> Permitted(d, Replace(dev))
  {
    hide AllAgree, AddLocked, Removed, SameInPlace;
    StoredLeads(d, dev);
    if dev.id !in d.devices {
      AddedAgreesIff(d, dev, a, p);
    } else {
      var prior := d.devices[dev.id];
      if SameInPlace(d.heap[prior].info, dev) {
        InPlaceAgreesToo(d, prior, dev);
      } else {
        RemovedAgrees(d, prior);
        RemovedNameIff(d, dev);
        StoredLeads(Removed(d, prior), dev);
        AddedAgreesIff(Removed(d, prior), dev, a, p);
      }
    }
  }

  lemma InPlaceAgreesToo(d: Data, a: Addr, dev: Info)
    requires AllAgree(d) && a in d.heap && SameInPlace(d.heap[a].info, dev)
    ensures AllAgree(d.(heap := d.heap[a := d.heap[a].(info := d.heap[a].info.(details := dev.details))]))
    ensures d.heap[a].info.name == dev.name
  {
    InPlaceStored(d, a, dev.details);
    InPlaceAgrees(d, a, dev.details);
    hide Stored, Agrees;
  }

  /** Without the device stored under an id, a name is known exactly when it belonged to another id. */
  lemma RemovedNameIff(d: Data, dev: Info)
    requires AllAgree(d) && dev.id in d.devices && d.devices[dev.id] in d.heap
    ensures var d' := Removed(d, d.devices[dev.id]);
      && dev.id !in d'.devices
      && (dev.name in d'.nameToId <==> dev.name in d.nameToId && d.nameToId[dev.name].id != dev.id)
  {
    assert StoredAt(d, dev.id) && NamedBack(d, dev.id);
    if dev.name in d.nameToId {
      assert NameIs(d, d.nameToId[dev.name], dev.name);
    }
    hide Profiles;
  }

  lemma StoredLeads(d: Data, dev: Info)
    requires AllAgree(d)
    ensures dev.name in d.nameToId ==> d.nameToId[dev.name].id in d.devices
    ensures dev.id in d.devices ==>
      var a := d.devices[dev.id];
      InMap(d, a) && d.heap[a].info.name in d.nameToId && d.nameToId[d.heap[a].info.name].id == dev.id
  {
    if dev.id in d.devices {
      assert StoredAt(d, dev.id) && NamedBack(d, dev.id);
    }
  }

  /** Some name leads to the id of a device of another name. */
  ghost predicate Misled(d: Data) {
    exists n :: n in d.nameToId && d.nameToId[n].id in d.devices && !NameOf(d, d.devices[d.nameToId[n].id], n)
  }

  predicate NameOf(d: Data, a: Addr, n: string) {
    a in d.heap && d.heap[a].info.name == n
  }

  lemma MisledStays(d: Data, dev: Info, a: Addr, p: Addr)
    requires Misled(d) && dev.name !in d.nameToId
    requires a !in d.heap && forall id :: id in d.devices ==> d.devices[id] in d.heap
    ensures Misled(AddLocked(d, dev, a, p))
    ensures var d' := AddLocked(d, dev, a, p); forall id :: id in d'.devices ==> d'.devices[id] in d'.heap
  {
    var d' := AddLocked(d, dev, a, p);
    var n :| n in d.nameToId && d.nameToId[n].id in d.devices && !NameOf(d, d.devices[d.nameToId[n].id], n);
    assert !NameOf(d', d'.devices[d'.nameToId[n].id], n);
  }

  lemma {:induction false} MisledForGood(d: Data, devs: seq<Info>, at: seq<(Addr, Addr)>)
    requires Misled(d) && forall id :: id in d.devices ==> d.devices[id] in d.heap
    requires |at| == |devs| && NewObjects(d, at)
    ensures !Stored(Populated(d, devs, at))
    decreases |devs|
  {
    if devs == [] {
      var n :| n in d.nameToId && d.nameToId[n].id in d.devices && !NameOf(d, d.devices[d.nameToId[n].id], n);
      assert !NameIs(d, d.nameToId[n], n);
    } else {
      var (a, p) := at[0];
      var d' := d;
      OthersStayNew(d, devs[0], at);
      if devs[0].name !in d.nameToId {
        MisledStays(d, devs[0], a, p);
        d' := AddLocked(d, devs[0], a, p);
      }
      hide Misled, Stored, AddLocked, NewObjects;
      MisledForGood(d', devs[1..], at[1..]);
    }
  }

  /**
   * Populating keeps the indexes in agreement exactly when each device with an unknown name has an unknown id at its
   * turn.
   */
  lemma {:induction false} PopulateAgreesIff(d: Data, devs: seq<Info>, at: seq<(Addr, Addr)>)
    requires AllAgree(d) && |at| == |devs| && NewObjects(d, at)
    ensures AllAgree(Populated(d, devs, at)) <==> Permitted(d, Populate(devs))
    decreases |devs|
  {
    hide AllAgree, NewObjects, AddLocked, Misled;
    if devs != [] {
      OthersStayNew(d, devs[0], at);
      if devs[0].name in d.nameToId {
        PopulateAgreesIff(d, devs[1..], at[1..]);
      } else {
        var d' := AddLocked(d, devs[0], at[0].0, at[0].1);
        AddedOrMisled(d, devs[0], at[0].0, at[0].1);
        if devs[0].id in d.devices {
          MisledForGood(d', devs[1..], at[1..]);
          assert !AllAgree(Populated(d', devs[1..], at[1..])) by {
            NotStored(Populated(d', devs[1..], at[1..]));
          }
        } else {
          PopulateAgreesIff(d', devs[1..], at[1..]);
        }
      }
    }
  }

  lemma NotStored(d: Data)
    requires !Stored(d)
    ensures !AllAgree(d)
  {
  }

  lemma AddedOrMisled(d: Data, dev: Info, a: Addr, p: Addr)
    requires AllAgree(d) && dev.name !in d.nameToId && a !in d.heap
    ensures var d' := AddLocked(d, dev, a, p);
      && d'.nameToId.Keys == d.nameToId.Keys + {dev.name} && d'.devices.Keys == d.devices.Keys + {dev.id}
      && if dev.id in d.devices then Misled(d') && forall id :: id in d'.devices ==> d'.devices[id] in d'.heap
         else AllAgree(d')
  {
    hide AllAgree, Misled;
    if dev.id in d.devices {
      DisplacedMisleads(d, dev, a, p);
    } else {
      AddedAgreesIff(d, dev, a, p);
    }
  }

  lemma DisplacedMisleads(d: Data, dev: Info, a: Addr, p: Addr)
    requires AllAgree(d) && dev.id in d.devices && dev.name !in d.nameToId && a !in d.heap
    ensures var d' := AddLocked(d, dev, a, p); Misled(d') && forall id :: id in d'.devices ==> d'.devices[id] in d'.heap
  {
    hide Profiles;
    var d' := AddLocked(d, dev, a, p);
    assert forall id :: id in d.devices ==> StoredAt(d, id);
    assert NamedBack(d, dev.id);
    var was := d.heap[d.devices[dev.id]].info.name;
    assert d'.nameToId[was] == d.nameToId[was] && d'.devices[dev.id] == a;
    assert !NameOf(d', d'.devices[d'.nameToId[was].id], was);
  }
}
