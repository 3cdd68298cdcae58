/** The calls of the device map, statement by statement, on the maps they reassign. */
module DeviceTable {
  import opened CString
  import opened DevMap
  import opened DevMapIndexes
  import opened DevMapInvariant
  import opened DevMapSafety
  import opened DeviceCalls

  /** edgex_devmap_t, with the devices it points to; a new object's address is what the allocator answers. */
  class DeviceMap {
    var heap: map<Addr, Device>
    var devices: map<string, Addr>
    var nameToId: map<string, IdRef>
    var profiles: map<string, Addr>
    ghost var held: multiset<Addr>

    constructor ()
      ensures Valid() && Agreeing() && View() == EMPTY.db
    {
      heap, devices, nameToId, profiles, held := map[], map[], map[], map[], multiset{};
      new;
      assert View() == EMPTY.db;
      EmptyHolds();
      EmptyAgrees();
    }

    ghost function View(): Data
      reads this
    {
      Data(heap, devices, nameToId, profiles, held)
    }

    /** Between calls: counts exact, maps leading to live devices, and no device at count zero that is not freed. */
    ghost predicate Valid()
      reads this
    {
      Sound(View(), Idle)
    }

    /** Between calls: the indexes inverse and the profiles shared. */
    ghost predicate Agreeing()
      reads this
    {
      AllAgree(View())
    }

    /** Where the calling thread is inside the write lock. */
    ghost predicate ValidAt(w: Pc)
      reads this
    {
      Sound(View(), w)
    }

    /** add_locked. */
    method AddDevice(dev: Info, a: Addr, p: Addr, ghost rest: seq<Info>)
      requires a !in heap
      modifies this
      ensures View() == AddLocked(old(View()), dev, a, p) && IsAdded(old(View()), View(), dev, a)
      ensures old(ValidAt(Adding(dev, rest))) ==> ValidAt(Writing(Populate(rest)))
    {
      AddedHolds(View(), dev, a, p);
      ghost var valid := ValidAt(Adding(dev, rest));
      if valid {
        AddedKeeps(View(), dev, rest, a, p);
      }
      hide DataInv, NoZeros;
      var profile := p;
      if dev.profileName in profiles {
        profile := profiles[dev.profileName];
      } else {
        profiles := profiles[dev.profileName := p];
      }
      heap := heap[a := Device(dev, profile, 1, false)];
      devices := devices[heap[a].info.id := a];
      nameToId := nameToId[heap[a].info.name := IdRef(heap[a].info.id, a)];
    }

    /** remove_locked. */
    method RemoveLocked(a: Addr, ghost next: Option<Info>)
      requires a in heap
      modifies this
      ensures View() == Removed(old(View()), a)
      ensures old(ValidAt(DropName(a, next))) ==> ValidAt(AfterDrop(next))
    {
      if ValidAt(DropName(a, next)) {
        RemovedKeeps(View(), a, next);
      }
      hide DataInv, NoZeros;
      nameToId := nameToId - {heap[a].info.name};
      devices := devices - {heap[a].info.id};
      heap := heap[a := heap[a].(refs := heap[a].refs - 1)];
      if heap[a].refs == 0 {
        heap := heap[a := heap[a].(freed := true)];
      }
    }

    /** edgex_device_release. */
    method Release(a: Addr)
      requires Valid() && a in held
      modifies this`heap, this`held
      ensures a in old(heap) && View() == Released(old(View()), a)
      ensures Valid() && (old(Agreeing()) ==> Agreeing())
    {
      ReleasedKeeps(View(), a);
      if Agreeing() {
        ReleasedAgrees(View(), a);
      }
      hide DataInv, NoZeros, AllAgree;
      heap := heap[a := heap[a].(refs := heap[a].refs - 1)];
      held := held - multiset{a};
      if heap[a].refs == 0 {
        heap := heap[a := heap[a].(freed := true)];
      }
    }

    /** edgex_devmap_populate_devices. */
    method PopulateDevices(devs: seq<Info>, at: seq<(Addr, Addr)>)
      requires Valid() && |at| == |devs| && NewObjects(View(), at)
      modifies this
      ensures View() == Populated(old(View()), devs, at) && IsPopulated(old(View()), View(), devs, at)
      ensures Valid() <==> old(Harmless(View(), Populate(devs)))
      ensures old(Agreeing()) ==> (Agreeing() <==> old(Permitted(View(), Populate(devs))))
    {
      hide Sound, AllAgree, Harmless, Permitted, NewObjects, Populated, IsPopulated, AddLocked;
      PopulatedHolds(View(), devs, at);
      ghost var all := Populated(View(), devs, at);
      ghost var harmless := Harmless(View(), Populate(devs));
      PopulateStarts(View(), devs);
      PopulateHarms(View(), devs, at);
      if Agreeing() {
        PopulateAgreesIff(View(), devs, at);
      }
      var i := 0;
      assert devs[0..] == devs && at[0..] == at;
      while i < |devs|
        invariant i <= |devs|
        invariant harmless ==> ValidAt(Writing(Populate(devs[i..])))
        invariant Populated(View(), devs[i..], at[i..]) == all
        invariant NewObjects(View(), at[i..])
      {
        PopulateOne(View(), devs, at, i);
        if devs[i].name !in nameToId {
          AddDevice(devs[i], at[i].0, at[i].1, devs[i + 1..]);
        }
        i := i + 1;
      }
      PopulateEnds(View());
      NothingToPopulate(View());
      assert devs[i..] == [] && at[i..] == [];
    }

    /** edgex_devmap_replace_device. */
    method ReplaceDevice(dev: Info, a: Addr, p: Addr)
      requires Valid() && a !in heap
      modifies this
      ensures dev.id in old(devices) ==> old(devices)[dev.id] in old(heap)
      ensures View() == Replaced(old(View()), dev, a, p) && IsReplaced(old(View()), View(), dev, a)
      ensures Valid()
      ensures old(Agreeing()) ==> (Agreeing() <==> old(Permitted(View(), Replace(dev))))
    {
      hide Sound, AllAgree, Permitted, SameInPlace, AddLocked, Removed, IsReplaced;
      ReplaceStarts(View(), dev);
      ValidHolds(View(), dev, a, p);
      if Agreeing() {
        ReplaceAgreesIff(View(), dev, a, p);
      }
      if dev.id !in devices {
        AddDevice(dev, a, p, []);
      } else {
        var prior := devices[dev.id];
        if SameInPlace(heap[prior].info, dev) {
          heap := heap[prior := heap[prior].(info := heap[prior].info.(details := dev.details))];
          return;
        }
        RemoveLocked(prior, Some(dev));
        AddDevice(dev, a, p, []);
      }
      PopulateEnds(View());
    }

    /** edgex_devmap_removedevice_byname. */
    method RemoveDeviceByName(name: string)
      requires Valid()
      modifies this
      ensures name in old(nameToId)
        ==> FollowsTo(old(View()), old(nameToId)[name]) && old(nameToId)[name].owner in old(heap)
      ensures Valid() && View() == if name in old(nameToId) then Removed(old(View()), old(nameToId)[name].owner)
        else old(View())
      ensures old(Agreeing()) ==> Agreeing()
    {
      NamesFollow(View(), Idle);
      WritingStarts(View(), RemoveByName(name));
      DecideRemove(View(), RemoveByName(name));
      StoredIsInMap(View(), Idle);
      NameLeadsToOwner(View(), name);
      hide DataInv, NoZeros;
      if name in nameToId {
        if Agreeing() {
          RemovedAgrees(View(), devices[nameToId[name].id]);
        }
        RemoveLocked(devices[nameToId[name].id], None);
      }
    }

    /** edgex_devmap_removedevice_byid: an absent id gives a null pointer, which is dereferenced. */
    method RemoveDeviceById(id: string) returns (defined: bool)
      requires Valid()
      modifies this
      ensures defined <==> id in old(devices)
      ensures Valid() && (defined ==> old(devices)[id] in old(heap) && View() == Removed(old(View()), old(devices)[id]))
      ensures old(Agreeing()) ==> Agreeing()
    {
      if id !in devices {
        return false;
      }
      WritingStarts(View(), RemoveById(id));
      DecideRemove(View(), RemoveById(id));
      StoredIsInMap(View(), Idle);
      hide DataInv, NoZeros;
      if Agreeing() {
        RemovedAgrees(View(), devices[id]);
      }
      RemoveLocked(devices[id], None);
      return true;
    }

    /** edgex_devmap_add_profile. */
    method AddProfile(name: string, profile: Addr)
      requires Valid()
      modifies this`profiles
      ensures View() == old(View()).(profiles := old(profiles)[name := profile])
      ensures Valid()
      ensures old(Agreeing()) ==> (Agreeing() <==> OwnersPointTo(old(View()), name, profile))
    {
      ProfileKeeps(View(), name, profile);
      ProfilesKeptIff(View(), name, profile);
      hide Sound, OwnersPointTo, Agrees;
      profiles := profiles[name := profile];
    }

    /** edgex_devmap_device_byid. */
    method DeviceById(id: string) returns (result: Option<Addr>)
      requires Valid()
      modifies this`heap, this`held
      ensures result == if id in devices then Some(devices[id]) else None
      ensures Valid() && (old(Agreeing()) ==> Agreeing()) && (result.None? ==> View() == old(View()))
      ensures result.Some? ==>
        result.value in old(heap)
        && View() == Held(old(View()), result.value)
    {
      if id !in devices {
        return None;
      }
      StoredIsInMap(View(), Idle);
      hide DataInv;
      TakeReference(devices[id]);
      return Some(devices[id]);
    }

    /** edgex_devmap_device_byname. */
    method DeviceByName(name: string) returns (result: Option<Addr>)
      requires Valid()
      modifies this`heap, this`held
      ensures result == if name in nameToId then Some(nameToId[name].owner) else None
      ensures Valid() && (old(Agreeing()) ==> Agreeing()) && (result.None? ==> View() == old(View()))
      ensures result.Some? ==>
        result.value in old(heap)
        && View() == Held(old(View()), result.value)
    {
      if name !in nameToId {
        return None;
      }
      StoredIsInMap(View(), Idle);
      NameLeadsToOwner(View(), name);
      hide DataInv;
      TakeReference(devices[nameToId[name].id]);
      return Some(devices[nameToId[name].id]);
    }

    /**
     * edgex_devmap_device_forcmd: `ids` is the order the iterator meets the ids in, each once. Exactly the devices in
     * the map that answer are handed out, each once and with one more reference.
     */
    method DevicesForCommand(ids: seq<string>, has: Addr -> bool) returns (queue: seq<Addr>)
      requires Valid() && (forall id :: id in ids <==> id in devices)
      requires forall i, j :: 0 <= i < j < |ids| ==> ids[i] != ids[j]
      modifies this`heap, this`held
      ensures Valid() && AllStored(old(View()), ids) && queue == Answering(old(View()), ids, has)
      ensures forall a :: a in queue <==> InMap(old(View()), a) && Answers(old(heap)[a], has)
      ensures forall a :: multiset(queue)[a] <= 1
      ensures View() == HeldAll(old(View()), queue) && Gained(old(View()), View(), multiset(queue))
      ensures old(Agreeing()) ==> Agreeing()
    {
      AnsweringIsAll(View(), ids, has);
      AllHeldAgree(View(), Answering(View(), ids, has));
      hide Sound, AllAgree, Gained, Answers, InMap, Held;
      queue := AskAll(ids, has);
    }

    method AskAll(ids: seq<string>, has: Addr -> bool) returns (queue: seq<Addr>)
      requires Valid() && AllStored(View(), ids)
      modifies this`heap, this`held
      ensures Valid() && queue == Answering(old(View()), ids, has) && View() == HeldAll(old(View()), queue)
    {
      ghost var d := View();
      hide Sound, Answers, Held;
      queue := [];
      assert ids[..0] == [];
      for i := 0 to |ids|
        invariant Valid() && AllStored(d, ids[..i]) && queue == Answering(d, ids[..i], has)
        invariant View() == HeldAll(d, queue)
      {
        assert ids[..i + 1][..i] == ids[..i];
        queue := AskDevice(d, ids[i], has, queue);
      }
      assert ids[..|ids|] == ids;
    }

    /** The loop body. */
    method AskDevice(ghost d: Data, id: string, has: Addr -> bool, queue: seq<Addr>) returns (more: seq<Addr>)
      requires Valid() && (forall a <- queue :: a in d.heap) && View() == HeldAll(d, queue)
      requires id in d.devices && Alive(d, d.devices[id])
      modifies this`heap, this`held
      ensures Valid() && (forall a <- more :: a in d.heap) && View() == HeldAll(d, more)
      ensures more == if Answers(d.heap[d.devices[id]], has) then [d.devices[id]] + queue else queue
    {
      HeldAllIs(d, queue);
      StoredIsInMap(View(), Idle);
      hide DataInv, NoZeros;
      more := queue;
      var a := devices[id];
      if Answers(heap[a], has) {
        more := [a] + queue;
        HeldOneMore(d, a, queue);
        TakeReference(a);
      }
    }

    /** atomic_fetch_add (&result->refs, 1). */
    method TakeReference(a: Addr)
      requires Valid() && InMap(View(), a)
      modifies this`heap, this`held
      ensures Valid() && a in old(heap) && (old(Agreeing()) ==> Agreeing())
      ensures View() == Held(old(View()), a)
    {
      hide DataInv, NoZeros, AllAgree;
      if Agreeing() {
        HeldAgrees(View(), a);
      }
      InMapIsCounted(View(), Idle, a);
      HolderCounted(View(), Idle, a, 1, held + multiset{a});
      ghost var before := View();
      heap := heap[a := heap[a].(refs := heap[a].refs + 1)];
      held := held + multiset{a};
      OneDeviceChanges(before, View(), a);
    }
  }
}
