/**
 * The device map as many threads see it: three maps behind a read/write lock, and counted references to devices.
 * Each step of the machine is one statement of one thread; a null or dangling pointer leads to `Crashed`.
 */
module DevMap {
  import opened CString
  import opened ListCompare

  type Tid = nat
  type Addr = nat

  /** The fields update_in_place copies. */
  datatype Details = Details(adminState: int, operatingState: int, created: int, lastConnected: int, lastReported: int,
                             modified: int, origin: int, description: string, labels: seq<string>)

  /** A device as metadata describes it. */
  datatype Info = Info(id: string, name: string, profileName: string, autos: AutoEvents, protocols: Protocols,
                       details: Details)

  /**
   * A device object: its description, the profile object it points to, its reference count, and whether it has been
   * freed.
   */
  datatype Device = Device(info: Info, profile: Addr, refs: int, freed: bool)

  /** An entry of name_to_id: it points to the id string inside a device object. */
  datatype IdRef = IdRef(id: string, owner: Addr)

  /** What a call that takes the write lock will do. */
  datatype Write =
    | Populate(devs: seq<Info>)
    | Replace(dev: Info)
    | RemoveByName(name: string)
    | RemoveById(id: string)
    | AddProfile(name: string, profile: Addr)

  /** Where a thread is. `a` is the device at hand; `next` and `rest` are devices still to be added by the same call. */
  datatype Pc =
    | Idle
    | Reading                                  // holds the read lock
    | Found(a: Addr)                           // has looked a device up, has not yet counted its reference
    | Freeing(a: Addr)                         // its release took the count to zero
    | Writing(op: Write)                       // holds the write lock from here on
    | DropName(a: Addr, next: Option<Info>)    // remove_locked: before removing the name
    | DropDevice(a: Addr, next: Option<Info>)  //   before removing the id
    | DropRef(a: Addr, next: Option<Info>)     //   before releasing the map's reference
    | DropFree(a: Addr, next: Option<Info>)    //   that release took the count to zero
    | Adding(dev: Info, rest: seq<Info>)       // add_locked: before duplicating the device
    | SetDevice(a: Addr, rest: seq<Info>)      //   before storing it by id
    | SetName(a: Addr, rest: seq<Info>)        //   before storing its id by name
    | Crashed

  /** The shared data. */
  datatype Data = Data(
    heap: map<Addr, Device>,
    devices: map<string, Addr>,
    nameToId: map<string, IdRef>,
    profiles: map<string, Addr>,
    held: multiset<Addr>)                      // one entry for each reference handed out and not yet released

  datatype State = State(db: Data, readers: set<Tid>, writer: Option<Tid>, pcs: map<Tid, Pc>)

  const EMPTY := State(Data(map[], map[], map[], map[], multiset{}), {}, None, map[])

  function PcOf(s: State, t: Tid): Pc {
    if t in s.pcs then s.pcs[t] else Idle
  }

  predicate InMap(d: Data, a: Addr) {
    a in d.heap && d.heap[a].info.id in d.devices && d.devices[d.heap[a].info.id] == a
  }

  predicate Alive(d: Data, a: Addr) {
    a in d.heap && !d.heap[a].freed
  }

  function AddRefs(d: Data, a: Addr, n: int): Data
    requires a in d.heap
  {
    d.(heap := d.heap[a := d.heap[a].(refs := d.heap[a].refs + n)])
  }

  function MarkFreed(d: Data, a: Addr): Data
    requires a in d.heap
  {
    d.(heap := d.heap[a := d.heap[a].(freed := true)])
  }

  /** The comparisons update_in_place makes before it writes anything. */
  predicate SameInPlace(dest: Info, src: Info) {
    dest.name == src.name && dest.profileName == src.profileName
    && AutoEventsEqual(dest.autos, src.autos) && ProtocolsEqual(dest.protocols, src.protocols)
  }

  // ---- Assumptions on the metadata service, on what is asked when the write lock is taken ----

  /** A name is not moved from one device id to another. */
  predicate NameFree(d: Data, dev: Info) {
    dev.name in d.nameToId ==> d.nameToId[dev.name].id == dev.id
  }

  /** The names known and the ids known, and what is added to them in turn: an unknown name must bring an unknown id. */
  predicate Addable(names: set<string>, ids: set<string>, devs: seq<Info>)
    decreases |devs|
  {
    devs == []
    || if devs[0].name in names then Addable(names, ids, devs[1..])
       else devs[0].id !in ids && Addable(names + {devs[0].name}, ids + {devs[0].id}, devs[1..])
  }

  /** What reference counts and pointers depend on. */
  predicate Harmless(d: Data, op: Write) {
    match op
    case Populate(devs) => Addable(d.nameToId.Keys, d.devices.Keys, devs)
    case RemoveById(id) => id in d.devices
    case _ => true
  }

  /** What the agreement of the indexes depends on as well. */
  predicate Permitted(d: Data, op: Write) {
    && Harmless(d, op)
    && match op
       case Replace(dev) => NameFree(d, dev)
       case AddProfile(name, _) => name !in d.profiles
       case _ => true
  }

  // ---- Steps ----

  datatype Step =
    | StartRead(t: Tid)
    | LookupId(t: Tid, id: string)
    | LookupName(t: Tid, name: string)
    | Count(t: Tid)                            // atomic_fetch_add (&result->refs, 1)
    | EndRead(t: Tid)
    | Release(t: Tid, a: Addr)                 // edgex_device_release: atomic_fetch_add (&dev->refs, -1)
    | Free(t: Tid)                             // edgex_device_free
    | StartWrite(t: Tid, op: Write)
    | Statement(t: Tid)                        // the next statement under the write lock
    | Duplicate(t: Tid, a: Addr, p: Addr)      // edgex_device_dup gives a new object; its own profile copy is at `p`

  /** The id string can be read, and it is the id of a stored device. */
  predicate FollowsTo(d: Data, ref: IdRef) {
    Alive(d, ref.owner) && ref.id in d.devices
  }

  function Goto(s: State, t: Tid, pc: Pc): State {
    s.(pcs := s.pcs[t := pc])
  }

  /** None when the step is not enabled. */
  function Take(s: State, step: Step): Option<State> {
    var pc := PcOf(s, step.t);
    match step
    case StartRead(t) =>
      if pc.Idle? && s.writer.None? then Some(Goto(s, t, Reading).(readers := s.readers + {t})) else None
    case LookupId(t, id) =>
      if !pc.Reading? then None
      else if id in s.db.devices then Some(Goto(s, t, Found(s.db.devices[id])))
      else Some(s)
    case LookupName(t, name) =>
      if !pc.Reading? then None
      else if name !in s.db.nameToId then Some(s)
      else if FollowsTo(s.db, s.db.nameToId[name]) then Some(Goto(s, t, Found(s.db.devices[s.db.nameToId[name].id])))
      else Some(Goto(s, t, Crashed))
    case Count(t) =>
      if !pc.Found? then None
      else if !Alive(s.db, pc.a) then Some(Goto(s, t, Crashed))
      else Some(Goto(s, t, Reading).(db := AddRefs(s.db, pc.a, 1).(held := s.db.held + multiset{pc.a})))
    case EndRead(t) =>
      if pc.Reading? then Some(Goto(s, t, Idle).(readers := s.readers - {t})) else None
    case Release(t, a) =>
      if !pc.Idle? || a !in s.db.held then None
      else if !Alive(s.db, a) then Some(Goto(s, t, Crashed))
      else
        Some(Goto(s, t, if s.db.heap[a].refs == 1 then Freeing(a) else Idle)
             .(db := AddRefs(s.db, a, -1).(held := s.db.held - multiset{a})))
    case Free(t) =>
      if !pc.Freeing? then None
      else if !Alive(s.db, pc.a) then Some(Goto(s, t, Crashed))
      else Some(Goto(s, t, Idle).(db := MarkFreed(s.db, pc.a)))
    case StartWrite(t, op) =>
      if pc.Idle? && s.writer.None? && s.readers == {}
      then Some(Goto(s, t, Writing(op)).(writer := Some(t)))
      else None
    case Statement(t) =>
      var after := Execute(s.db, pc);
      if after.None? then None
      else
        var (d, next) := after.value;
        Some(Goto(s, t, next).(db := d, writer := if next.Idle? then None else s.writer))
    case Duplicate(t, a, p) =>
      if !pc.Adding? || a in s.db.heap then None
      else Some(Goto(s, t, SetDevice(a, pc.rest)).(db := Dup(s.db, pc.dev, a, p)))
  }

  /**
   * The first statements of add_locked: a new object with one reference, and the shared profile object when there is
   * one.
   */
  function Dup(d: Data, dev: Info, a: Addr, p: Addr): Data {
    var known := dev.profileName in d.profiles;
    var profile := if known then d.profiles[dev.profileName] else p;
    d.(heap := d.heap[a := Device(dev, profile, 1, false)],
       profiles := if known then d.profiles else d.profiles[dev.profileName := p])
  }

  /** What follows remove_locked in the same call. */
  function AfterDrop(next: Option<Info>): Pc {
    match next
    case None => Idle
    case Some(dev) => Adding(dev, [])
  }

  /** One statement of the thread that holds the write lock: the data and the program counter after it; Idle unlocks. */
  function Execute(d: Data, pc: Pc): Option<(Data, Pc)> {
    match pc
    case Writing(op) => Some(Decide(d, op))
    case DropName(a, next) =>
      if !Alive(d, a) then Some((d, Crashed))
      else Some((d.(nameToId := d.nameToId - {d.heap[a].info.name}), DropDevice(a, next)))
    case DropDevice(a, next) =>
      if !Alive(d, a) then Some((d, Crashed))
      else Some((d.(devices := d.devices - {d.heap[a].info.id}), DropRef(a, next)))
    case DropRef(a, next) =>
      if !Alive(d, a) then Some((d, Crashed))
      else Some((AddRefs(d, a, -1), if d.heap[a].refs == 1 then DropFree(a, next) else AfterDrop(next)))
    case DropFree(a, next) =>
      if !Alive(d, a) then Some((d, Crashed)) else Some((MarkFreed(d, a), AfterDrop(next)))
    case SetDevice(a, rest) =>
      if !Alive(d, a) then Some((d, Crashed))
      else Some((d.(devices := d.devices[d.heap[a].info.id := a]), SetName(a, rest)))
    case SetName(a, rest) =>
      if !Alive(d, a) then Some((d, Crashed))
      else Some((d.(nameToId := d.nameToId[d.heap[a].info.name := IdRef(d.heap[a].info.id, a)]),
                 Writing(Populate(rest))))
    case _ => None
  }

  /** The branches each call takes once it has the write lock. */
  function Decide(d: Data, op: Write): (Data, Pc) {
    match op
    case Populate(devs) =>
      if devs == [] then (d, Idle)
      else if devs[0].name in d.nameToId then (d, Writing(Populate(devs[1..])))
      else (d, Adding(devs[0], devs[1..]))
    case Replace(dev) =>
      if dev.id !in d.devices then (d, Adding(dev, []))
      else
        var a := d.devices[dev.id];
        if !Alive(d, a) then (d, Crashed)
        else if SameInPlace(d.heap[a].info, dev) then
          (d.(heap := d.heap[a := d.heap[a].(info := d.heap[a].info.(details := dev.details))]), Idle)
        else (d, DropName(a, Some(dev)))
    case RemoveByName(name) =>
      if name !in d.nameToId then (d, Idle)
      else if FollowsTo(d, d.nameToId[name]) then (d, DropName(d.devices[d.nameToId[name].id], None))
      else (d, Crashed)
    case RemoveById(id) => if id in d.devices then (d, DropName(d.devices[id], None)) else (d, Crashed)
    case AddProfile(name, profile) => (d.(profiles := d.profiles[name := profile]), Idle)
  }

  /** The state after a run of enabled steps. */
  function Run(s: State, steps: seq<Step>): Option<State>
    decreases |steps|
  {
    if steps == [] then Some(s)
    else
      match Run(s, steps[..|steps| - 1])
      case None => None
      case Some(before) => Take(before, steps[|steps| - 1])
  }

  predicate StepHarmless(s: State, step: Step) {
    step.StartWrite? ==> Harmless(s.db, step.op)
  }

  predicate StepPermitted(s: State, step: Step) {
    step.StartWrite? ==> Permitted(s.db, step.op)
  }

  /** A run of enabled steps in which every call that writes is harmless. */
  predicate HarmlessRun(s: State, steps: seq<Step>)
    decreases |steps|
  {
    Run(s, steps).Some?
    && (steps == [] ||
         (var front := steps[..|steps| - 1];
          HarmlessRun(s, front) && StepHarmless(Run(s, front).value, steps[|steps| - 1])))
  }

  /** A run of enabled steps in which every call that writes is given what the metadata service may send. */
  predicate PermittedRun(s: State, steps: seq<Step>)
    decreases |steps|
  {
    Run(s, steps).Some?
    && (steps == [] ||
         (var front := steps[..|steps| - 1];
          PermittedRun(s, front) && StepPermitted(Run(s, front).value, steps[|steps| - 1])))
  }
}
