/** When the indexes of the device map agree with each other. */
module DevMapIndexes {
  import opened CString
  import opened DevMap
  import opened DevMapInvariant

  /** Between two statements of the writer, the device whose id is stored but whose name is not. */
  predicate Nameless(w: Pc, a: Addr) {
    (w.DropDevice? || w.SetName?) && w.a == a
  }

  predicate NamedBack(d: Data, id: string)
    requires id in d.devices
  {
    d.devices[id] in d.heap
    && d.heap[d.devices[id]].info.name in d.nameToId
    && d.nameToId[d.heap[d.devices[id]].info.name] == IdRef(id, d.devices[id])
  }

  /** The name of every stored device leads back to it, up to the nameless device. */
  ghost predicate BackNamed(d: Data, w: Pc) {
    forall id :: id in d.devices && !Nameless(w, d.devices[id]) ==> NamedBack(d, id)
  }

  /** Ids and names are mutually inverse. */
  ghost predicate Names(d: Data, w: Pc) {
    Stored(d) && BackNamed(d, w)
  }

  /** Every device not yet freed shares the profile object stored under its profile name. */
  ghost predicate Profiles(d: Data) {
    forall a :: Alive(d, a) ==>
      d.heap[a].info.profileName in d.profiles && d.profiles[d.heap[a].info.profileName] == d.heap[a].profile
  }

  /** What the writer knows of the names it is about to store. */
  ghost predicate NameKnown(d: Data, w: Pc) {
    match w
    case Writing(op) => Permitted(d, op)
    case DropName(_, next) => next.Some? ==> NameFree(d, next.value)
    case DropDevice(_, next) => next.Some? ==> next.value.name !in d.nameToId
    case DropRef(_, next) => next.Some? ==> next.value.name !in d.nameToId
    case DropFree(_, next) => next.Some? ==> next.value.name !in d.nameToId
    case Adding(dev, _) => dev.name !in d.nameToId
    case SetDevice(a, _) => a in d.heap && d.heap[a].info.name !in d.nameToId
    case SetName(a, _) => a in d.heap && d.heap[a].info.name !in d.nameToId
    case _ => true
  }

  ghost predicate Agrees(d: Data, w: Pc) {
    BackNamed(d, w) && Profiles(d) && NameKnown(d, w)
  }

  /** Between calls: ids and names are mutually inverse, and profiles are shared. */
  ghost predicate AllAgree(d: Data) {
    Stored(d) && Agrees(d, Idle)
  }

  // ---- Statements ----

  lemma CountsDoNotMatter(d: Data, d': Data, w: Pc)
    requires SameButCounts(d, d') && Agrees(d, w)
    ensures Agrees(d', w)
  {
    BackNamedIgnoresCounts(d, d', w);
    hide BackNamed;
  }

  lemma BackNamedIgnoresCounts(d: Data, d': Data, w: Pc)
    requires SameButCounts(d, d') && BackNamed(d, w)
    ensures BackNamed(d', w)
  {
    hide Alive;
    forall id | id in d'.devices && !Nameless(w, d'.devices[id])
      ensures NamedBack(d', id)
    {
      assert NamedBack(d, id);
    }
  }

  lemma InPlaceAgrees(d: Data, a: Addr, details: Details)
    requires a in d.heap && Agrees(d, Idle)
    ensures Agrees(d.(heap := d.heap[a := d.heap[a].(info := d.heap[a].info.(details := details))]), Idle)
  {
    var d' := d.(heap := d.heap[a := d.heap[a].(info := d.heap[a].info.(details := details))]);
    forall id | id in d'.devices
      ensures NamedBack(d', id)
    {
      assert !Nameless(Idle, d.devices[id]) && NamedBack(d, id);
    }
  }

  lemma DecideAgrees(d: Data, op: Write)
    requires DataInv(d, Writing(op)) && Agrees(d, Writing(op))
    ensures var (d', w') := Decide(d, op); Agrees(d', w')
  {
    hide DataInv, SameInPlace, FollowsTo, BackNamed, Profiles;
    var (d', w') := Decide(d, op);
    StoredIsInMap(d, Writing(op));
    if op.Replace? && w'.Idle? {
      NothingNameless(d, Writing(op), Idle);
      InPlaceAgrees(d, d.devices[op.dev.id], op.dev.details);
    } else if op.AddProfile? {
      ProfileAgrees(d, op.name, op.profile);
    } else {
      NothingNameless(d, Writing(op), w');
    }
  }

  lemma ProfileAgrees(d: Data, name: string, profile: Addr)
    requires Agrees(d, Writing(AddProfile(name, profile)))
    ensures Agrees(d.(profiles := d.profiles[name := profile]), Idle)
  {
    var d' := d.(profiles := d.profiles[name := profile]);
    assert forall id :: id in d'.devices ==> NamedBack(d, id) && NamedBack(d', id);
  }

  lemma DropNameAgrees(d: Data, a: Addr, next: Option<Info>)
    requires DataInv(d, DropName(a, next)) && Agrees(d, DropName(a, next))
    ensures Agrees(d.(nameToId := d.nameToId - {d.heap[a].info.name}), DropDevice(a, next))
  {
    hide Refs;
    var d' := d.(nameToId := d.nameToId - {d.heap[a].info.name});
    forall id | id in d'.devices && !Nameless(DropDevice(a, next), d'.devices[id])
      ensures NamedBack(d', id)
    {
      assert NamedBack(d, id) && NamedBack(d, d.heap[a].info.id);
    }
  }

  lemma DropDeviceAgrees(d: Data, a: Addr, next: Option<Info>)
    requires DataInv(d, DropDevice(a, next)) && Agrees(d, DropDevice(a, next))
    ensures Agrees(d.(devices := d.devices - {d.heap[a].info.id}), DropRef(a, next))
  {
    hide Refs;
    var d' := d.(devices := d.devices - {d.heap[a].info.id});
    forall id | id in d'.devices && !Nameless(DropRef(a, next), d'.devices[id])
      ensures NamedBack(d', id)
    {
      assert StoredAt(d, id) && d.devices[id] != a;
      assert NamedBack(d, id);
    }
  }

  lemma DropRefAgrees(d: Data, a: Addr, next: Option<Info>)
    requires a in d.heap && Agrees(d, DropRef(a, next))
    ensures Agrees(AddRefs(d, a, -1), AfterDrop(next)) && Agrees(AddRefs(d, a, -1), DropFree(a, next))
  {
    CountsDoNotMatter(d, AddRefs(d, a, -1), DropRef(a, next));
    NothingNameless(AddRefs(d, a, -1), DropRef(a, next), AfterDrop(next));
    NothingNameless(AddRefs(d, a, -1), DropRef(a, next), DropFree(a, next));
    hide BackNamed, Profiles;
  }

  lemma NothingNameless(d: Data, w: Pc, w': Pc)
    requires BackNamed(d, w) && forall a :: Nameless(w, a) ==> Nameless(w', a)
    ensures BackNamed(d, w')
  {
  }

  lemma DropFreeAgrees(d: Data, a: Addr, next: Option<Info>)
    requires a in d.heap && Agrees(d, DropFree(a, next))
    ensures Agrees(MarkFreed(d, a), AfterDrop(next))
  {
    CountsDoNotMatter(d, MarkFreed(d, a), DropFree(a, next));
    NothingNameless(MarkFreed(d, a), DropFree(a, next), AfterDrop(next));
    hide BackNamed, Profiles;
  }

  lemma DuplicateAgrees(d: Data, dev: Info, rest: seq<Info>, a: Addr, p: Addr)
    requires Stored(d) && Agrees(d, Adding(dev, rest)) && a !in d.heap
    ensures Agrees(Dup(d, dev, a, p), SetDevice(a, rest))
  {
    var d' := Dup(d, dev, a, p);
    assert forall b :: b in d.heap ==> b in d'.heap && d'.heap[b] == d.heap[b];
    forall id | id in d'.devices && !Nameless(SetDevice(a, rest), d'.devices[id])
      ensures NamedBack(d', id)
    {
      assert NamedBack(d, id);
    }
    hide BackNamed;
  }

  lemma SetDeviceAgrees(d: Data, a: Addr, rest: seq<Info>)
    requires a in d.heap && Agrees(d, SetDevice(a, rest))
    ensures Agrees(d.(devices := d.devices[d.heap[a].info.id := a]), SetName(a, rest))
  {
    var d' := d.(devices := d.devices[d.heap[a].info.id := a]);
    forall id | id in d'.devices && !Nameless(SetName(a, rest), d'.devices[id])
      ensures NamedBack(d', id)
    {
      assert NamedBack(d, id);
    }
    hide BackNamed;
  }

  lemma SetNameAgrees(d: Data, a: Addr, rest: seq<Info>)
    requires DataInv(d, SetName(a, rest)) && Agrees(d, SetName(a, rest))
    ensures Agrees(d.(nameToId := d.nameToId[d.heap[a].info.name := IdRef(d.heap[a].info.id, a)]),
                   Writing(Populate(rest)))
  {
    var d' := d.(nameToId := d.nameToId[d.heap[a].info.name := IdRef(d.heap[a].info.id, a)]);
    SetNameKeeps(d, a, rest);
    hide Refs, Harmless;
    forall id | id in d'.devices
      ensures NamedBack(d', id)
    {
      assert StoredAt(d, id);
      assert d.devices[id] == a || NamedBack(d, id);
    }
    hide BackNamed;
  }

  // ---- Every step, every run ----

  lemma ExecuteAgrees(d: Data, w: Pc)
    requires DataInv(d, w) && Agrees(d, w) && Execute(d, w).Some? && Execute(d, w).value.1 != Crashed
    ensures var (d', w') := Execute(d, w).value; Agrees(d', w')
  {
    hide DataInv, Agrees, Decide;
    match w
    case Writing(op) => DecideAgrees(d, op);
    case DropName(a, next) => DropNameAgrees(d, a, next);
    case DropDevice(a, next) => DropDeviceAgrees(d, a, next);
    case DropRef(a, next) => DropRefAgrees(d, a, next);
    case DropFree(a, next) => DropFreeAgrees(d, a, next);
    case SetDevice(a, rest) => SetDeviceAgrees(d, a, rest);
    case SetName(a, rest) => SetNameAgrees(d, a, rest);
    case _ =>
  }

  /** The indexes agree, up to what the writer is about to do. */
  ghost predicate IndexInv(s: State) {
    Agrees(s.db, WriterAt(s))
  }

  lemma StepAgrees(s: State, step: Step)
    requires Inv(s) && IndexInv(s) && Take(s, step).Some? && StepPermitted(s, step)
    ensures IndexInv(Take(s, step).value)
  {
    if step.Statement? {
      StatementAgrees(s, step.t);
    } else if step.Duplicate? {
      WriterIs(s, step.t);
      hide Inv, Agrees;
      DuplicateAgrees(s.db, PcOf(s, step.t).dev, PcOf(s, step.t).rest, step.a, step.p);
    } else if step.StartWrite? {
      NothingNameless(s.db, Idle, Writing(step.op));
      hide Inv, BackNamed, Profiles;
    } else {
      OthersAgree(s, step);
    }
  }

  lemma WriterIs(s: State, t: Tid)
    requires Inv(s) && WriterPc(PcOf(s, t))
    ensures s.writer == Some(t) && WriterAt(s) == PcOf(s, t) && Stored(s.db) && DataInv(s.db, PcOf(s, t))
  {
    hide Zeros, Lookups, Refs, WriterKnows;
  }

  lemma StatementAgrees(s: State, t: Tid)
    requires Inv(s) && IndexInv(s) && Take(s, Statement(t)).Some?
    ensures IndexInv(Take(s, Statement(t)).value)
  {
    StatementKeeps(s, t);
    WriterIs(s, t);
    NotCrashed(Take(s, Statement(t)).value, t);
    hide Inv, Agrees, DataInv, Execute;
    ExecuteAgrees(s.db, PcOf(s, t));
  }

  lemma NotCrashed(s: State, t: Tid)
    requires Inv(s)
    ensures !PcOf(s, t).Crashed?
  {
    hide Zeros, Lookups, DataInv;
  }

  /** Readers and releases change nothing but counts, and the writer stays where it is. */
  lemma OthersAgree(s: State, step: Step)
    requires Inv(s) && IndexInv(s) && Take(s, step).Some?
    requires !step.Statement? && !step.Duplicate? && !step.StartWrite?
    ensures IndexInv(Take(s, step).value)
  {
    hide Inv, Take, Agrees;
    OnlyCounts(s, step);
    WriterStays(s, step);
    CountsDoNotMatter(s.db, Take(s, step).value.db, WriterAt(s));
  }

  lemma OnlyCounts(s: State, step: Step)
    requires Take(s, step).Some? && !step.Statement? && !step.Duplicate? && !step.StartWrite?
    ensures SameButCounts(s.db, Take(s, step).value.db)
  {
    hide Execute, FollowsTo, SameButCounts;
    var pc := PcOf(s, step.t);
    if step.Count? && Alive(s.db, pc.a) {
      RefsSame(s.db, pc.a, 1, s.db.held + multiset{pc.a});
    } else if step.Release? && Alive(s.db, step.a) {
      RefsSame(s.db, step.a, -1, s.db.held - multiset{step.a});
    } else if step.Free? && Alive(s.db, pc.a) {
      FreedSame(s.db, pc.a);
    } else {
      NothingChanged(s.db);
    }
  }

  lemma NothingChanged(d: Data)
    ensures SameButCounts(d, d)
  {
  }

  lemma WriterStays(s: State, step: Step)
    requires Inv(s) && Take(s, step).Some? && !step.Statement? && !step.Duplicate? && !step.StartWrite?
    ensures WriterAt(Take(s, step).value) == WriterAt(s)
  {
    hide Zeros, Lookups, DataInv;
  }

  lemma EmptyAgrees()
    ensures IndexInv(EMPTY)
  {
  }

  lemma {:induction false} PermittedIsHarmless(steps: seq<Step>)
    requires PermittedRun(EMPTY, steps)
    ensures HarmlessRun(EMPTY, steps)
    decreases |steps|
  {
    hide Run, Harmless;
    if steps != [] {
      PermittedIsHarmless(steps[..|steps| - 1]);
    }
  }

  /** The indexes agree after every permitted run, however the threads interleave. */
  lemma {:induction false} RunAgrees(steps: seq<Step>)
    requires PermittedRun(EMPTY, steps)
    ensures HarmlessRun(EMPTY, steps) && IndexInv(Run(EMPTY, steps).value)
    decreases |steps|
  {
    hide Inv, Take, IndexInv, Permitted, Harmless;
    PermittedIsHarmless(steps);
    if steps == [] {
      EmptyAgrees();
    } else {
      var front := steps[..|steps| - 1];
      RunAgrees(front);
      RunKeeps(front);
      StepAgrees(Run(EMPTY, front).value, steps[|steps| - 1]);
    }
  }
}
