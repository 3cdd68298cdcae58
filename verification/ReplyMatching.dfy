/** GET handlers of several threads, waiting at one queue for the replies of their devices. */
module ReplyMatching {
  import opened Base64
  import opened CString
  import opened Frames
  import Q = Queue

  datatype ValueType = TString | TBool | TBinary | TNumber(code: nat)

  /** `bits` stands for the number that was scanned. */
  datatype Value = Text(s: string) | Truth(b: bool) | Bits(bits: nat) | Binary(data: seq<byte>)

  /** sscanf of the numeric types; None unless it converts one item. */
  type Scanner = (nat, string) -> Option<nat>

  function Lower(c: char): char {
    if 'A' <= c <= 'Z' then c + 32 as char else c
  }

  /** strcasecmp (a, b) == 0. */
  predicate SameIgnoringCase(a: string, b: string) {
    |a| == |b| && forall i :: 0 <= i < |a| ==> Lower(a[i]) == Lower(b[i])
  }

  /** populateValue; None when it returns false. */
  function PopulateValue(scan: Scanner, t: ValueType, val: string): Option<Value> {
    match t
    case TString => Some(Text(val))
    case TBool =>
      if SameIgnoringCase(val, "true") then Some(Truth(true))
      else if SameIgnoringCase(val, "false") then Some(Truth(false))
      else None
    case TNumber(code) => (match scan(code, val) case None => None case Some(n) => Some(Bits(n)))
    case TBinary => (match Base64.Values(val) case None => None case Some(s) => Some(Binary(Bytes(s))))
  }

  /** user_repget_event_read; Undefined when it would read a value that is not there. */
  datatype ReadResult = Undefined | Refused | Got(readings: seq<Value>)

  function ReadValues(scan: Scanner, types: seq<ValueType>, values: seq<string>): ReadResult
    decreases |types|
  {
    if types == [] then Got([])
    else if values == [] then Undefined
    else
      match PopulateValue(scan, types[0], values[0])
      case None => Refused
      case Some(first) =>
        match ReadValues(scan, types[1..], values[1..])
        case Got(rest) => Got([first] + rest)
        case other => other
  }

  function ReadReply(scan: Scanner, device: string, types: seq<ValueType>, frame: string): ReadResult {
    match TakeEvent(frame)
    case None => Undefined
    case Some(event) => if event.name != device then Refused else ReadValues(scan, types, event.values)
  }

  /** What is left to read from request `i` on. */
  lemma ReadFrom(scan: Scanner, types: seq<ValueType>, values: seq<string>, i: nat)
    requires i <= |types| && i <= |values|
    ensures ReadValues(scan, types[i..], values[i..]) ==
      if i == |types| then Got([])
      else if i == |values| then Undefined
      else
        match PopulateValue(scan, types[i], values[i])
        case None => Refused
        case Some(first) =>
          match ReadValues(scan, types[i + 1..], values[i + 1..])
          case Got(rest) => Got([first] + rest)
          case other => other
  {
    hide PopulateValue;
    if i < |types| && i < |values| {
      assert types[i..][1..] == types[i + 1..] && values[i..][1..] == values[i + 1..];
    }
  }

  // ---- What a field stands for ----

  ghost predicate SpellsTrue(s: string) {
    |s| == 4 && s[0] in "tT" && s[1] in "rR" && s[2] in "uU" && s[3] in "eE"
  }

  ghost predicate SpellsFalse(s: string) {
    |s| == 5 && s[0] in "fF" && s[1] in "aA" && s[2] in "lL" && s[3] in "sS" && s[4] in "eE"
  }

  /** A field stands for a value of a type. */
  ghost predicate Stands(scan: Scanner, t: ValueType, field: string, v: Value) {
    match t
    case TString => v == Text(field)
    case TBool => (v == Truth(true) && SpellsTrue(field)) || (v == Truth(false) && SpellsFalse(field))
    case TNumber(code) => v.Bits? && scan(code, field) == Some(v.bits)
    case TBinary => v.Binary? && IsText(field) && AreBytesOf(v.data, field)
  }

  lemma AnyCase(s: string)
    ensures SameIgnoringCase(s, "true") <==> SpellsTrue(s)
    ensures SameIgnoringCase(s, "false") <==> SpellsFalse(s)
  {
    if |s| == 4 {
      var w := "true";
      assert w[0] == 't' && w[1] == 'r' && w[2] == 'u' && w[3] == 'e';
      OneLetter(s[0], w[0]);
      OneLetter(s[1], w[1]);
      OneLetter(s[2], w[2]);
      OneLetter(s[3], w[3]);
    } else if |s| == 5 {
      var w := "false";
      assert w[0] == 'f' && w[1] == 'a' && w[2] == 'l' && w[3] == 's' && w[4] == 'e';
      OneLetter(s[0], w[0]);
      OneLetter(s[1], w[1]);
      OneLetter(s[2], w[2]);
      OneLetter(s[3], w[3]);
      OneLetter(s[4], w[4]);
    }
  }

  lemma OneLetter(c: char, w: char)
    requires 'a' <= w <= 'z'
    ensures Lower(c) == Lower(w) <==> c == w || c as int == w as int - 32
  {
  }

  lemma PopulateStands(scan: Scanner, t: ValueType, field: string, v: Value)
    ensures PopulateValue(scan, t, field) == Some(v) <==> Stands(scan, t, field, v)
  {
    hide SameIgnoringCase, SpellsTrue, SpellsFalse, Base64.Values, Bytes, IsText, AreBytesOf;
    AnyCase(field);
    if t.TBinary? {
      DecodedAreBytes(field);
      if v.Binary? && IsText(field) && AreBytesOf(v.data, field) {
        SameBytes(Bytes(Base64.Values(field).value), v.data, field);
      }
    } else if t.TBool? {
      NotBoth(field);
    }
  }

  lemma NotBoth(s: string)
    ensures !(SpellsTrue(s) && SpellsFalse(s))
  {
  }

  lemma SameBytes(x: seq<byte>, y: seq<byte>, text: string)
    requires IsText(text) && AreBytesOf(x, text) && AreBytesOf(y, text)
    ensures x == y
  {
    hide Numeral64, Numeral256, Letters;
    NumeralDetermines(x, y);
  }

  ghost predicate CanStand(scan: Scanner, t: ValueType, field: string) {
    exists v :: Stands(scan, t, field, v)
  }

  /** The readings are what the fields stand for, one by one. */
  ghost predicate AllStand(scan: Scanner, types: seq<ValueType>, fields: seq<string>, vs: seq<Value>) {
    |vs| == |types| <= |fields| && forall i :: 0 <= i < |types| ==> Stands(scan, types[i], fields[i], vs[i])
  }

  /** Every field there is stands for a value, but there are too few of them. */
  ghost predicate RunsShort(scan: Scanner, types: seq<ValueType>, fields: seq<string>) {
    |fields| < |types| && forall i :: 0 <= i < |fields| ==> CanStand(scan, types[i], fields[i])
  }

  lemma FirstStands(scan: Scanner, t: ValueType, field: string, v: Value)
    ensures PopulateValue(scan, t, field) == Some(v) <==> Stands(scan, t, field, v)
    ensures PopulateValue(scan, t, field).Some? <==> CanStand(scan, t, field)
  {
    PopulateStands(scan, t, field, v);
    if PopulateValue(scan, t, field).Some? {
      PopulateStands(scan, t, field, PopulateValue(scan, t, field).value);
    }
    if w :| Stands(scan, t, field, w) {
      PopulateStands(scan, t, field, w);
    }
    hide PopulateValue, Stands;
  }

  lemma {:induction false} ReadValuesStand(scan: Scanner, types: seq<ValueType>, fields: seq<string>, vs: seq<Value>)
    ensures ReadValues(scan, types, fields) == Got(vs) <==> AllStand(scan, types, fields, vs)
    ensures ReadValues(scan, types, fields).Undefined? <==> RunsShort(scan, types, fields)
    decreases |types|
  {
    hide PopulateValue, Stands, CanStand;
    if types != [] && fields != [] {
      ReadValuesStand(scan, types[1..], fields[1..], if vs == [] then [] else vs[1..]);
      FirstStands(scan, types[0], fields[0], if vs == [] then Text("") else vs[0]);
      if vs != [] {
        assert vs == [vs[0]] + vs[1..];
        assert forall i :: 0 < i < |vs| ==> vs[i] == vs[1..][i - 1];
      }
      assert forall i :: 0 < i < |types| ==> types[i] == types[1..][i - 1];
      assert forall i :: 0 < i < |fields| ==> fields[i] == fields[1..][i - 1];
      OneMoreStands(scan, types, fields, vs);
    }
  }

  lemma OneMoreStands(scan: Scanner, types: seq<ValueType>, fields: seq<string>, vs: seq<Value>)
    requires types != [] && fields != []
    ensures AllStand(scan, types, fields, vs) <==>
      vs != [] && Stands(scan, types[0], fields[0], vs[0]) && AllStand(scan, types[1..], fields[1..], vs[1..])
    ensures RunsShort(scan, types, fields) <==>
      CanStand(scan, types[0], fields[0]) && RunsShort(scan, types[1..], fields[1..])
  {
    hide Stands, CanStand;
    if RunsShort(scan, types[1..], fields[1..]) && CanStand(scan, types[0], fields[0]) {
      forall i | 0 <= i < |fields|
        ensures CanStand(scan, types[i], fields[i])
      {
        assert i > 0 ==> types[i] == types[1..][i - 1] && fields[i] == fields[1..][i - 1];
      }
    }
    if vs != [] && Stands(scan, types[0], fields[0], vs[0]) && AllStand(scan, types[1..], fields[1..], vs[1..]) {
      forall i | 0 <= i < |types|
        ensures Stands(scan, types[i], fields[i], vs[i])
      {
        assert i > 0 ==>
          types[i] == types[1..][i - 1] && fields[i] == fields[1..][i - 1] && vs[i] == vs[1..][i - 1];
      }
    }
  }

  /** What becomes of a reply, field by field: readings, nothing, or a read of a field that is not there. */
  ghost predicate ReadsAs(scan: Scanner, device: string, types: seq<ValueType>, event: Option<Event>, r: ReadResult) {
    match r
    case Got(vs) => event.Some? && event.value.name == device && AllStand(scan, types, event.value.values, vs)
    case Undefined => event.None? || (event.value.name == device && RunsShort(scan, types, event.value.values))
    case Refused =>
      && event.Some?
      && (event.value.name == device ==>
            !RunsShort(scan, types, event.value.values)
            && forall vs :: !AllStand(scan, types, event.value.values, vs))
  }

  /** Exactly one result is right, and it is the one computed. */
  lemma ReplyReadsAs(scan: Scanner, device: string, types: seq<ValueType>, frame: string, r: ReadResult)
    ensures ReadsAs(scan, device, types, TakeEvent(frame), r) <==> r == ReadReply(scan, device, types, frame)
  {
    hide TakeEvent, ReadValues, AllStand, RunsShort;
    var event := TakeEvent(frame);
    if event.Some? {
      var (fields, actual) := (event.value.values, ReadValues(scan, types, event.value.values));
      forall vs
        ensures ReadValues(scan, types, fields) == Got(vs) <==> AllStand(scan, types, fields, vs)
      {
        ReadValuesStand(scan, types, fields, vs);
      }
      ReadValuesStand(scan, types, fields, []);
    }
  }

  /** The loop of user_repget_event_read, filling the caller's readings. */
  method FillReadings(scan: Scanner, device: string, types: seq<ValueType>, frame: string, readings: array<Value>)
    returns (result: ReadResult)
    requires readings.Length == |types|
    modifies readings
    ensures result == ReadReply(scan, device, types, frame)
    ensures result.Got? ==> result.readings == readings[..]
    ensures ReadsAs(scan, device, types, TakeEvent(frame), result)
  {
    ReplyReadsAs(scan, device, types, frame, ReadReply(scan, device, types, frame));
    hide ReadsAs;
    hide TakeEvent, PopulateValue, ReadValues;
    var ev := ReadEvent(frame);
    if ev.None? {
      return Undefined;
    }
    if ev.value.name != device {
      return Refused;
    }
    var values := ev.value.values;
    ghost var all := ReadValues(scan, types, values);
    assert types[0..] == types && values[0..] == values && readings[..0] == [];
    GotNothing(all);
    for i := 0 to |types|
      invariant i <= |values|
      invariant all == GotFirst(readings[..i], ReadValues(scan, types[i..], values[i..]))
    {
      ReadFrom(scan, types, values, i);
      if i == |values| {
        return Undefined;
      }
      var value := PopulateValue(scan, types[i], values[i]);
      if value.None? {
        return Refused;
      }
      GotOneMore(readings[..i], value.value, ReadValues(scan, types[i + 1..], values[i + 1..]));
      readings[i] := value.value;
      assert readings[..i + 1] == readings[..i] + [value.value];
    }
    ReadFrom(scan, types, values, |types|);
    assert readings[..|types|] == readings[..] && readings[..] + [] == readings[..];
    return Got(readings[..]);
  }

  ghost function GotFirst(done: seq<Value>, rest: ReadResult): ReadResult {
    if rest.Got? then Got(done + rest.readings) else rest
  }

  lemma GotNothing(rest: ReadResult)
    ensures GotFirst([], rest) == rest
  {
    if rest.Got? {
      assert [] + rest.readings == rest.readings;
    }
  }

  lemma GotOneMore(done: seq<Value>, v: Value, rest: ReadResult)
    ensures GotFirst(done, if rest.Got? then Got([v] + rest.readings) else rest) == GotFirst(done + [v], rest)
  {
    if rest.Got? {
      assert done + ([v] + rest.readings) == done + [v] + rest.readings;
    }
  }

  // ---- Threads at the queue ----

  /** The countdown of random_get_handler. */
  const POLLS := 5000

  /**
   * One call of random_get_handler: `id` counts the calls started before it, by any thread, and `since` the replies
   * received before it sent its request.
   */
  datatype Request = Request(thread: nat, device: string, types: seq<ValueType>, id: nat, since: nat)

  datatype Call = Call(request: Request, count: nat)

  datatype Returned = Returned(request: Request, readings: Option<seq<Value>>)

  datatype Exit = Dropped(frame: string) | Given(frame: string, to: Returned)

  /**
   * The queue of replies, the calls in progress by thread, what has left the queue, the calls that have returned,
   * every reply received and the number of calls started. `undefined` once a call has read outside a frame.
   */
  datatype State = State(replies: seq<string>, calls: map<nat, Call>, exits: seq<Exit>, returned: seq<Returned>,
                         received: seq<string>, started: nat, undefined: bool)

  /** RX reads a line; a thread enters the handler; a thread goes once around its polling loop, holding the mutex. */
  datatype Action = Receive(command: char, frame: string)
                  | Start(thread: nat, device: string, types: seq<ValueType>)
                  | Poll(thread: nat)

  const CMD_GET := 'b'

  const INITIAL := State([], map[], [], [], [], 0, false)

  function Arrive(s: State, cap: Q.uint16, frame: string): State {
    s.(replies := Q.Pushed(s.replies, cap, frame),
       exits := if Q.Overflows(s.replies, cap) then s.exits + [Dropped(s.replies[0])] else s.exits,
       received := s.received + [frame])
  }

  function Return(s: State, thread: nat, readings: Option<seq<Value>>): State
    requires thread in s.calls
  {
    s.(calls := s.calls - {thread}, returned := s.returned + [Returned(s.calls[thread].request, readings)])
  }

  /** What the call of a thread would make of a reply. */
  function Reads(scan: Scanner, r: Request, frame: string): ReadResult {
    ReadReply(scan, r.device, r.types, frame)
  }

  function PollOnce(scan: Scanner, s: State, thread: nat): State
    requires thread in s.calls
  {
    var call := s.calls[thread];
    if call.count == 0 then Return(s, thread, None)
    else
      var waiting := s.(calls := s.calls[thread := call.(count := call.count - 1)]);
      if s.replies == [] then waiting
      else
        match Reads(scan, call.request, s.replies[0])
        case Undefined => s.(undefined := true)
        case Refused => waiting
        case Got(readings) =>
          Return(s, thread, Some(readings))
            .(replies := s.replies[1..],
              exits := s.exits + [Given(s.replies[0], Returned(call.request, Some(readings)))])
  }

  function Begin(s: State, thread: nat, device: string, types: seq<ValueType>): State {
    var request := Request(thread, device, types, s.started, |s.received|);
    s.(calls := s.calls[thread := Call(request, POLLS)], started := s.started + 1)
  }

  function Next(scan: Scanner, cap: Q.uint16, s: State, a: Action): State {
    if s.undefined then s
    else
      match a
      case Receive(command, frame) => if command == CMD_GET then Arrive(s, cap, frame) else s
      case Start(thread, device, types) => if thread in s.calls then s else Begin(s, thread, device, types)
      case Poll(thread) => if thread in s.calls then PollOnce(scan, s, thread) else s
  }

  function Run(scan: Scanner, cap: Q.uint16, actions: seq<Action>): State {
    if actions == [] then INITIAL
    else Next(scan, cap, Run(scan, cap, actions[..|actions| - 1]), actions[|actions| - 1])
  }

  // ---- Safety over whole runs ----

  function FramesOf(exits: seq<Exit>): (r: seq<string>)
    ensures |r| == |exits|
    ensures forall i :: 0 <= i < |exits| ==> r[i] == exits[i].frame
  {
    seq(|exits|, i requires 0 <= i < |exits| => exits[i].frame)
  }

  /** The calls that were given a reply, in the order of the replies. */
  function Takers(exits: seq<Exit>): seq<Returned> {
    if exits == [] then []
    else
      var last := exits[|exits| - 1];
      Takers(exits[..|exits| - 1]) + (if last.Given? then [last.to] else [])
  }

  /** The calls that returned true, in order. */
  function Successes(returned: seq<Returned>): seq<Returned> {
    if returned == [] then []
    else
      var last := returned[|returned| - 1];
      Successes(returned[..|returned| - 1]) + (if last.readings.Some? then [last] else [])
  }

  ghost predicate Conserved(cap: Q.uint16, s: State) {
    && FramesOf(s.exits) + s.replies == s.received
    && |s.replies| <= Q.Bound(cap)
    && forall i :: 0 <= i < |s.exits| && s.exits[i].Dropped? ==> i + Q.Bound(cap) < |s.received|
  }

  ghost predicate AllProper(scan: Scanner, exits: seq<Exit>) {
    forall i :: 0 <= i < |exits| ==> Proper(scan, exits[i])
  }

  ghost predicate Inv(scan: Scanner, cap: Q.uint16, s: State) {
    && Conserved(cap, s)
    && AllProper(scan, s.exits)
    && Takers(s.exits) == Successes(s.returned)
    && Identified(s)
  }

  /** Calls in progress and calls that have returned are all different, and were started before now. */
  ghost predicate Identified(s: State) {
    && (forall t ::
        t in s.calls ==> s.calls[t].count <= POLLS && s.calls[t].request.thread == t && Known(s, s.calls[t].request))
    && (forall t, u :: t in s.calls && u in s.calls && t != u ==> s.calls[t].request.id != s.calls[u].request.id)
    && (forall i :: 0 <= i < |s.returned| ==> Known(s, s.returned[i].request))
    && (forall i, t :: 0 <= i < |s.returned| && t in s.calls ==> s.returned[i].request.id != s.calls[t].request.id)
    && (forall i, j :: 0 <= i < j < |s.returned| ==> s.returned[i].request.id != s.returned[j].request.id)
    && (forall i :: 0 <= i < |s.exits| && s.exits[i].Given? ==> Known(s, s.exits[i].to.request))
  }

  predicate Known(s: State, r: Request) {
    r.id < s.started && r.since <= |s.received|
  }

  /** A reply was given to a call only if it names the device the call asked, and reads as what the call returned. */
  ghost predicate Proper(scan: Scanner, e: Exit) {
    e.Given? ==>
      && e.to.readings.Some?
      && TakeEvent(e.frame).Some? && TakeEvent(e.frame).value.name == e.to.request.device
      && ReadValues(scan, e.to.request.types, TakeEvent(e.frame).value.values) == Got(e.to.readings.value)
  }

  lemma TakersOneMore(exits: seq<Exit>, e: Exit)
    ensures Takers(exits + [e]) == Takers(exits) + (if e.Given? then [e.to] else [])
  {
    assert (exits + [e])[..|exits|] == exits;
  }

  lemma SuccessesOneMore(returned: seq<Returned>, r: Returned)
    ensures Successes(returned + [r]) == Successes(returned) + (if r.readings.Some? then [r] else [])
  {
    assert (returned + [r])[..|returned|] == returned;
  }

  lemma FrontLeaves(cap: Q.uint16, s: State, e: Exit)
    requires Conserved(cap, s) && s.replies != [] && e.frame == s.replies[0] && e.Given?
    ensures Conserved(cap, s.(replies := s.replies[1..], exits := s.exits + [e]))
  {
    hide FramesOf;
    FramesOneMore(s.exits, e);
    assert s.replies == [s.replies[0]] + s.replies[1..];
  }

  lemma FramesOneMore(exits: seq<Exit>, e: Exit)
    ensures FramesOf(exits + [e]) == FramesOf(exits) + [e.frame]
  {
  }

  lemma ArriveConserves(cap: Q.uint16, s: State, frame: string)
    requires Conserved(cap, s)
    ensures Conserved(cap, Arrive(s, cap, frame))
  {
    hide FramesOf;
    if Q.Overflows(s.replies, cap) {
      FramesOneMore(s.exits, Dropped(s.replies[0]));
      assert s.replies == [s.replies[0]] + s.replies[1..];
    }
  }

  lemma ArriveKeeps(scan: Scanner, cap: Q.uint16, s: State, frame: string)
    requires Inv(scan, cap, s)
    ensures Inv(scan, cap, Arrive(s, cap, frame))
  {
    ArriveConserves(cap, s, frame);
    ArriveKeepsIdentified(s, cap, frame);
    if Q.Overflows(s.replies, cap) {
      var e := Dropped(s.replies[0]);
      TakersOneMore(s.exits, e);
      OneMoreProper(scan, s.exits, e);
    }
    hide Takers, Successes, Conserved, Identified, AllProper, Q.Pushed, Q.Overflows;
  }

  lemma ArriveKeepsIdentified(s: State, cap: Q.uint16, frame: string)
    requires Identified(s)
    ensures Identified(Arrive(s, cap, frame))
  {
    hide Q.Pushed, Q.Overflows;
  }

  lemma OneMoreProper(scan: Scanner, exits: seq<Exit>, e: Exit)
    requires AllProper(scan, exits) && Proper(scan, e)
    ensures AllProper(scan, exits + [e])
  {
    hide Proper;
  }

  /** Only the call of one thread has moved on, and it has not returned. */
  lemma CountsDown(scan: Scanner, cap: Q.uint16, s: State, thread: nat)
    requires Inv(scan, cap, s) && thread in s.calls && s.calls[thread].count > 0
    ensures Inv(scan, cap, s.(calls := s.calls[thread := s.calls[thread].(count := s.calls[thread].count - 1)]))
  {
    hide Takers, Successes, FramesOf, AllProper;
  }

  lemma ReturnKeepsIdentified(s: State, thread: nat, readings: Option<seq<Value>>)
    requires Identified(s) && thread in s.calls
    ensures Identified(Return(s, thread, readings))
  {
    var s' := Return(s, thread, readings);
    assert forall t :: t in s'.calls ==> t in s.calls && t != thread && s'.calls[t] == s.calls[t];
    forall i | 0 <= i < |s'.returned|
      ensures s'.returned[i] == if i < |s.returned| then s.returned[i] else Returned(s.calls[thread].request, readings)
    {
    }
  }

  lemma BeginKeeps(scan: Scanner, cap: Q.uint16, s: State, thread: nat, device: string, types: seq<ValueType>)
    requires Inv(scan, cap, s) && thread !in s.calls
    ensures Inv(scan, cap, Begin(s, thread, device, types))
  {
    hide Takers, Successes, FramesOf, AllProper;
  }

  lemma TimeoutKeeps(scan: Scanner, cap: Q.uint16, s: State, thread: nat)
    requires Inv(scan, cap, s) && thread in s.calls
    ensures Inv(scan, cap, Return(s, thread, None))
  {
    ReturnKeepsIdentified(s, thread, None);
    SuccessesOneMore(s.returned, Returned(s.calls[thread].request, None));
    hide Takers, Successes, FramesOf, AllProper, Identified;
  }

  lemma PollKeeps(scan: Scanner, cap: Q.uint16, s: State, thread: nat)
    requires Inv(scan, cap, s) && thread in s.calls
    ensures Inv(scan, cap, PollOnce(scan, s, thread))
  {
    hide *;
    var call := s.calls[thread];
    PollOnceIs(scan, s, thread);
    if call.count == 0 {
      TimeoutKeeps(scan, cap, s, thread);
    } else if s.replies == [] || Reads(scan, call.request, s.replies[0]).Refused? {
      CountsDown(scan, cap, s, thread);
    } else if Reads(scan, call.request, s.replies[0]).Got? {
      PollTakes(scan, cap, s, thread, Reads(scan, call.request, s.replies[0]).readings);
    } else {
      UndefinedKeeps(scan, cap, s);
    }
  }

  /** The branches of a poll that take no reply. */
  lemma PollOnceIs(scan: Scanner, s: State, thread: nat)
    requires thread in s.calls
    ensures var call := s.calls[thread];
      if call.count == 0 then PollOnce(scan, s, thread) == Return(s, thread, None)
      else if s.replies == [] || Reads(scan, call.request, s.replies[0]).Refused? then
        PollOnce(scan, s, thread) == s.(calls := s.calls[thread := call.(count := call.count - 1)])
      else
        !Reads(scan, call.request, s.replies[0]).Got? ==> PollOnce(scan, s, thread) == s.(undefined := true)
  {
    hide Reads, Return;
  }

  lemma UndefinedKeeps(scan: Scanner, cap: Q.uint16, s: State)
    requires Inv(scan, cap, s)
    ensures Inv(scan, cap, s.(undefined := true))
  {
    hide Takers, Successes, FramesOf, AllProper;
  }

  lemma PollTakes(scan: Scanner, cap: Q.uint16, s: State, thread: nat, readings: seq<Value>)
    requires Inv(scan, cap, s) && thread in s.calls && s.calls[thread].count > 0 && s.replies != []
    requires Reads(scan, s.calls[thread].request, s.replies[0]) == Got(readings)
    ensures Inv(scan, cap, PollOnce(scan, s, thread))
  {
    var r := Returned(s.calls[thread].request, Some(readings));
    var e := Given(s.replies[0], r);
    assert Proper(scan, e) by {
      hide TakeEvent, ReadValues;
    }
    ReturnKeepsIdentified(s, thread, Some(readings));
    SuccessesOneMore(s.returned, r);
    TakersOneMore(s.exits, e);
    FrontLeaves(cap, s, e);
    hide Reads, Takers, Successes, FramesOf, Proper, Conserved, ReadValues, TakeEvent;
    var s1 := Return(s, thread, Some(readings));
    var s' := PollOnce(scan, s, thread);
    assert s' == s1.(replies := s.replies[1..], exits := s.exits + [e]);
    GivenIsIdentified(s1, s', e);
    OneMoreProper(scan, s.exits, e);
    hide Identified, AllProper;
    assert Conserved(cap, s') by {
      SameConserved(cap, s.(replies := s.replies[1..], exits := s.exits + [e]), s');
    }
  }

  lemma GivenIsIdentified(s: State, s': State, e: Exit)
    requires Identified(s) && e.Given? && Known(s, e.to.request)
    requires s'.exits == s.exits + [e] && s' == s.(exits := s'.exits, replies := s'.replies)
    ensures Identified(s')
  {
  }

  lemma SameConserved(cap: Q.uint16, s: State, s': State)
    requires Conserved(cap, s) && s'.exits == s.exits && s'.replies == s.replies && s'.received == s.received
    ensures Conserved(cap, s')
  {
  }

  lemma NextKeeps(scan: Scanner, cap: Q.uint16, s: State, a: Action)
    requires Inv(scan, cap, s)
    ensures Inv(scan, cap, Next(scan, cap, s, a))
  {
    hide Inv, Arrive, Begin, PollOnce;
    if !s.undefined {
      if a.Receive? && a.command == CMD_GET {
        ArriveKeeps(scan, cap, s, a.frame);
      } else if a.Poll? && a.thread in s.calls {
        PollKeeps(scan, cap, s, a.thread);
      } else if a.Start? && a.thread !in s.calls {
        BeginKeeps(scan, cap, s, a.thread, a.device, a.types);
      }
    }
  }

  lemma {:induction false} RunKeeps(scan: Scanner, cap: Q.uint16, actions: seq<Action>)
    ensures Inv(scan, cap, Run(scan, cap, actions))
  {
    if actions != [] {
      RunKeeps(scan, cap, actions[..|actions| - 1]);
      NextKeeps(scan, cap, Run(scan, cap, actions[..|actions| - 1]), actions[|actions| - 1]);
      hide Next, Inv;
    }
  }

  /** Every reply given to a call names the device that call asked and reads as what the call returned. */
  lemma {:induction false} OnlyOwnReplies(scan: Scanner, cap: Q.uint16, actions: seq<Action>)
    ensures var s := Run(scan, cap, actions);
      forall i :: 0 <= i < |s.exits| && s.exits[i].Given? ==>
        var e := s.exits[i];
        && e.to.readings.Some?
        && TakeEvent(e.frame).Some? && TakeEvent(e.frame).value.name == e.to.request.device
        && ReadValues(scan, e.to.request.types, TakeEvent(e.frame).value.values) == Got(e.to.readings.value)
  {
    RunKeeps(scan, cap, actions);
    hide Run, Takers, Successes, Conserved;
  }

  /**
   * Each reply goes to at most one call and each successful call is given exactly one, in the same order; calls
   * differ.
   */
  lemma {:induction false} OneReplyEach(scan: Scanner, cap: Q.uint16, actions: seq<Action>)
    ensures var s := Run(scan, cap, actions);
      && Takers(s.exits) == Successes(s.returned)
      && forall i, j :: 0 <= i < j < |s.returned| ==> s.returned[i].request.id != s.returned[j].request.id
  {
    RunKeeps(scan, cap, actions);
    hide Run, Takers, Successes, Conserved;
  }

  function ReceivedBy(actions: seq<Action>): seq<string> {
    if actions == [] then []
    else
      var last := actions[|actions| - 1];
      ReceivedBy(actions[..|actions| - 1]) + (if last.Receive? && last.command == CMD_GET then [last.frame] else [])
  }

  lemma {:induction false} ReceivedIs(scan: Scanner, cap: Q.uint16, actions: seq<Action>)
    ensures var s := Run(scan, cap, actions); !s.undefined ==> s.received == ReceivedBy(actions)
  {
    if actions != [] {
      ReceivedIs(scan, cap, actions[..|actions| - 1]);
    }
  }

  /**
   * While no call has read outside a frame: replies given or dropped, followed by those still queued, are the replies
   * received, in order.
   */
  lemma {:induction false} RepliesAreConserved(scan: Scanner, cap: Q.uint16, actions: seq<Action>)
    ensures var s := Run(scan, cap, actions);
      !s.undefined ==>
        && FramesOf(s.exits) + s.replies == ReceivedBy(actions) && |s.replies| <= Q.Bound(cap)
        && forall i :: 0 <= i < |s.exits| && s.exits[i].Dropped? ==> i + Q.Bound(cap) < |ReceivedBy(actions)|
  {
    RunKeeps(scan, cap, actions);
    ReceivedIs(scan, cap, actions);
  }

  // ---- When nothing is read outside a frame ----

  /** The frame is one a device could have printed, with a value for each reading of any call to that device. */
  ghost predicate Answers(frame: string, device: string, types: seq<ValueType>) {
    TakeEvent(frame).Some? && (TakeEvent(frame).value.name == device ==> |types| <= |TakeEvent(frame).value.values|)
  }

  ghost predicate AllAnswer(actions: seq<Action>) {
    forall i, j | 0 <= i < |actions| && 0 <= j < |actions| ::
      actions[i].Receive? && actions[i].command == CMD_GET && actions[j].Start? ==>
        Answers(actions[i].frame, actions[j].device, actions[j].types)
  }

  lemma {:induction false} EnoughValues(scan: Scanner, types: seq<ValueType>, values: seq<string>)
    requires |types| <= |values|
    ensures !ReadValues(scan, types, values).Undefined?
    decreases |types|
  {
    if types != [] {
      EnoughValues(scan, types[1..], values[1..]);
    }
  }

  /** Every queued reply was received and every call in progress was started by one of the actions. */
  ghost predicate From(s: State, actions: seq<Action>) {
    && (forall k :: 0 <= k < |s.replies| ==> Receive(CMD_GET, s.replies[k]) in actions)
    && (forall t :: t in s.calls ==> Start(t, s.calls[t].request.device, s.calls[t].request.types) in actions)
  }

  lemma NextFrom(scan: Scanner, cap: Q.uint16, s: State, before: seq<Action>, a: Action)
    requires From(s, before)
    ensures From(Next(scan, cap, s, a), before + [a])
  {
    var s' := Next(scan, cap, s, a);
    assert a in before + [a] && forall b :: b in before ==> b in before + [a];
    hide Reads;
    forall k | 0 <= k < |s'.replies|
      ensures s'.replies[k] in s.replies || (a.Receive? && a.command == CMD_GET && s'.replies[k] == a.frame)
    {
    }
    forall t | t in s'.calls
      ensures Start(t, s'.calls[t].request.device, s'.calls[t].request.types) in before + [a]
    {
      var r := s'.calls[t].request;
      assert (t in s.calls && r == s.calls[t].request) || a == Start(t, r.device, r.types);
    }
  }

  lemma {:induction false} ComesFromActions(scan: Scanner, cap: Q.uint16, actions: seq<Action>)
    ensures From(Run(scan, cap, actions), actions)
  {
    if actions != [] {
      var before, a := actions[..|actions| - 1], actions[|actions| - 1];
      ComesFromActions(scan, cap, before);
      NextFrom(scan, cap, Run(scan, cap, before), before, a);
      assert actions == before + [a];
    }
  }

  /** If every reply has a value for each reading of every call to its device, no call reads outside a frame. */
  lemma {:induction false} NeverUndefined(scan: Scanner, cap: Q.uint16, actions: seq<Action>)
    requires AllAnswer(actions)
    ensures !Run(scan, cap, actions).undefined
  {
    if actions != [] {
      var before, a := actions[..|actions| - 1], actions[|actions| - 1];
      NeverUndefined(scan, cap, before);
      var s := Run(scan, cap, before);
      if a.Poll? && a.thread in s.calls && s.calls[a.thread].count > 0 && s.replies != [] {
        ComesFromActions(scan, cap, before);
        var call := s.calls[a.thread].request;
        var i :| 0 <= i < |before| && before[i] == Receive(CMD_GET, s.replies[0]);
        var j :| 0 <= j < |before| && before[j] == Start(a.thread, call.device, call.types);
        assert actions[i] == before[i] && actions[j] == before[j];
        assert Answers(s.replies[0], call.device, call.types);
        var event := TakeEvent(s.replies[0]).value;
        if event.name == call.device {
          EnoughValues(scan, call.types, event.values);
        }
      }
    }
  }
}
