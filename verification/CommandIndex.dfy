/** The list of commands a device profile builds on first use, and the search that uses it. */
module CommandIndex {
  import opened CString

  /**
   * `property` stands for the value properties of a resource, of which only the type and the access rights are used.
   */
  datatype Resource = Resource(name: string, attributes: seq<(string, string)>, property: nat, valueType: nat,
                               readable: bool, writable: bool)

  datatype Operation = Operation(resource: string, mappings: seq<(string, string)>)

  datatype Command = Command(name: string, get: seq<Operation>, put: seq<Operation>)

  datatype Request = Request(resname: string, attributes: seq<(string, string)>, valueType: nat, property: nat,
                             mappings: seq<(string, string)>)

  /** An edgex_cmdinfo, without its link. */
  datatype Info = Info(name: string, isGet: bool, requests: seq<Request>)

  function Operations(c: Command, forGet: bool): seq<Operation> {
    if forGet then c.get else c.put
  }

  // ---- Direct search of a profile ----

  function FirstResource(list: seq<Resource>, name: string): (r: Option<Resource>)
    ensures r.Some? ==> exists i :: 0 <= i < |list| && list[i] == r.value && r.value.name == name
                                    && forall j :: 0 <= j < i ==> list[j].name != name
    ensures r.None? ==> forall i :: 0 <= i < |list| ==> list[i].name != name
  {
    if list == [] then None
    else
      match FirstResource(list[..|list| - 1], name)
      case Some(r) => Some(r)
      case None => if list[|list| - 1].name == name then Some(list[|list| - 1]) else None
  }

  predicate Usable(r: Resource, forGet: bool) {
    if forGet then r.readable else r.writable
  }

  function FirstUsable(list: seq<Resource>, name: string, forGet: bool): (r: Option<Resource>)
    ensures r.Some? ==> exists i ::
      0 <= i < |list| && list[i] == r.value && r.value.name == name && Usable(r.value, forGet)
                                    && forall j :: 0 <= j < i ==> list[j].name != name || !Usable(list[j], forGet)
    ensures r.None? ==> forall i :: 0 <= i < |list| ==> list[i].name != name || !Usable(list[i], forGet)
  {
    if list == [] then None
    else
      var last := list[|list| - 1];
      match FirstUsable(list[..|list| - 1], name, forGet)
      case Some(r) => Some(r)
      case None => if last.name == name && Usable(last, forGet) then Some(last) else None
  }

  function FirstCommand(cmds: seq<Command>, name: string, forGet: bool): (r: Option<Command>)
    ensures r.Some? ==> exists i :: 0 <= i < |cmds| && cmds[i] == r.value && r.value.name == name
                                    && Operations(r.value, forGet) != []
                                    && forall j ::
                                        0 <= j < i ==> cmds[j].name != name || Operations(cmds[j], forGet) == []
    ensures r.None? ==> forall i :: 0 <= i < |cmds| ==> cmds[i].name != name || Operations(cmds[i], forGet) == []
  {
    if cmds == [] then None
    else
      var last := cmds[|cmds| - 1];
      match FirstCommand(cmds[..|cmds| - 1], name, forGet)
      case Some(c) => Some(c)
      case None => if last.name == name && Operations(last, forGet) != [] then Some(last) else None
  }

  predicate HasCommand(cmds: seq<Command>, name: string) {
    exists i :: 0 <= i < |cmds| && cmds[i].name == name
  }

  // ---- Entries ----

  function RequestFor(r: Resource, mappings: seq<(string, string)>): Request {
    Request(r.name, r.attributes, r.valueType, r.property, mappings)
  }

  /** The requests of a command's operations, in order; None when an operation names no resource, which is undefined. */
  function Requests(resources: seq<Resource>, ops: seq<Operation>): (r: Option<seq<Request>>)
    ensures r.Some? <==> forall k :: 0 <= k < |ops| ==> FirstResource(resources, ops[k].resource).Some?
    ensures r.Some? ==> |r.value| == |ops| && forall k :: 0 <= k < |ops| ==>
      r.value[k] == RequestFor(FirstResource(resources, ops[k].resource).value, ops[k].mappings)
  {
    if forall k :: 0 <= k < |ops| ==> FirstResource(resources, ops[k].resource).Some?
    then Some(seq(|ops|, k requires 0 <= k < |ops| =>
                         RequestFor(FirstResource(resources, ops[k].resource).value, ops[k].mappings)))
    else None
  }

  function InfoForRes(resources: seq<Resource>, c: Command, forGet: bool): Option<Info> {
    match Requests(resources, Operations(c, forGet))
    case None => None
    case Some(requests) => Some(Info(c.name, forGet, requests))
  }

  function InfoForDevRes(r: Resource, forGet: bool): Info {
    Info(r.name, forGet, [RequestFor(r, [])])
  }

  /** The entries of one command: its get operations, then its set operations, where it has any. */
  function EntriesOf(resources: seq<Resource>, c: Command): Option<seq<Info>> {
    var got := if c.get == [] then Some([]) else Single(InfoForRes(resources, c, true));
    var put := if c.put == [] then Some([]) else Single(InfoForRes(resources, c, false));
    if got.None? || put.None? then None else Some(got.value + put.value)
  }

  function Single(info: Option<Info>): Option<seq<Info>> {
    if info.None? then None else Some([info.value])
  }

  function CommandEntries(resources: seq<Resource>, cmds: seq<Command>): Option<seq<Info>> {
    if cmds == [] then Some([])
    else
      var before := CommandEntries(resources, cmds[..|cmds| - 1]);
      var last := EntriesOf(resources, cmds[|cmds| - 1]);
      if before.None? || last.None? then None else Some(before.value + last.value)
  }

  function EntriesOfResource(cmds: seq<Command>, r: Resource): seq<Info> {
    if HasCommand(cmds, r.name) then []
    else
      (if r.readable then [InfoForDevRes(r, true)] else []) + (if r.writable then [InfoForDevRes(r, false)] else [])
  }

  function ResourceEntries(cmds: seq<Command>, resources: seq<Resource>): seq<Info> {
    if resources == [] then []
    else ResourceEntries(cmds, resources[..|resources| - 1]) + EntriesOfResource(cmds, resources[|resources| - 1])
  }

  /** What populateCmdInfo builds. */
  function Index(resources: seq<Resource>, cmds: seq<Command>): Option<seq<Info>> {
    match CommandEntries(resources, cmds)
    case None => None
    case Some(entries) => Some(entries + ResourceEntries(cmds, resources))
  }

  function FirstEntry(infos: seq<Info>, name: string, forGet: bool): (r: Option<Info>)
    ensures r.Some? ==> r.value in infos && r.value.name == name && r.value.isGet == forGet
    ensures r.None? ==> forall i :: 0 <= i < |infos| ==> infos[i].name != name || infos[i].isGet != forGet
  {
    if infos == [] then None
    else if infos[0].name == name && infos[0].isGet == forGet then Some(infos[0])
    else FirstEntry(infos[1..], name, forGet)
  }

  // ---- The search agrees with a direct one ----

  lemma {:induction false} FirstEntryConcat(a: seq<Info>, b: seq<Info>, name: string, forGet: bool)
    ensures FirstEntry(a + b, name, forGet)
         == if FirstEntry(a, name, forGet).Some? then FirstEntry(a, name, forGet) else FirstEntry(b, name, forGet)
  {
    if a == [] {
      assert a + b == b;
    } else {
      FirstEntryConcat(a[1..], b, name, forGet);
      assert (a + b)[1..] == a[1..] + b;
    }
  }

  lemma EntryOfCommand(resources: seq<Resource>, c: Command, name: string, forGet: bool)
    requires EntriesOf(resources, c).Some?
    ensures FirstEntry(EntriesOf(resources, c).value, name, forGet)
         == if c.name == name && Operations(c, forGet) != [] then InfoForRes(resources, c, forGet) else None
  {
    hide Requests;
    var got := if c.get == [] then [] else [InfoForRes(resources, c, true).value];
    var put := if c.put == [] then [] else [InfoForRes(resources, c, false).value];
    assert EntriesOf(resources, c).value == got + put;
    FirstEntryConcat(got, put, name, forGet);
  }

  lemma {:induction false} EntryOfCommands(resources: seq<Resource>, cmds: seq<Command>, name: string, forGet: bool)
    requires CommandEntries(resources, cmds).Some?
    ensures var c := FirstCommand(cmds, name, forGet);
      FirstEntry(CommandEntries(resources, cmds).value, name, forGet)
      == if c.Some? then InfoForRes(resources, c.value, forGet) else None
    ensures FirstCommand(cmds, name, forGet).Some? ==>
      InfoForRes(resources, FirstCommand(cmds, name, forGet).value, forGet).Some?
  {
    if cmds != [] {
      var before, last := cmds[..|cmds| - 1], cmds[|cmds| - 1];
      EntryOfCommands(resources, before, name, forGet);
      EntryOfCommand(resources, last, name, forGet);
      hide EntriesOf, InfoForRes;
      FirstEntryConcat(CommandEntries(resources, before).value, EntriesOf(resources, last).value, name, forGet);
    }
  }

  lemma EntryOfResource(cmds: seq<Command>, r: Resource, name: string, forGet: bool)
    ensures FirstEntry(EntriesOfResource(cmds, r), name, forGet)
         == if r.name == name && Usable(r, forGet) && !HasCommand(cmds, name) then Some(InfoForDevRes(r, forGet))
           else None
  {
    hide HasCommand;
    var got := if r.readable then [InfoForDevRes(r, true)] else [];
    var put := if r.writable then [InfoForDevRes(r, false)] else [];
    FirstEntryConcat(got, put, name, forGet);
  }

  lemma {:induction false} EntryOfResources(cmds: seq<Command>, resources: seq<Resource>, name: string, forGet: bool)
    ensures var r := FirstUsable(resources, name, forGet);
      FirstEntry(ResourceEntries(cmds, resources), name, forGet)
      == if r.Some? && !HasCommand(cmds, name) then Some(InfoForDevRes(r.value, forGet)) else None
  {
    if resources != [] {
      var before, last := resources[..|resources| - 1], resources[|resources| - 1];
      EntryOfResources(cmds, before, name, forGet);
      EntryOfResource(cmds, last, name, forGet);
      hide EntriesOfResource, HasCommand, InfoForDevRes;
      FirstEntryConcat(ResourceEntries(cmds, before), EntriesOfResource(cmds, last), name, forGet);
    }
  }

  /** What a search of the profile itself finds. */
  function DirectSearch(resources: seq<Resource>, cmds: seq<Command>, name: string, forGet: bool): Option<Info> {
    match FirstCommand(cmds, name, forGet)
    case Some(c) => InfoForRes(resources, c, forGet)
    case None =>
      if HasCommand(cmds, name) then None
      else
        match FirstUsable(resources, name, forGet)
        case Some(r) => Some(InfoForDevRes(r, forGet))
        case None => None
  }

  /** What a request carries: everything of its resource, and the mappings of its operation. */
  ghost predicate Carries(q: Request, r: Resource, mappings: seq<(string, string)>) {
    && q.resname == r.name && q.attributes == r.attributes && q.valueType == r.valueType
    && q.property == r.property && q.mappings == mappings
  }

  ghost predicate FirstNamed(resources: seq<Resource>, name: string, i: nat) {
    i < |resources| && resources[i].name == name && forall j :: 0 <= j < i ==> resources[j].name != name
  }

  /** Command `i` is the first of the name with operations in the direction. */
  ghost predicate FirstOffering(cmds: seq<Command>, name: string, forGet: bool, i: nat) {
    && i < |cmds| && cmds[i].name == name && (if forGet then cmds[i].get != [] else cmds[i].put != [])
    && forall j :: 0 <= j < i ==> cmds[j].name != name || (if forGet then cmds[j].get == [] else cmds[j].put == [])
  }

  /** The request is for the first resource the operation names. */
  ghost predicate AsksFor(q: Request, resources: seq<Resource>, op: Operation) {
    exists i: nat :: FirstNamed(resources, op.resource, i) && Carries(q, resources[i], op.mappings)
  }

  /** One request for each operation, in order. */
  ghost predicate RequestsOf(requests: seq<Request>, resources: seq<Resource>, ops: seq<Operation>) {
    |requests| == |ops| && forall k :: 0 <= k < |ops| ==> AsksFor(requests[k], resources, ops[k])
  }

  ghost predicate FirstAllowing(resources: seq<Resource>, name: string, forGet: bool, i: nat) {
    && i < |resources| && resources[i].name == name
    && (if forGet then resources[i].readable else resources[i].writable)
    && forall j :: 0 <= j < i ==>
         resources[j].name != name || (if forGet then !resources[j].readable else !resources[j].writable)
  }

  /**
   * What is found under a name: its first command with operations, or else, with no such command, a resource itself.
   */
  ghost predicate Describes(info: Info, resources: seq<Resource>, cmds: seq<Command>, name: string, forGet: bool) {
    && info.name == name && info.isGet == forGet
    && ((exists i: nat :: FirstOffering(cmds, name, forGet, i)
           && RequestsOf(info.requests, resources, if forGet then cmds[i].get else cmds[i].put))
        || ((forall i :: 0 <= i < |cmds| ==> cmds[i].name != name)
            && exists i: nat :: FirstAllowing(resources, name, forGet, i)
                 && |info.requests| == 1 && Carries(info.requests[0], resources[i], [])))
  }

  lemma FoundDescribes(resources: seq<Resource>, cmds: seq<Command>, name: string, forGet: bool)
    requires DirectSearch(resources, cmds, name, forGet).Some?
    ensures Describes(DirectSearch(resources, cmds, name, forGet).value, resources, cmds, name, forGet)
  {
    hide FirstResource, FirstUsable, FirstCommand;
    var info := DirectSearch(resources, cmds, name, forGet).value;
    match FirstCommand(cmds, name, forGet)
    case Some(c) =>
      RequestsAre(resources, Operations(c, forGet));
      var i: nat :| i < |cmds| && cmds[i] == c && Operations(c, forGet) != []
                    && forall j :: 0 <= j < i ==> cmds[j].name != name || Operations(cmds[j], forGet) == [];
      hide RequestsOf;
      assert FirstOffering(cmds, name, forGet, i);
    case None =>
      var r := FirstUsable(resources, name, forGet).value;
      var i: nat :| i < |resources| && resources[i] == r && Usable(r, forGet)
                    && forall j :: 0 <= j < i ==> resources[j].name != name || !Usable(resources[j], forGet);
      assert FirstAllowing(resources, name, forGet, i) && Carries(info.requests[0], resources[i], []);
  }

  lemma RequestsAre(resources: seq<Resource>, ops: seq<Operation>)
    requires Requests(resources, ops).Some?
    ensures RequestsOf(Requests(resources, ops).value, resources, ops)
  {
    hide FirstResource;
    var requests := Requests(resources, ops).value;
    forall k | 0 <= k < |ops|
      ensures AsksFor(requests[k], resources, ops[k])
    {
      var r := FirstResource(resources, ops[k].resource).value;
      var i: nat :| i < |resources| && resources[i] == r && r.name == ops[k].resource
                    && forall j :: 0 <= j < i ==> resources[j].name != ops[k].resource;
      assert FirstNamed(resources, ops[k].resource, i) && Carries(requests[k], resources[i], ops[k].mappings);
    }
    hide AsksFor, Requests;
  }

  lemma IndexAgreesWithDirectSearch(resources: seq<Resource>, cmds: seq<Command>, name: string, forGet: bool)
    requires Index(resources, cmds).Some?
    ensures FirstEntry(Index(resources, cmds).value, name, forGet) == DirectSearch(resources, cmds, name, forGet)
  {
    EntryOfCommands(resources, cmds, name, forGet);
    EntryOfResources(cmds, resources, name, forGet);
    FirstEntryConcat(CommandEntries(resources, cmds).value, ResourceEntries(cmds, resources), name, forGet);
    hide InfoForRes, InfoForDevRes;
  }

  /**
   * The list is built under a shared lock, so a second thread may search it when only its first `n` entries are
   * linked in. It finds what a direct search finds, or nothing; and nothing exactly when its entry comes later.
   */
  lemma SearchOfPart(resources: seq<Resource>, cmds: seq<Command>, name: string, forGet: bool, n: nat)
    requires Index(resources, cmds).Some? && n <= |Index(resources, cmds).value|
    ensures var (all, found) := (Index(resources, cmds).value, DirectSearch(resources, cmds, name, forGet));
      FirstEntry(all[..n], name, forGet) ==
        if exists i :: 0 <= i < n && all[i].name == name && all[i].isGet == forGet then found else None
  {
    IndexAgreesWithDirectSearch(resources, cmds, name, forGet);
    hide Index, DirectSearch;
    var all := Index(resources, cmds).value;
    assert all == all[..n] + all[n..];
    FirstEntryConcat(all[..n], all[n..], name, forGet);
    if i :| 0 <= i < n && all[i].name == name && all[i].isGet == forGet {
      assert all[..n][i] == all[i];
    }
    var part := FirstEntry(all[..n], name, forGet);
    if part.Some? {
      var i :| 0 <= i < n && all[..n][i] == part.value;
      assert all[i] == part.value;
    }
  }

  /** The index can be built exactly when every operation names a resource of the profile. */
  lemma {:induction false} IndexIsDefined(resources: seq<Resource>, cmds: seq<Command>)
    ensures CommandEntries(resources, cmds).Some? <==>
      forall i, forGet, k | 0 <= i < |cmds| && 0 <= k < |Operations(cmds[i], forGet)| ::
        FirstResource(resources, Operations(cmds[i], forGet)[k].resource).Some?
  {
    if cmds != [] {
      var before, last := cmds[..|cmds| - 1], cmds[|cmds| - 1];
      IndexIsDefined(resources, before);
      hide FirstResource;
      assert EntriesOf(resources, last).Some? <==> forall forGet, k | 0 <= k < |Operations(last, forGet)| ::
        FirstResource(resources, Operations(last, forGet)[k].resource).Some? by {
        assert Operations(last, true) == last.get && Operations(last, false) == last.put;
      }
      hide EntriesOf;
      assert forall i :: 0 <= i < |cmds| - 1 ==> cmds[i] == before[i];
    }
  }

  // ---- The code ----

  method FindDevResource(list: seq<Resource>, name: string) returns (r: Option<Resource>)
    ensures r == FirstResource(list, name)
  {
    var i := 0;
    while i < |list| && list[i].name != name
      invariant i <= |list| && FirstResource(list[..i], name) == None
    {
      assert list[..i + 1][..i] == list[..i];
      i := i + 1;
    }
    if i == |list| {
      assert list[..i] == list;
      return None;
    }
    FirstResourceFound(list, name, i);
    return Some(list[i]);
  }

  lemma {:induction false} FirstResourceFound(list: seq<Resource>, name: string, i: nat)
    requires i < |list| && list[i].name == name && FirstResource(list[..i], name) == None
    ensures FirstResource(list, name) == Some(list[i])
  {
    var n := |list| - 1;
    if i < n {
      assert list[..n][..i] == list[..i];
      FirstResourceFound(list[..n], name, i);
    }
  }

  lemma {:induction false} CommandsUndefined(resources: seq<Resource>, cmds: seq<Command>, i: nat)
    requires i < |cmds| && EntriesOf(resources, cmds[i]) == None
    ensures CommandEntries(resources, cmds) == None
  {
    var n := |cmds| - 1;
    if i < n {
      CommandsUndefined(resources, cmds[..n], i);
    }
  }

  class InfoNode {
    const info: Info
    var next: InfoNode?

    constructor (info: Info)
      ensures this.info == info && next == null
    {
      this.info := info;
      next := null;
    }
  }

  class Profile {
    const resources: seq<Resource>
    const commands: seq<Command>
    var cmdinfo: InfoNode?
    ghost var spine: seq<InfoNode>

    constructor (resources: seq<Resource>, commands: seq<Command>)
      ensures this.resources == resources && this.commands == commands && Valid() && spine == []
    {
      this.resources, this.commands := resources, commands;
      cmdinfo := null;
      spine := [];
    }

    ghost predicate Linked()
      reads this, spine
    {
      && (forall i, j :: 0 <= i < j < |spine| ==> spine[i] != spine[j])
      && (forall i :: 0 <= i < |spine| - 1 ==> spine[i].next == spine[i + 1])
      && (spine == [] ==> cmdinfo == null)
      && (spine != [] ==> cmdinfo == spine[0] && spine[|spine| - 1].next == null)
    }

    ghost function Entries(): (r: seq<Info>)
      reads this
      ensures |r| == |spine|
    {
      seq(|spine|, i requires 0 <= i < |spine| reads this => spine[i].info)
    }

    /** The list is not built yet, or is the index of the profile. */
    ghost predicate Valid()
      reads this, spine
    {
      Linked() && (spine == [] || Index(resources, commands) == Some(Entries()))
    }

    /** `*head = node; head = &node->next`, where a null `last` stands for the profile's own pointer. */
    method Append(last: InfoNode?, node: InfoNode)
      requires Linked() && last == (if spine == [] then null else spine[|spine| - 1])
      requires node !in spine && node.next == null
      modifies this, last
      ensures Linked() && spine == old(spine) + [node] && Entries() == old(Entries()) + [node.info]
    {
      if last == null {
        cmdinfo := node;
      } else {
        last.next := node;
      }
      spine := spine + [node];
    }

    /**
     * infoForRes: a first pass counts the operations, a second fills the requests. Null where a resource is missing.
     */
    method NewInfoForRes(c: Command, forGet: bool) returns (node: InfoNode?)
      ensures node == null <==> InfoForRes(resources, c, forGet) == None
      ensures node != null ==> fresh(node) && node.next == null && Some(node.info) == InfoForRes(resources, c, forGet)
    {
      var ops := Operations(c, forGet);
      hide FirstResource;
      var requests := new Request[|ops|](_ => Request("", [], 0, 0, []));
      var n := 0;
      while n < |ops|
        invariant n <= |ops|
        invariant forall k :: 0 <= k < n ==> FirstResource(resources, ops[k].resource).Some?
        invariant forall k :: 0 <= k < n ==>
          requests[k] == RequestFor(FirstResource(resources, ops[k].resource).value, ops[k].mappings)
      {
        var found := FindDevResource(resources, ops[n].resource);
        if found.None? {
          return null;
        }
        requests[n] := RequestFor(found.value, ops[n].mappings);
        n := n + 1;
      }
      assert Requests(resources, ops).Some? && Requests(resources, ops).value == requests[..];
      node := new InfoNode(Info(c.name, forGet, requests[..]));
    }

    /** infoForDevRes. */
    method NewInfoForDevRes(r: Resource, forGet: bool) returns (node: InfoNode)
      ensures fresh(node) && node.next == null && node.info == InfoForDevRes(r, forGet)
    {
      node := new InfoNode(Info(r.name, forGet, [RequestFor(r, [])]));
    }

    /** The last node, which `head` points into; null while the list is empty. */
    ghost function Last(): InfoNode?
      reads this
    {
      if spine == [] then null else spine[|spine| - 1]
    }

    /** The entry of a command for one direction, if it has operations in that direction. */
    method AddCommand(c: Command, forGet: bool, last: InfoNode?) returns (defined: bool, last': InfoNode?)
      requires Linked() && last == Last()
      modifies this, last
      ensures defined <==> Operations(c, forGet) == [] || InfoForRes(resources, c, forGet).Some?
      ensures defined ==> Linked() && last' == Last()
      ensures defined ==>
        Entries() == old(Entries()) + if Operations(c, forGet) == [] then []
          else [InfoForRes(resources, c, forGet).value]
      ensures forall i :: 0 <= i < |spine| ==> spine[i] in old(spine) || fresh(spine[i])
      ensures last' == last || (last' != null && fresh(last'))
    {
      last' := last;
      if Operations(c, forGet) == [] {
        return true, last';
      }
      hide InfoForRes;
      var node := NewInfoForRes(c, forGet);
      if node == null {
        return false, last';
      }
      Append(last, node);
      return true, node;
    }

    /** The body of the first loop of populateCmdInfo. */
    method AddBoth(c: Command, last: InfoNode?) returns (defined: bool, last': InfoNode?)
      requires Linked() && last == Last()
      modifies this, last
      ensures defined <==> EntriesOf(resources, c).Some?
      ensures defined ==> Linked() && last' == Last() && Entries() == old(Entries()) + EntriesOf(resources, c).value
      ensures forall i :: 0 <= i < |spine| ==> spine[i] in old(spine) || fresh(spine[i])
      ensures last' == last || (last' != null && fresh(last'))
    {
      hide InfoForRes;
      defined, last' := AddCommand(c, true, last);
      if defined {
        defined, last' := AddCommand(c, false, last');
      }
    }

    /** The first loop of populateCmdInfo. */
    method PopulateFromCommands() returns (defined: bool, last: InfoNode?)
      requires Linked() && spine == []
      modifies this
      ensures defined <==> CommandEntries(resources, commands).Some?
      ensures defined ==> Linked() && last == Last() && CommandEntries(resources, commands) == Some(Entries())
      ensures forall i :: 0 <= i < |spine| ==> fresh(spine[i])
    {
      last := null;
      var i := 0;
      hide EntriesOf;
      while i < |commands|
        invariant i <= |commands| && Linked() && last == Last()
        invariant last != null ==> fresh(last)
        invariant CommandEntries(resources, commands[..i]) == Some(Entries())
        invariant forall k :: 0 <= k < |spine| ==> fresh(spine[k])
      {
        assert commands[..i + 1][..i] == commands[..i];
        defined, last := AddBoth(commands[i], last);
        if !defined {
          CommandsUndefined(resources, commands, i);
          return false, last;
        }
        i := i + 1;
      }
      assert commands[..i] == commands;
      return true, last;
    }

    /** The entries of a resource that no command shares its name with. */
    method AddResource(r: Resource, last: InfoNode?) returns (last': InfoNode?)
      requires Linked() && last == Last()
      modifies this, last
      ensures Linked() && last' == Last() && Entries() == old(Entries()) + EntriesOfResource(commands, r)
      ensures forall i :: 0 <= i < |spine| ==> spine[i] in old(spine) || fresh(spine[i])
      ensures last' == last || (last' != null && fresh(last'))
    {
      last' := last;
      var dc := 0;
      while dc < |commands| && commands[dc].name != r.name
        invariant dc <= |commands| && !HasCommand(commands[..dc], r.name)
      {
        dc := dc + 1;
      }
      assert commands[..|commands|] == commands;
      assert dc < |commands| ==> HasCommand(commands, r.name);
      hide HasCommand;
      if dc == |commands| {
        if r.readable {
          var node := NewInfoForDevRes(r, true);
          Append(last', node);
          last' := node;
        }
        if r.writable {
          var node := NewInfoForDevRes(r, false);
          Append(last', node);
          last' := node;
        }
      }
    }

    /** The second loop of populateCmdInfo. */
    method PopulateFromResources(first: InfoNode?)
      requires Linked() && first == Last()
      modifies this, spine
      ensures Linked() && Entries() == old(Entries()) + ResourceEntries(commands, resources)
      ensures forall i :: 0 <= i < |spine| ==> spine[i] in old(spine) || fresh(spine[i])
    {
      var last := first;
      hide EntriesOfResource;
      for i := 0 to |resources|
        invariant Linked() && last == Last()
        invariant last == first || (last != null && fresh(last))
        invariant Entries() == old(Entries()) + ResourceEntries(commands, resources[..i])
        invariant forall k :: 0 <= k < |spine| ==> spine[k] in old(spine) || fresh(spine[k])
      {
        assert resources[..i + 1][..i] == resources[..i];
        last := AddResource(resources[i], last);
      }
      assert resources[..|resources|] == resources;
    }

    method PopulateCmdInfo() returns (defined: bool)
      requires Linked() && spine == []
      modifies this
      ensures defined <==> Index(resources, commands).Some?
      ensures defined ==> Valid() && Index(resources, commands) == Some(Entries())
      ensures forall i :: 0 <= i < |spine| ==> fresh(spine[i])
    {
      var last;
      hide CommandEntries, ResourceEntries;
      defined, last := PopulateFromCommands();
      if defined {
        PopulateFromResources(last);
      }
    }

    /** edgex_deviceprofile_findcommand. */
    method FindCommand(name: string, forGet: bool) returns (defined: bool, result: InfoNode?)
      requires Valid()
      modifies this
      ensures defined <==> old(spine) != [] || Index(resources, commands).Some?
      ensures old(spine) != [] ==> spine == old(spine)
      ensures defined ==> Valid()
      ensures defined ==>
          (if result == null then None else Some(result.info)) == DirectSearch(resources, commands, name, forGet)
      ensures defined && result != null ==> result in spine
      ensures defined && result != null ==> Describes(result.info, resources, commands, name, forGet)
    {
      defined := true;
      if cmdinfo == null {
        defined := PopulateCmdInfo();
        if !defined {
          return false, null;
        }
      }
      IndexAgreesWithDirectSearch(resources, commands, name, forGet);
      if DirectSearch(resources, commands, name, forGet).Some? {
        FoundDescribes(resources, commands, name, forGet);
      }
      hide Index, DirectSearch, Describes;
      result := Search(name, forGet);
    }

    /** The loop of edgex_deviceprofile_findcommand. */
    method Search(name: string, forGet: bool) returns (result: InfoNode?)
      requires Linked()
      ensures (if result == null then None else Some(result.info)) == FirstEntry(Entries(), name, forGet)
      ensures result != null ==> result in spine
    {
      result := cmdinfo;
      ghost var i := 0;
      assert Entries()[0..] == Entries();
      while result != null && (result.info.name != name || result.info.isGet != forGet)
        invariant i <= |spine|
        invariant i < |spine| ==> result == spine[i]
        invariant i == |spine| ==> result == null
        invariant FirstEntry(Entries(), name, forGet) == FirstEntry(Entries()[i..], name, forGet)
        decreases |spine| - i
      {
        assert Entries()[i..][1..] == Entries()[i + 1..];
        result := result.next;
        i := i + 1;
      }
    }
  }
}
