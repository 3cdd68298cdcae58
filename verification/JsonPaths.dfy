/** Dotted names: what get, set and remove do to an object, and the laws that relate them. */
module JsonPaths {
  import opened CString
  import opened JsonValue
  import opened JsonEquals

  // ---- One object ----

  /** json_object_set_value: overwrite in place, or append. */
  function SetField(fields: seq<Field>, name: string, v: Json): seq<Field> {
    var i := IndexOf(fields, name);
    if i < |fields| then fields[i := Field(name, v)] else fields + [Field(name, v)]
  }

  /** json_object_remove: the last member takes the place of the removed one. */
  function RemoveField(fields: seq<Field>, name: string): seq<Field>
    requires HasName(fields, name)
  {
    var i := IndexOf(fields, name);
    fields[i := fields[|fields| - 1]][..|fields| - 1]
  }

  /** The string a name is looked up by: everything before the first dot. */
  function DotPosition(path: string): (d: nat)
    ensures d <= |path| && (d < |path| ==> path[d] == '.')
    ensures '.' !in path[..d]
  {
    if path == "" || path[0] == '.' then 0
    else
      var d := 1 + DotPosition(path[1..]);
      assert path[..d] == [path[0]] + path[1..][..d - 1];
      d
  }

  function Members(v: Option<Json>): seq<Field> {
    if v.Some? && v.value.Obj? then v.value.fields else []
  }

  /** json_object_dotget_value; a missing or non-object intermediate value behaves like an empty object. */
  function DotGet(fields: seq<Field>, path: string): Option<Json>
    decreases |path|
  {
    var d := DotPosition(path);
    if d == |path| then Lookup(fields, path) else DotGet(Members(Lookup(fields, path[..d])), path[d + 1..])
  }

  /** json_object_dotset_value; None is a failure. */
  function DotSet(fields: seq<Field>, path: string, v: Json): Option<seq<Field>>
    decreases |path|
  {
    var d := DotPosition(path);
    if d == |path| then Some(SetField(fields, path, v))
    else
      var found := Lookup(fields, path[..d]);
      if found.Some? && !found.value.Obj? then None
      else
        match DotSet(Members(found), path[d + 1..], v)
        case None => None
        case Some(inner) => Some(SetField(fields, path[..d], Obj(inner)))
  }

  /** json_object_dotremove. */
  function DotRemove(fields: seq<Field>, path: string): Option<seq<Field>>
    decreases |path|
  {
    var d := DotPosition(path);
    if d == |path| then if HasName(fields, path) then Some(RemoveField(fields, path)) else None
    else
      var found := Lookup(fields, path[..d]);
      if found.None? || !found.value.Obj? then None
      else
        match DotRemove(found.value.fields, path[d + 1..])
        case None => None
        case Some(inner) => Some(SetField(fields, path[..d], Obj(inner)))
  }

  // ---- Names of one object ----

  lemma LookupDistinct(fields: seq<Field>, i: nat)
    requires Distinct(fields) && i < |fields|
    ensures Lookup(fields, fields[i].name) == Some(fields[i].value)
  {
    IndexOfDistinct(fields, i);
  }

  lemma LookupAbsent(fields: seq<Field>, name: string)
    requires forall i :: 0 <= i < |fields| ==> fields[i].name != name
    ensures Lookup(fields, name) == None
  {
  }

  lemma SetFieldLaws(fields: seq<Field>, name: string, v: Json, other: string)
    requires Distinct(fields)
    ensures Distinct(SetField(fields, name, v))
    ensures Lookup(SetField(fields, name, v), name) == Some(v)
    ensures other != name ==> Lookup(SetField(fields, name, v), other) == Lookup(fields, other)
  {
    var after := SetField(fields, name, v);
    var i := IndexOf(fields, name);
    assert after[i] == Field(name, v);
    LookupDistinct(after, i);
    if other != name {
      var k := IndexOf(fields, other);
      if k < |fields| {
        assert after[k] == fields[k];
        LookupDistinct(after, k);
        LookupDistinct(fields, k);
      } else {
        LookupAbsent(after, other);
      }
    }
  }

  lemma RemoveFieldLaws(fields: seq<Field>, name: string, other: string)
    requires Distinct(fields) && HasName(fields, name)
    ensures Distinct(RemoveField(fields, name))
    ensures Lookup(RemoveField(fields, name), name) == None
    ensures other != name ==> Lookup(RemoveField(fields, name), other) == Lookup(fields, other)
  {
    var after := RemoveField(fields, name);
    var i, last := IndexOf(fields, name), |fields| - 1;
    assert forall k :: 0 <= k < last ==> after[k] == if k == i then fields[last] else fields[k];
    LookupAbsent(after, name);
    if other != name {
      var k := IndexOf(fields, other);
      if k < |fields| {
        var at := if k == last then i else k;
        assert after[at] == fields[k];
        LookupDistinct(after, at);
        LookupDistinct(fields, k);
      } else {
        LookupAbsent(after, other);
      }
    }
  }

  /** Only the named member goes; the others are kept, whatever their new positions. */
  lemma RemoveFieldKeepsOthers(fields: seq<Field>, name: string)
    requires HasName(fields, name)
    ensures multiset(RemoveField(fields, name)) + multiset{fields[IndexOf(fields, name)]} == multiset(fields)
  {
    SwapWithLast(fields, IndexOf(fields, name));
  }

  lemma SwapWithLast<T>(s: seq<T>, i: nat)
    requires i < |s|
    ensures multiset(s[i := s[|s| - 1]][..|s| - 1]) + multiset{s[i]} == multiset(s)
  {
    var last := |s| - 1;
    var after := s[i := s[last]][..last];
    if i == last {
      assert s == after + [s[last]];
    } else {
      SwapParts(s, i);
      MovedLast(s[..i], s[i], s[i + 1..last], s[last]);
    }
  }

  lemma SwapParts<T>(s: seq<T>, i: nat)
    requires i < |s| - 1
    ensures var (last, front, middle) := (|s| - 1, s[..i], s[i + 1..|s| - 1]);
      && s == front + [s[i]] + middle + [s[last]]
      && s[i := s[last]][..last] == front + [s[last]] + middle
  {
  }

  lemma MovedLast<T>(front: seq<T>, x: T, middle: seq<T>, y: T)
    ensures multiset(front + [y] + middle) + multiset{x} == multiset(front + [x] + middle + [y])
  {
    assert multiset(front + [x] + middle + [y]) == multiset(front) + multiset{x} + multiset(middle) + multiset{y};
  }

  // ---- Paths as lists of components ----

  function Components(path: string): (r: seq<string>)
    ensures r != []
    decreases |path|
  {
    var d := DotPosition(path);
    if d == |path| then [path] else [path[..d]] + Components(path[d + 1..])
  }

  function Dotted(parts: seq<string>): string {
    if parts == [] then "" else if |parts| == 1 then parts[0] else parts[0] + "." + Dotted(parts[1..])
  }

  /** The components of a path are the names without dots that give the path when dots are put between them. */
  lemma ComponentsAre(path: string, parts: seq<string>)
    ensures parts == Components(path) <==> parts != [] && DotFree(parts) && Dotted(parts) == path
  {
    ComponentsGivePath(path);
    if parts != [] && DotFree(parts) && Dotted(parts) == path {
      PathGivesComponents(parts);
    }
  }

  predicate DotFree(parts: seq<string>) {
    forall i :: 0 <= i < |parts| ==> '.' !in parts[i]
  }

  lemma {:induction false} ComponentsGivePath(path: string)
    ensures DotFree(Components(path)) && Dotted(Components(path)) == path
    decreases |path|
  {
    var d := DotPosition(path);
    hide DotPosition;
    if d < |path| {
      ComponentsGivePath(path[d + 1..]);
      assert Components(path)[1..] == Components(path[d + 1..]);
      assert path == path[..d] + "." + path[d + 1..];
    }
  }

  lemma {:induction false} PathGivesComponents(parts: seq<string>)
    requires parts != [] && DotFree(parts)
    ensures Components(Dotted(parts)) == parts
    decreases |parts|
  {
    var path := Dotted(parts);
    hide DotPosition;
    if |parts| > 1 {
      PathGivesComponents(parts[1..]);
      FirstDot(path, parts[0], Dotted(parts[1..]));
      assert parts == [parts[0]] + parts[1..];
    }
  }

  lemma FirstDot(path: string, first: string, rest: string)
    requires path == first + "." + rest && '.' !in first
    ensures DotPosition(path) == |first| && path[..|first|] == first && path[|first| + 1..] == rest
  {
    var d := DotPosition(path);
    assert path[|first|] == '.' && forall i :: 0 <= i < |first| ==> path[i] == first[i];
  }

  /** Neither path is a prefix of the other, component by component. */
  predicate Unrelated(p: seq<string>, q: seq<string>) {
    !(p <= q) && !(q <= p)
  }

  /** Every object inside `v`, at any depth, has distinct names. */
  predicate DistinctNames(v: Json) {
    match v
    case Arr(items) => forall i :: 0 <= i < |items| ==> DistinctNames(items[i])
    case Obj(fields) => Distinct(fields) && forall i :: 0 <= i < |fields| ==> DistinctNames(fields[i].value)
    case _ => true
  }

  lemma MembersDistinct(fields: seq<Field>, name: string)
    requires DistinctNames(Obj(fields))
    ensures Distinct(fields)
    ensures Lookup(fields, name).Some? ==> DistinctNames(Lookup(fields, name).value)
    ensures DistinctNames(Obj(Members(Lookup(fields, name))))
  {
    if Lookup(fields, name).None? {
      assert Members(None) == [];
    }
  }

  lemma SetFieldDistinct(fields: seq<Field>, name: string, v: Json)
    requires DistinctNames(Obj(fields)) && DistinctNames(v)
    ensures DistinctNames(Obj(SetField(fields, name, v)))
  {
    SetFieldLaws(fields, name, v, name);
  }

  lemma {:induction false} SetReads(fields: seq<Field>, path: string, v: Json)
    requires DistinctNames(Obj(fields)) && DistinctNames(v) && DotSet(fields, path, v).Some?
    ensures var after := DotSet(fields, path, v).value; DistinctNames(Obj(after)) && DotGet(after, path) == Some(v)
    decreases |path|
  {
    hide DistinctNames, SetField, RemoveField, IndexOf, Distinct;
    var d := DotPosition(path);
    var name := path[..d];
    assert path[..|path|] == path;
    MembersDistinct(fields, name);
    if d == |path| {
      SetFieldLaws(fields, name, v, name);
      SetFieldDistinct(fields, name, v);
    } else {
      var found := Lookup(fields, name);
      SetReads(Members(found), path[d + 1..], v);
      var inner := DotSet(Members(found), path[d + 1..], v).value;
      SetFieldLaws(fields, name, Obj(inner), name);
      SetFieldDistinct(fields, name, Obj(inner));
    }
  }

  lemma {:induction false} SetKeeps(fields: seq<Field>, path: string, v: Json, other: string)
    requires DistinctNames(Obj(fields)) && DotSet(fields, path, v).Some?
    requires Unrelated(Components(path), Components(other))
    ensures DotGet(DotSet(fields, path, v).value, other) == DotGet(fields, other)
    decreases |path|
  {
    hide DistinctNames, SetField, RemoveField, IndexOf, Distinct;
    var (d, e) := (DotPosition(path), DotPosition(other));
    var (name, otherName) := (path[..d], other[..e]);
    assert path[..|path|] == path && other[..|other|] == other;
    MembersDistinct(fields, name);
    if d == |path| {
      SetFieldLaws(fields, name, v, otherName);
    } else {
      var found := Lookup(fields, name);
      var inner := DotSet(Members(found), path[d + 1..], v).value;
      SetFieldLaws(fields, name, Obj(inner), otherName);
      if name == otherName && e < |other| {
        UnrelatedTails(name, Components(path[d + 1..]), Components(other[e + 1..]));
        SetKeeps(Members(found), path[d + 1..], v, other[e + 1..]);
      }
    }
  }

  /** After a successful set: the path reads the value, names stay distinct, and unrelated paths read as before. */
  lemma SetThenGet(fields: seq<Field>, path: string, v: Json, other: string)
    requires DistinctNames(Obj(fields)) && DistinctNames(v) && DotSet(fields, path, v).Some?
    ensures var after := DotSet(fields, path, v).value;
      && DistinctNames(Obj(after))
      && DotGet(after, path) == Some(v)
      && (Unrelated(Components(path), Components(other)) ==> DotGet(after, other) == DotGet(fields, other))
  {
    SetReads(fields, path, v);
    hide *;
    if Unrelated(Components(path), Components(other)) {
      SetKeeps(fields, path, v, other);
    }
  }

  lemma UnrelatedTails(name: string, p: seq<string>, q: seq<string>)
    ensures Unrelated([name] + p, [name] + q) ==> Unrelated(p, q)
  {
    if p <= q {
      assert [name] + p <= [name] + q;
    }
    if q <= p {
      assert [name] + q <= [name] + p;
    }
  }

  // ---- Exactly when a set or a remove succeeds ----

  /** Following a list of components down from an object. */
  function Reads(fields: seq<Field>, components: seq<string>): Option<Json>
    requires components != []
    decreases components
  {
    if |components| == 1 then Lookup(fields, components[0])
    else Reads(Members(Lookup(fields, components[0])), components[1..])
  }

  lemma {:induction false} DotGetReads(fields: seq<Field>, path: string)
    ensures DotGet(fields, path) == Reads(fields, Components(path))
    decreases |path|
  {
    var d := DotPosition(path);
    if d < |path| {
      DotGetReads(Members(Lookup(fields, path[..d])), path[d + 1..]);
      assert Components(path)[1..] == Components(path[d + 1..]);
    }
  }

  /** Some proper prefix of the path names a value that is not an object. */
  ghost predicate Blocked(fields: seq<Field>, components: seq<string>) {
    exists k :: 0 < k < |components| && Reads(fields, components[..k]).Some?
      && !Reads(fields, components[..k]).value.Obj?
  }

  lemma BlockedStep(fields: seq<Field>, name: string, rest: seq<string>)
    requires rest != []
    ensures Blocked(fields, [name] + rest)
      <==> (Lookup(fields, name).Some? && !Lookup(fields, name).value.Obj?)
           || Blocked(Members(Lookup(fields, name)), rest)
  {
    var all := [name] + rest;
    var inner := Members(Lookup(fields, name));
    assert all[..1] == [name];
    forall k | 1 < k < |all|
      ensures Reads(fields, all[..k]) == Reads(inner, rest[..k - 1])
    {
      assert all[..k][1..] == rest[..k - 1];
    }
    if Blocked(inner, rest) {
      var k :| 0 < k < |rest| && Reads(inner, rest[..k]).Some? && !Reads(inner, rest[..k]).value.Obj?;
      assert Reads(fields, all[..k + 1]) == Reads(inner, rest[..k]);
    }
    if Lookup(fields, name).Some? && !Lookup(fields, name).value.Obj? {
      assert Reads(fields, all[..1]) == Lookup(fields, name);
    }
  }

  /** A set fails exactly when a value that is not an object stands in its way. */
  lemma {:induction false} SetFailsIffBlocked(fields: seq<Field>, path: string, v: Json)
    ensures DotSet(fields, path, v).None? <==> Blocked(fields, Components(path))
    decreases |path|
  {
    var d := DotPosition(path);
    if d < |path| {
      var inner := Members(Lookup(fields, path[..d]));
      BlockedStep(fields, path[..d], Components(path[d + 1..]));
      SetFailsIffBlocked(inner, path[d + 1..], v);
      if Lookup(fields, path[..d]).Some? && !Lookup(fields, path[..d]).value.Obj? {
        assert inner == [];
      }
    }
  }

  lemma ReadsStep(fields: seq<Field>, name: string, rest: seq<string>)
    requires rest != []
    ensures Reads(fields, [name] + rest) == Reads(Members(Lookup(fields, name)), rest)
  {
    assert ([name] + rest)[1..] == rest;
  }

  /** What a longer path reads after a set is read inside the value that was set. */
  lemma {:induction false} SetThenGetInside(fields: seq<Field>, path: string, v: Json, rest: seq<string>)
    requires DistinctNames(Obj(fields)) && rest != [] && DotSet(fields, path, v).Some?
    ensures Reads(DotSet(fields, path, v).value, Components(path) + rest) == Reads(Members(Some(v)), rest)
    decreases |path|
  {
    hide DistinctNames, SetField, IndexOf, Distinct, Reads;
    var d := DotPosition(path);
    var (name, after) := (path[..d], DotSet(fields, path, v).value);
    MembersDistinct(fields, name);
    if d == |path| {
      assert name == path;
      SetFieldLaws(fields, name, v, name);
      ReadsStep(after, name, rest);
    } else {
      var tail := Components(path[d + 1..]);
      var inner := DotSet(Members(Lookup(fields, name)), path[d + 1..], v).value;
      SetFieldLaws(fields, name, Obj(inner), name);
      SetThenGetInside(Members(Lookup(fields, name)), path[d + 1..], v, rest);
      assert Components(path) + rest == [name] + (tail + rest);
      ReadsStep(after, name, tail + rest);
    }
  }

  /** A remove succeeds exactly when the path reads a value. */
  lemma {:induction false} RemoveSucceedsIffPresent(fields: seq<Field>, path: string)
    ensures DotRemove(fields, path).Some? <==> DotGet(fields, path).Some?
    decreases |path|
  {
    hide *;
    var d := DotPosition(path);
    GetStep(fields, path);
    RemoveStep(fields, path);
    if d < |path| {
      var found := Lookup(fields, path[..d]);
      RemoveSucceedsIffPresent(Members(found), path[d + 1..]);
      NothingInside(found, path[d + 1..]);
    }
  }

  /** One component of a get. */
  lemma GetStep(fields: seq<Field>, path: string)
    ensures var d := DotPosition(path);
      DotGet(fields, path)
      == if d == |path| then Lookup(fields, path) else DotGet(Members(Lookup(fields, path[..d])), path[d + 1..])
  {
    hide Lookup, DotPosition, Members;
  }

  /** One component of a remove. */
  lemma RemoveStep(fields: seq<Field>, path: string)
    ensures var d := DotPosition(path);
      DotRemove(fields, path).Some? <==>
        if d == |path| then Lookup(fields, path).Some?
        else
          var inner := Members(Lookup(fields, path[..d]));
          inner != [] && DotRemove(inner, path[d + 1..]).Some?
  {
    hide SetField, RemoveField, IndexOf, HasName, Lookup, DotPosition;
    var d := DotPosition(path);
    if d < |path| {
      NothingToRemove(path[d + 1..]);
    }
  }

  lemma {:induction false} NothingToRemove(path: string)
    ensures DotRemove([], path).None?
  {
    hide SetField, RemoveField;
  }

  /** After a successful remove the path is absent, names stay distinct, and unrelated paths read as before. */
  lemma {:induction false} RemoveThenGet(fields: seq<Field>, path: string, other: string)
    requires DistinctNames(Obj(fields)) && DotRemove(fields, path).Some?
    ensures var after := DotRemove(fields, path).value;
      && DistinctNames(Obj(after))
      && DotGet(after, path) == None
      && (Unrelated(Components(path), Components(other)) ==> DotGet(after, other) == DotGet(fields, other))
    decreases |path|
  {
    hide DistinctNames, SetField, RemoveField, IndexOf, Distinct, HasName, DotPosition;
    var (d, e) := (DotPosition(path), DotPosition(other));
    var (name, otherName) := (path[..d], other[..e]);
    assert path[..|path|] == path && other[..|other|] == other;
    MembersDistinct(fields, name);
    if d == |path| {
      RemoveFieldLaws(fields, path, otherName);
      RemoveFieldDistinct(fields, path);
    } else {
      var found := Lookup(fields, name).value.fields;
      var inner := DotRemove(found, path[d + 1..]).value;
      var otherRest := if e < |other| then other[e + 1..] else "";
      RemoveThenGet(found, path[d + 1..], otherRest);
      SetFieldLaws(fields, name, Obj(inner), otherName);
      SetFieldLaws(fields, name, Obj(inner), name);
      SetFieldDistinct(fields, name, Obj(inner));
      if name == otherName && e < |other| {
        UnrelatedTails(name, Components(path[d + 1..]), Components(otherRest));
      }
    }
  }

  lemma NothingInside(v: Option<Json>, path: string)
    ensures Members(v) == [] ==> DotGet(Members(v), path) == None
    decreases |path|
  {
    var d := DotPosition(path);
    if Members(v) == [] && d < |path| {
      NothingInside(None, path[d + 1..]);
    }
  }

  lemma RemoveFieldDistinct(fields: seq<Field>, name: string)
    requires DistinctNames(Obj(fields)) && HasName(fields, name)
    ensures DistinctNames(Obj(RemoveField(fields, name)))
  {
    RemoveFieldLaws(fields, name, name);
    var after := RemoveField(fields, name);
    forall k | 0 <= k < |after|
      ensures DistinctNames(after[k].value)
    {
      assert after[k] == fields[k] || after[k] == fields[|fields| - 1];
    }
  }

  lemma AppendThenRemove(fields: seq<Field>, name: string, v: Json)
    requires Distinct(fields) && !HasName(fields, name)
    ensures HasName(SetField(fields, name, v), name) && RemoveField(SetField(fields, name, v), name) == fields
  {
    var after := fields + [Field(name, v)];
    assert after[|fields|].name == name;
    SetFieldLaws(fields, name, v, name);
    IndexOfDistinct(after, |fields|);
  }

  lemma OverwriteBack(fields: seq<Field>, name: string, v: Json)
    requires Distinct(fields) && HasName(fields, name)
    ensures SetField(SetField(fields, name, v), name, Lookup(fields, name).value) == fields
  {
    SetFieldLaws(fields, name, v, name);
    IndexOfDistinct(SetField(fields, name, v), IndexOf(fields, name));
  }

  /** All proper prefixes of the path name objects. */
  ghost predicate Open(fields: seq<Field>, components: seq<string>) {
    forall k :: 0 < k < |components|
      ==> Reads(fields, components[..k]).Some? && Reads(fields, components[..k]).value.Obj?
  }

  lemma OpenStep(fields: seq<Field>, name: string, rest: seq<string>)
    requires rest != [] && Open(fields, [name] + rest)
    ensures Lookup(fields, name).Some? && Lookup(fields, name).value.Obj?
    ensures Open(Lookup(fields, name).value.fields, rest)
  {
    var all := [name] + rest;
    assert all[..1] == [name];
    assert Reads(fields, all[..1]) == Lookup(fields, name);
    forall k | 0 < k < |rest|
      ensures Reads(fields, all[..k + 1]) == Reads(Members(Lookup(fields, name)), rest[..k])
    {
      assert all[..k + 1] == [name] + rest[..k];
      ReadsStep(fields, name, rest[..k]);
    }
  }

  /** Removing a member that was just added to an existing object restores the object, order included. */
  lemma {:induction false} RemoveUndoesSet(fields: seq<Field>, path: string, v: Json)
    requires DistinctNames(Obj(fields)) && DotGet(fields, path).None? && Open(fields, Components(path))
    ensures DotSet(fields, path, v).Some? && DotRemove(DotSet(fields, path, v).value, path) == Some(fields)
    decreases |path|
  {
    hide *;
    var d := DotPosition(path);
    var name := path[..d];
    MembersDistinct(fields, name);
    GetStep(fields, path);
    if d == |path| {
      AddAndRemove(fields, path, v);
    } else {
      PathOpens(fields, path);
      RemoveUndoesSet(Lookup(fields, name).value.fields, path[d + 1..], v);
      RemoveUndoesSetInside(fields, path, v);
    }
  }

  /** The last component: the name is absent. */
  lemma AddAndRemove(fields: seq<Field>, path: string, v: Json)
    requires Distinct(fields) && DotPosition(path) == |path| && Lookup(fields, path).None?
    ensures DotSet(fields, path, v).Some? && DotRemove(DotSet(fields, path, v).value, path) == Some(fields)
  {
    hide SetField, RemoveField, Distinct, HasName;
    AppendThenRemove(fields, path, v);
  }

  lemma PathOpens(fields: seq<Field>, path: string)
    requires DotPosition(path) < |path| && Open(fields, Components(path))
    requires DistinctNames(Obj(fields))
    ensures var (d, found) := (DotPosition(path), Lookup(fields, path[..DotPosition(path)]));
      && found.Some? && found.value.Obj? && Members(found) == found.value.fields
      && Open(found.value.fields, Components(path[d + 1..])) && DistinctNames(Obj(found.value.fields))
  {
    hide *;
    var d := DotPosition(path);
    ComponentsStep(path);
    OpenStep(fields, path[..d], Components(path[d + 1..]));
    MembersDistinct(fields, path[..d]);
    MembersOfObject(Lookup(fields, path[..d]));
  }

  lemma ComponentsStep(path: string)
    requires DotPosition(path) < |path|
    ensures var d := DotPosition(path);
      Components(path) == [path[..d]] + Components(path[d + 1..]) && Components(path[d + 1..]) != []
  {
    hide DotPosition;
  }

  lemma MembersOfObject(v: Option<Json>)
    requires v.Some? && v.value.Obj?
    ensures v.value == Obj(v.value.fields) && Members(v) == v.value.fields
  {
  }

  /** One component further up. */
  lemma RemoveUndoesSetInside(fields: seq<Field>, path: string, v: Json)
    requires Distinct(fields) && DotPosition(path) < |path|
    requires var found := Lookup(fields, path[..DotPosition(path)]); found.Some? && found.value.Obj?
    requires var (inner, rest) :=
        (Lookup(fields, path[..DotPosition(path)]).value.fields, path[DotPosition(path) + 1..]);
      DotSet(inner, rest, v).Some? && DotRemove(DotSet(inner, rest, v).value, rest) == Some(inner)
    ensures DotSet(fields, path, v).Some? && DotRemove(DotSet(fields, path, v).value, path) == Some(fields)
  {
    hide SetField, Distinct, IndexOf, DotPosition, HasName, Lookup;
    var d := DotPosition(path);
    var (name, rest) := (path[..d], path[d + 1..]);
    var changed := Obj(DotSet(Lookup(fields, name).value.fields, rest, v).value);
    SetFieldLaws(fields, name, changed, name);
    OverwriteBack(fields, name, changed);
  }
}
