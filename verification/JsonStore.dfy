/** Values as heap nodes with parent links, changed in place through dotted names. */
module JsonStore {
  import opened CString
  import opened JsonValue
  import opened JsonEquals
  import opened JsonPaths

  datatype Kind = Scalar | ArrayKind | ObjectKind

  /** A JSON_Value together with the JSON_Object or JSON_Array it wraps. */
  class Node {
    var parent: Node?
    var kind: Kind
    var scalar: Json           // the payload of a value without children
    var names: seq<string>     // of an object, in the order of its values
    var kids: seq<Node>
    ghost var tree: Json       // the value this node stands for
    ghost var Repr: set<Node>

    ghost predicate Valid()
      reads this, Repr
      ensures Valid() ==> this in Repr
      decreases Repr
    {
      && this in Repr
      && (forall k :: 0 <= k < |kids| ==>
            kids[k] in Repr && kids[k].Repr <= Repr && this !in kids[k].Repr && kids[k].parent == this
              && kids[k].Valid())
      && (forall j, k :: 0 <= j < k < |kids| ==> kids[j].Repr !! kids[k].Repr)
      && Repr == {this} + Union(kids)
      && Shape()
    }

    /** The ghost value agrees with the fields of this node and the values of its children. */
    ghost predicate Shape()
      reads this, kids
    {
      ShapeIs(tree)
    }

    ghost predicate ShapeIs(t: Json)
      reads this, kids
    {
      match kind
      case Scalar => kids == [] && t == scalar && !t.Arr? && !t.Obj?
      case ArrayKind => t.Arr? && |t.items| == |kids| && forall k :: 0 <= k < |kids| ==> t.items[k] == kids[k].tree
      case ObjectKind =>
        && t.Obj? && |t.fields| == |kids| == |names| && Distinct(t.fields)
        && forall k :: 0 <= k < |kids| ==> t.fields[k] == Field(names[k], kids[k].tree)
    }

    /** The links between this node and its children are right, and so are the children. */
    ghost predicate Linked()
      reads this`kids, kids, set k, x | 0 <= k < |kids| && x in kids[k].Repr :: x
    {
      && (forall k :: 0 <= k < |kids| ==> this !in kids[k].Repr && kids[k].parent == this && kids[k].Valid())
      && (forall j, k :: 0 <= j < k < |kids| ==> kids[j].Repr !! kids[k].Repr)
    }

    /**
     * Bookkeeping after a change: when the links to the children are right, the ghost value and the footprint follow.
     */
    ghost method Rebuild(t: Json)
      requires Linked() && ShapeIs(t)
      modifies this`tree, this`Repr
      ensures Valid() && tree == t && Repr == {this} + Union(kids) && Linked()
    {
      UnionWithin(kids, Union(kids));
      hide Union, Distinct;
      tree := t;
      Repr := {this} + Union(kids);
    }

    ghost function Reprs(): (r: seq<set<Node>>)
      reads this, kids
      ensures |r| == |kids| && forall k :: 0 <= k < |kids| ==> r[k] == kids[k].Repr
    {
      seq(|kids|, k requires 0 <= k < |kids| reads this, kids => kids[k].Repr)
    }

    /** The children but one are right: their footprints are as given and their values those in `t`. */
    ghost predicate Others(i: nat, reprs: seq<set<Node>>, t: Json)
      reads this, kids, set k, x | 0 <= k < |kids| && x in kids[k].Repr :: x
    {
      && kind == ObjectKind && t.Obj? && |reprs| == |kids| == |names| == |t.fields|
      && (forall k :: 0 <= k < |kids| && k != i ==>
            && kids[k].Valid() && kids[k].parent == this && this !in reprs[k]
            && kids[k].Repr == reprs[k] && t.fields[k] == Field(names[k], kids[k].tree))
      && (forall j, k :: 0 <= j < k < |kids| && j != i && k != i ==> reprs[j] !! reprs[k])
    }

    /** Bookkeeping after a change inside child `i`. */
    ghost method Adopt(i: nat, reprs: seq<set<Node>>, t: Json)
      requires Others(i, reprs, t) && i < |kids| && t.fields[i] == Field(names[i], kids[i].tree) && Distinct(t.fields)
      requires kids[i].Valid() && kids[i].parent == this && this !in kids[i].Repr
      requires forall k :: 0 <= k < |kids| && k != i ==> kids[i].Repr !! reprs[k]
      modifies this`tree, this`Repr
      ensures Valid() && tree == t && Repr == {this} + Union(kids) && Linked()
    {
      hide Distinct, Union;
      Rebuild(t);
    }

    constructor Leaf(v: Json)
      requires !v.Arr? && !v.Obj?
      ensures Valid() && fresh(Repr) && tree == v && parent == null
    {
      parent, kind, scalar, names, kids := null, Scalar, v, [], [];
      tree, Repr := v, {this};
    }

    constructor Object()
      ensures Valid() && fresh(Repr) && kind == ObjectKind && tree == Obj([]) && parent == null
    {
      parent, kind, scalar, names, kids := null, ObjectKind, Null, [], [];
      tree, Repr := Obj([]), {this};
    }

    constructor Array()
      ensures Valid() && fresh(Repr) && kind == ArrayKind && tree == Arr([]) && parent == null
    {
      parent, kind, scalar, names, kids := null, ArrayKind, Null, [], [];
      tree, Repr := Arr([]), {this};
    }

    /** The search of json_object_getn_value: the index of a name, or the count. */
    method FindName(name: string) returns (i: nat)
      requires Valid() && kind == ObjectKind
      ensures i == IndexOf(tree.fields, name)
    {
      hide Union;
      i := 0;
      while i < |names|
        invariant i <= |names|
        invariant forall k :: 0 <= k < i ==> names[k] != name
      {
        if names[i] == name {
          break;
        }
        i := i + 1;
      }
      IndexOfIsFirst(tree.fields, name, i);
    }

    /** json_object_dotget_value. */
    method DotGetValue(path: string) returns (r: Node?)
      requires Valid() && kind == ObjectKind
      ensures r == null <==> DotGet(tree.fields, path).None?
      ensures r != null ==> r in Repr && r.Valid() && DotGet(tree.fields, path) == Some(r.tree)
      decreases |path|
    {
      var d := DotPosition(path);
      assert path[..|path|] == path;
      var i := FindName(path[..d]);
      if i == |names| {
        NothingInside(None, path);
        AbsentGetsNothing(tree.fields, path);
        return null;
      }
      if d == |path| {
        return kids[i];
      }
      if kids[i].kind != ObjectKind {
        NothingInside(Some(kids[i].tree), path[d + 1..]);
        return null;
      }
      r := kids[i].DotGetValue(path[d + 1..]);
    }

    method SetParent(p: Node)
      requires Valid()
      modifies this`parent
      ensures Valid() && parent == p
    {
      hide Union;
      parent := p;
    }

    /** Store a value without a parent at index `i` or behind the last, and set its parent link. */
    method Attach(i: nat, value: Node)
      requires Valid() && i <= |kids| && value.Valid() && value.parent == null
      modifies this`kids, value`parent
      ensures value.parent == this && kids == if i == |old(kids)| then old(kids) + [value] else old(kids)[i := value]
      ensures this !in value.Repr ==> Linked() && value.Valid()
    {
      hide Union, Node.Shape, Node.ShapeIs;
      var all := if i == |kids| then kids + [value] else kids[i := value];
      if this !in value.Repr {
        AttachedApart(this, i, value, all);
      }
      value.SetParent(this);
      kids := all;
    }

    /**
     * The overwriting branch of json_object_set_value. A value with this object below it closes a cycle, which is
     * given as a result; any other is linked in.
     */
    method Overwrite(i: nat, value: Node) returns (ghost cycle: seq<Node>)
      requires Valid() && kind == ObjectKind && i < |kids| && value.Valid() && value.parent == null
      modifies this, value`parent
      ensures value.parent == this
      ensures this in old(value.Repr) ==> IsCycle(cycle, value)
      ensures this !in old(value.Repr) ==>
        && Valid() && value.Valid() && kind == ObjectKind && parent == old(parent)
        && value.tree == old(value.tree) && value.Repr == old(value.Repr)
        && tree == Obj(old(tree.fields)[i := Field(old(names[i]), value.tree)])
        && value.Repr <= Repr <= old(Repr) + value.Repr
    {
      hide Union, Distinct;
      ghost var below := this in value.Repr;
      ghost var down := [];
      if below {
        down := WayDown(value, this);
      }
      StillDistinct(tree.fields, i, value.tree);
      Attach(i, value);
      hide Node.Linked;
      assert kids[i] == value;
      cycle := down + [value];
      if below {
        Closes(down, value);
      } else {
        Rebuild(Obj(tree.fields[i := Field(names[i], value.tree)]));
        UnionWithin(kids, old(Repr) + value.Repr);
      }
    }

    /** json_object_addn, for a name that is not there yet. */
    method Append(name: string, value: Node) returns (ghost cycle: seq<Node>)
      requires Valid() && kind == ObjectKind && value.Valid() && value.parent == null
      requires !HasName(tree.fields, name)
      modifies this, value`parent
      ensures value.parent == this && kids == old(kids) + [value]
      ensures this in old(value.Repr) ==> IsCycle(cycle, value)
      ensures this !in old(value.Repr) ==>
        && Valid() && value.Valid() && kind == ObjectKind && parent == old(parent)
        && value.tree == old(value.tree) && value.Repr == old(value.Repr)
        && tree == Obj(old(tree.fields) + [Field(name, value.tree)]) && Repr == old(Repr) + value.Repr
    {
      hide Union, Distinct;
      ghost var below := this in value.Repr;
      ghost var down := [];
      if below {
        down := WayDown(value, this);
      }
      StillDistinctWith(tree.fields, Field(name, value.tree));
      Attach(|kids|, value);
      names := names + [name];
      hide Node.Linked;
      cycle := down + [value];
      if below {
        Closes(down, value);
      } else {
        Rebuild(Obj(tree.fields + [Field(name, value.tree)]));
        UnionOfMore(old(kids), value);
      }
    }

    /**
     * json_object_set_value: a value that already has a parent is refused. The test lets one value through that it
     * should not: the root of the tree this object is in.
     */
    method SetValue(name: string, value: Node) returns (ok: bool, ghost cycle: seq<Node>)
      requires Valid() && kind == ObjectKind && value.Valid()
      modifies (if value.parent == null then {this} else {}), (if value.parent == null then {value} else {})`parent
      ensures ok <==> old(value.parent) == null
      ensures ok ==> value.parent == this
      ensures ok && this in old(value.Repr) ==> IsCycle(cycle, value)
      ensures ok && this !in old(value.Repr) ==>
        && Valid() && value.Valid() && kind == ObjectKind && parent == old(parent)
        && value.tree == old(value.tree) && value.Repr == old(value.Repr)
        && tree == Obj(SetField(old(tree.fields), name, value.tree)) && value.Repr <= Repr <= old(Repr) + value.Repr
    {
      if value.parent != null {
        return false, [];
      }
      var i := FindName(name);
      if i < |names| {
        cycle := Overwrite(i, value);
      } else {
        assert !HasName(tree.fields, name);
        cycle := Append(name, value);
      }
      return true, cycle;
    }

    /** json_object_remove: the last member moves into the freed slot. */
    method RemoveValue(name: string) returns (ok: bool)
      requires Valid() && kind == ObjectKind
      modifies if HasName(tree.fields, name) then {this} else {}
      ensures ok <==> HasName(old(tree.fields), name)
      ensures Valid() && kind == ObjectKind && parent == old(parent) && Repr <= old(Repr)
      ensures ok ==> tree == Obj(RemoveField(old(tree.fields), name))
    {
      hide Union;
      var i := FindName(name);
      if i == |names| {
        return false;
      }
      RemoveFieldLaws(tree.fields, name, name);
      SwapOut(i, RemoveField(tree.fields, name));
      return true;
    }

    /** The loop body of json_object_remove_internal. */
    method SwapOut(i: nat, ghost fields: seq<Field>)
      requires Valid() && kind == ObjectKind && i < |names| && |fields| == |names| - 1 && Distinct(fields)
      requires forall k :: 0 <= k < |fields| ==> fields[k] == tree.fields[if k == i then |fields| else k]
      modifies this
      ensures Valid() && kind == ObjectKind && parent == old(parent) && Repr <= old(Repr) && tree == Obj(fields)
    {
      hide Distinct, Union;
      var last := |names| - 1;
      names, kids := names[i := names[last]][..last], kids[i := kids[last]][..last];
      assert forall k :: 0 <= k < last ==> kids[k] == old(kids)[if k == i then last else k];
      Rebuild(Obj(fields));
      UnionWithin(kids, old(Repr));
    }

    /** The set at a path succeeds. */
    ghost predicate Settable(fields: seq<Field>, path: string, value: Node)
      reads value
    {
      value.parent == null && DotSet(fields, path, value.tree).Some?
    }

    /**
     * json_object_dotset_value. A failure changes nothing at all; as with json_object_set_value, the root above this
     * object closes a cycle.
     */
    method DotSetValue(path: string, value: Node) returns (ok: bool, ghost cycle: seq<Node>)
      requires Valid() && kind == ObjectKind && value.Valid()
      modifies (if Settable(tree.fields, path, value) then Repr else {}),
               (if Settable(tree.fields, path, value) then {value} else {})`parent
      ensures ok <==> old(Settable(tree.fields, path, value))
      ensures ok && this in old(value.Repr) ==> IsCycle(cycle, value)
      ensures ok && this !in old(value.Repr) ==>
        && SetDone(value, old(tree.fields), path, old(value.tree))
        && value.Repr == old(value.Repr) && parent == old(parent)
        && forall x :: x in Repr ==> x in old(Repr) || x in value.Repr || fresh(x)
      decreases |path|, 0
    {
      hide Distinct, IndexOf, Union, IsCycle;
      var d := DotPosition(path);
      assert path[..|path|] == path;
      if d == |path| {
        ok, cycle := SetValue(path, value);
        return;
      }
      var i := FindName(path[..d]);
      if i < |names| {
        if kids[i].kind != ObjectKind {
          return false, [];
        }
        ok, cycle := SetInChild(i, path[d + 1..], value);
      } else {
        ok, cycle := SetInNewChild(path[..d], path[d + 1..], value);
      }
    }

    /** The outcome of a successful set on an object that is not below the value. */
    ghost predicate SetDone(value: Node, fields: seq<Field>, path: string, v: Json)
      reads this, Repr, value, value.Repr
    {
      && Valid() && value.Valid() && kind == ObjectKind && value.tree == v && value.Repr <= Repr && value.parent != null
      && DotSet(fields, path, v).Some? && tree == Obj(DotSet(fields, path, v).value)
    }

    /** The branch for an intermediate object that exists. */
    method SetInChild(i: nat, rest: string, value: Node) returns (ok: bool, ghost cycle: seq<Node>)
      requires Valid() && kind == ObjectKind && i < |kids| && kids[i].kind == ObjectKind && kids[i].tree.Obj?
        && value.Valid()
      modifies (if Settable(kids[i].tree.fields, rest, value) then Repr else {}),
               (if Settable(kids[i].tree.fields, rest, value) then {value} else {})`parent
      ensures ok <==> old(Settable(kids[i].tree.fields, rest, value))
      ensures ok && this in old(value.Repr) ==> IsCycle(cycle, value)
      ensures ok && this !in old(value.Repr) ==>
        && Valid() && value.Valid() && kind == ObjectKind && parent == old(parent)
        && value.tree == old(value.tree) && value.Repr == old(value.Repr) && value.Repr <= Repr && value.parent != null
        && tree == Obj(old(tree.fields)[i := Field(old(names[i]),
                                                   Obj(DotSet(old(kids[i].tree.fields), rest, value.tree).value))])
        && forall x :: x in Repr ==> x in old(Repr) || x in value.Repr || fresh(x)
      decreases |rest|, 1
    {
      hide Distinct, DotSet, Union, IsCycle;
      var child := kids[i];
      ghost var reprs := Reprs();
      assert Others(i, reprs, tree);
      ghost var below := this in value.Repr;
      if below {
        Inside(value, this);
      } else if value.parent == null {
        Apart(this, value);
      }
      ok, cycle := child.DotSetValue(rest, value);
      if ok && !below {
        StillDistinct(tree.fields, i, child.tree);
        Adopt(i, reprs, Obj(tree.fields[i := Field(names[i], child.tree)]));
        UnionWithin(kids, Repr);
        forall x | x in Repr
          ensures x in old(Repr) || x in value.Repr || fresh(x)
        {
          UnionHas(kids, x);
        }
      }
    }

    /**
     * The branch for a missing intermediate object: build it apart, and add it only when the rest of the set
     * succeeded.
     */
    method SetInNewChild(name: string, rest: string, value: Node) returns (ok: bool, ghost cycle: seq<Node>)
      requires Valid() && kind == ObjectKind && !HasName(tree.fields, name) && value.Valid()
      modifies (if Settable([], rest, value) then {this} else {}),
        (if Settable([], rest, value) then {value} else {})`parent
      ensures ok <==> old(Settable([], rest, value))
      ensures ok && this in old(value.Repr) ==> IsCycle(cycle, value)
      ensures ok && this !in old(value.Repr) ==>
        && Valid() && value.Valid() && kind == ObjectKind && parent == old(parent)
        && value.tree == old(value.tree) && value.Repr == old(value.Repr) && value.Repr <= Repr && value.parent != null
        && tree == Obj(old(tree.fields) + [Field(name, Obj(DotSet([], rest, value.tree).value))])
        && forall x :: x in Repr ==> x in old(Repr) || x in value.Repr || fresh(x)
      decreases |rest|, 1
    {
      hide Distinct, DotSet, Union;
      ghost var below := this in value.Repr;
      if value in Repr && value != this {
        ParentInside(this, value);
      }
      var child := new Node.Object();
      ok, cycle := child.DotSetValue(rest, value);
      if ok {
        cycle := AddNewChild(name, child, value);
      }
    }

    /** Adding the object that was built around the value. */
    method AddNewChild(name: string, child: Node, value: Node) returns (ghost cycle: seq<Node>)
      requires Valid() && kind == ObjectKind && !HasName(tree.fields, name) && child.Valid() && child.parent == null
      requires value.Valid() && value.Repr <= child.Repr && value.parent != null
        && (this in child.Repr ==> this in value.Repr)
      requires child !in value.Repr
      modifies this, child`parent
      ensures this in old(value.Repr) ==> IsCycle(cycle, value)
      ensures this !in old(value.Repr) ==>
        && Valid() && value.Valid() && kind == ObjectKind && parent == old(parent)
        && value.tree == old(value.tree) && value.Repr == old(value.Repr) && value.Repr <= Repr && value.parent != null
        && tree == Obj(old(tree.fields) + [Field(name, old(child.tree))]) && Repr == old(Repr) + old(child.Repr)
    {
      hide Distinct, Union, HasName;
      ghost var below := this in value.Repr;
      ghost var up, down := [], [];
      if below {
        up := WayDown(child, value);
        down := WayDown(value, this);
      }
      var _ := Append(name, child);
      hide Node.Valid;
      cycle := down + up;
      if below {
        ClosesThrough(down, up, value);
      }
    }

    /** json_object_dotremove. */
    method DotRemoveValue(path: string) returns (ok: bool)
      requires Valid() && kind == ObjectKind
      modifies if DotRemove(tree.fields, path).Some? then Repr else {}
      ensures ok <==> DotRemove(old(tree.fields), path).Some?
      ensures Valid() && kind == ObjectKind && parent == old(parent) && Repr <= old(Repr)
      ensures ok ==> tree == Obj(DotRemove(old(tree.fields), path).value)
      decreases |path|, 0
    {
      hide Distinct, IndexOf, Union;
      var d := DotPosition(path);
      assert path[..|path|] == path;
      if d == |path| {
        ok := RemoveValue(path);
        return;
      }
      var i := FindName(path[..d]);
      if i == |names| || kids[i].kind != ObjectKind {
        return false;
      }
      ok := RemoveInChild(i, path[d + 1..]);
    }

    method RemoveInChild(i: nat, rest: string) returns (ok: bool)
      requires Valid() && kind == ObjectKind && i < |kids| && kids[i].kind == ObjectKind && kids[i].tree.Obj?
      modifies if DotRemove(kids[i].tree.fields, rest).Some? then Repr else {}
      ensures ok <==> DotRemove(old(kids[i].tree.fields), rest).Some?
      ensures Valid() && kind == ObjectKind && parent == old(parent) && Repr <= old(Repr)
      ensures ok ==> tree == Obj(old(tree.fields)[i := Field(old(names[i]),
                                                             Obj(DotRemove(old(kids[i].tree.fields), rest).value))])
      decreases |rest|, 1
    {
      hide Distinct, DotRemove, Union;
      var child := kids[i];
      ghost var reprs := Reprs();
      assert Others(i, reprs, tree);
      ok := child.DotRemoveValue(rest);
      if ok {
        StillDistinct(tree.fields, i, child.tree);
        Adopt(i, reprs, Obj(tree.fields[i := Field(names[i], child.tree)]));
        UnionWithin(kids, old(Repr));
      }
    }

    /** json_array_add. */
    method AppendItem(value: Node) returns (ghost cycle: seq<Node>)
      requires Valid() && kind == ArrayKind && value.Valid() && value.parent == null
      modifies this, value`parent
      ensures value.parent == this
      ensures this in old(value.Repr) ==> IsCycle(cycle, value)
      ensures this !in old(value.Repr) ==>
        && Valid() && value.Valid() && kind == ArrayKind && parent == old(parent)
        && tree == Arr(old(tree.items) + [value.tree]) && value.tree == old(value.tree)
        && Repr == old(Repr) + value.Repr && value.Repr == old(value.Repr)
    {
      hide Union;
      ghost var below := this in value.Repr;
      ghost var down := [];
      if below {
        down := WayDown(value, this);
      }
      Attach(|kids|, value);
      hide Node.Linked;
      cycle := down + [value];
      if below {
        Closes(down, value);
      } else {
        Rebuild(Arr(tree.items + [value.tree]));
        UnionOfMore(old(kids), value);
      }
    }

    /** json_array_append_value: refuses a value that has a parent, but not the root of the tree this array is in. */
    method AppendValue(value: Node) returns (ok: bool, ghost cycle: seq<Node>)
      requires Valid() && kind == ArrayKind && value.Valid()
      modifies (if value.parent == null then {this} else {}), (if value.parent == null then {value} else {})`parent
      ensures ok <==> old(value.parent) == null
      ensures ok ==> value.parent == this
      ensures ok && this in old(value.Repr) ==> IsCycle(cycle, value)
      ensures ok && this !in old(value.Repr) ==>
        && Valid() && value.Valid() && kind == ArrayKind && parent == old(parent)
        && tree == Arr(old(tree.items) + [value.tree]) && value.tree == old(value.tree)
        && Repr == old(Repr) + value.Repr && value.Repr == old(value.Repr)
    {
      if value.parent != null {
        return false, [];
      }
      cycle := AppendItem(value);
      return true, cycle;
    }

    /** json_value_deep_copy: an equal tree, made of new nodes only, with no parent. */
    method DeepCopy() returns (copy: Node)
      requires Valid()
      ensures copy.Valid() && fresh(copy.Repr) && copy.tree == tree && copy.parent == null && copy.kind == kind
      decreases Repr, 2
    {
      if kind == Scalar {
        copy := new Node.Leaf(scalar);
      } else if kind == ArrayKind {
        copy := CopyArray();
      } else {
        copy := CopyObject();
      }
    }

    method CopyArray() returns (copy: Node)
      requires Valid() && kind == ArrayKind
      ensures copy.Valid() && fresh(copy.Repr) && copy.tree == tree && copy.parent == null && copy.kind == ArrayKind
      decreases Repr, 1
    {
      hide Union, IsCycle;
      copy := new Node.Array();
      for i := 0 to |kids|
        invariant copy.Valid() && fresh(copy.Repr) && copy.kind == ArrayKind && copy.parent == null
        invariant copy.tree == Arr(tree.items[..i])
      {
        OneMoreItem(tree.items, i);
        CopyItem(i, copy);
        hide Node.Valid;
      }
      assert tree.items[..|kids|] == tree.items;
    }

    /** The loop body for an array: a copy of an item goes behind those copied before. */
    method CopyItem(i: nat, copy: Node)
      requires Valid() && kind == ArrayKind && i < |tree.items| && copy.Valid() && copy.kind == ArrayKind
        && Repr !! copy.Repr
      modifies copy
      ensures copy.Valid() && copy.kind == ArrayKind && copy.parent == old(copy.parent)
        && fresh(copy.Repr - old(copy.Repr))
      ensures copy.tree == Arr(old(copy.tree.items) + [tree.items[i]])
      ensures Valid()
      decreases Repr, 0
    {
      hide Union, IsCycle;
      assert kids[i].Repr <= Repr;
      var item := kids[i].DeepCopy();
      var _ := copy.AppendItem(item);
    }

    method CopyObject() returns (copy: Node)
      requires Valid() && kind == ObjectKind
      ensures copy.Valid() && fresh(copy.Repr) && copy.tree == tree && copy.parent == null && copy.kind == ObjectKind
      decreases Repr, 1
    {
      hide Union, IsCycle, Distinct, HasName, IndexOf;
      copy := new Node.Object();
      for i := 0 to |names|
        invariant copy.Valid() && fresh(copy.Repr) && copy.kind == ObjectKind && copy.parent == null
        invariant copy.tree == Obj(tree.fields[..i])
      {
        PrefixIsFresh(tree.fields, i);
        CopyMember(i, copy);
        hide Node.Valid;
      }
      assert tree.fields[..|names|] == tree.fields;
    }

    /** The loop body for an object: a copy of a member, which is looked up by its name. */
    method CopyMember(i: nat, copy: Node)
      requires Valid() && kind == ObjectKind && i < |tree.fields| && copy.Valid() && copy.kind == ObjectKind
        && Repr !! copy.Repr
      requires !HasName(copy.tree.fields, tree.fields[i].name)
      modifies copy
      ensures copy.Valid() && copy.kind == ObjectKind && copy.parent == old(copy.parent)
        && fresh(copy.Repr - old(copy.Repr))
      ensures copy.tree == Obj(old(copy.tree.fields) + [tree.fields[i]])
      ensures Valid()
      decreases Repr, 0
    {
      hide Union, IsCycle;
      PrefixIsFresh(tree.fields, i);
      hide Distinct, HasName, IndexOf;
      var at := FindName(names[i]);
      assert kids[at].Repr <= Repr;
      var value := kids[at].DeepCopy();
      var _ := copy.Append(names[i], value);
    }
  }

  lemma StillDistinct(fields: seq<Field>, i: nat, v: Json)
    requires Distinct(fields) && i < |fields|
    ensures Distinct(fields[i := Field(fields[i].name, v)])
  {
  }

  lemma StillDistinctWith(fields: seq<Field>, f: Field)
    requires Distinct(fields) && !HasName(fields, f.name)
    ensures Distinct(fields + [f])
  {
  }

  // ---- Footprints ----

  /** All nodes of the trees of some children. */
  ghost function Union(kids: seq<Node>): set<Node>
    reads kids`Repr
  {
    set k, x | 0 <= k < |kids| && x in kids[k].Repr :: x
  }

  lemma UnionWithin(kids: seq<Node>, all: set<Node>)
    ensures forall k :: 0 <= k < |kids| ==> kids[k].Repr <= Union(kids)
    ensures (forall k :: 0 <= k < |kids| ==> kids[k].Repr <= all) ==> Union(kids) <= all
  {
  }

  lemma UnionHas(kids: seq<Node>, x: Node)
    ensures x in Union(kids) <==> exists k :: 0 <= k < |kids| && x in kids[k].Repr
  {
  }

  lemma UnionOfMore(kids: seq<Node>, kid: Node)
    ensures Union(kids + [kid]) == Union(kids) + kid.Repr
  {
    var more := kids + [kid];
    assert more[|kids|] == kid && forall k :: 0 <= k < |kids| ==> more[k] == kids[k];
    forall x | x in Union(kids) + kid.Repr
      ensures x in Union(more)
    {
      if x in Union(kids) {
        var k :| 0 <= k < |kids| && x in kids[k].Repr;
        assert x in more[k].Repr;
      } else {
        assert x in more[|kids|].Repr;
      }
    }
  }

  // ---- Links ----

  /** Each node is a child of the one before it. */
  ghost predicate Steps(p: seq<Node>)
    reads p
  {
    forall i :: 0 <= i < |p| - 1 ==> p[i + 1] in p[i].kids
  }

  /** A way down from a node to itself. */
  ghost predicate IsCycle(p: seq<Node>, n: Node)
    reads p
  {
    |p| >= 2 && p[0] == n && p[|p| - 1] == n && Steps(p)
  }

  /** A way down from `n` to a node that has `n` for a child. */
  lemma Closes(down: seq<Node>, n: Node)
    requires down != [] && down[0] == n && n in down[|down| - 1].kids && Steps(down)
    ensures IsCycle(down + [n], n)
  {
  }

  lemma ClosesThrough(down: seq<Node>, up: seq<Node>, n: Node)
    requires down != [] && up != [] && down[0] == n && up[|up| - 1] == n && up[0] in down[|down| - 1].kids
    requires Steps(down) && Steps(up)
    ensures IsCycle(down + up, n)
  {
    var p := down + up;
    forall i | 0 <= i < |p| - 1
      ensures p[i + 1] in p[i].kids
    {
      if i >= |down| {
        assert p[i] == up[i - |down|] && p[i + 1] == up[i - |down| + 1];
      }
    }
  }

  /** The way down from the root of a tree to a node in it. */
  lemma {:induction false} WayDown(root: Node, x: Node) returns (p: seq<Node>)
    requires root.Valid() && x in root.Repr
    ensures Steps(p) && p != [] && p[0] == root && p[|p| - 1] == x
    ensures forall i :: 0 <= i < |p| ==> p[i] in root.Repr && x in p[i].Repr
    ensures forall i :: 0 <= i < |p| - 1 ==> p[i] != x
    decreases root.Repr
  {
    if x == root {
      return [root];
    }
    assert x in Union(root.kids);
    var k :| 0 <= k < |root.kids| && x in root.kids[k].Repr;
    assert root.kids[k].Repr <= root.Repr;
    var rest := WayDown(root.kids[k], x);
    p := [root] + rest;
    assert rest[0] in root.kids;
    hide Union, Node.Valid;
    OneStepMore(root, rest);
  }

  lemma OneStepMore(n: Node, rest: seq<Node>)
    requires rest != [] && rest[0] in n.kids && Steps(rest)
    ensures Steps([n] + rest)
    ensures forall i :: 0 < i < |[n] + rest| ==> ([n] + rest)[i] == rest[i - 1]
  {
  }

  /** Every node of a valid tree but its root has its parent in the tree. */
  lemma {:induction false} ParentInside(root: Node, x: Node)
    requires root.Valid() && x in root.Repr && x != root
    ensures x.parent != null && x.parent in root.Repr
    decreases root.Repr
  {
    assert x in Union(root.kids);
    var k :| 0 <= k < |root.kids| && x in root.kids[k].Repr;
    if x != root.kids[k] {
      ParentInside(root.kids[k], x);
    }
  }

  lemma {:induction false} Inside(root: Node, x: Node)
    requires root.Valid() && x in root.Repr
    ensures x.Valid() && x.Repr <= root.Repr
    decreases root.Repr
  {
    if x != root {
      assert x in Union(root.kids);
      var k :| 0 <= k < |root.kids| && x in root.kids[k].Repr;
      Inside(root.kids[k], x);
    }
  }

  /** A tree without a parent has nothing in common with the tree of a node outside it. */
  lemma {:induction false} Apart(n: Node, root: Node)
    requires n.Valid() && root.Valid() && root.parent == null && n !in root.Repr
    ensures n.Repr !! root.Repr
    decreases n.Repr
  {
    forall x | x in n.Repr
      ensures x !in root.Repr
    {
      if x != n {
        assert x in Union(n.kids);
        var k :| 0 <= k < |n.kids| && x in n.kids[k].Repr;
        var kid := n.kids[k];
        if kid in root.Repr {
          ParentInside(root, kid);
          assert false;
        }
        Apart(kid, root);
      }
    }
  }

  /** The children after a value from another tree has been put among them: apart from each other and from this node. */
  lemma AttachedApart(n: Node, i: nat, value: Node, all: seq<Node>)
    requires n.Valid() && value.Valid() && value.parent == null && n !in value.Repr && i <= |n.kids|
    requires all == if i == |n.kids| then n.kids + [value] else n.kids[i := value]
    ensures forall k :: 0 <= k < |all| ==>
      n !in all[k].Repr && all[k].Valid() && (k != i ==> all[k].parent == n && value !in all[k].Repr)
    ensures all[i] == value
    ensures forall j, k :: 0 <= j < k < |all| ==> all[j].Repr !! all[k].Repr
  {
    hide Union, Node.Shape;
    Apart(n, value);
    forall k | 0 <= k < |all| && k != i
      ensures all[k] == n.kids[k]
    {
    }
  }

  /** There is no way down from a node of a valid tree to itself. */
  lemma {:induction false} ValidHasNoCycle(p: seq<Node>)
    requires p != [] && p[0].Valid() && Steps(p)
    ensures forall i :: 0 < i < |p| ==> p[0] != p[i]
    ensures forall i :: 0 <= i < |p| ==> p[i] in p[0].Repr
    decreases |p|
  {
    if |p| > 1 {
      assert p[1] in p[0].kids;
      ValidHasNoCycle(p[1..]);
      forall i | 0 < i < |p|
        ensures p[i] in p[1].Repr
      {
        assert p[i] == p[1..][i - 1];
      }
    }
  }

  /** The value the parent test of json_object_set_value fails to catch: an object set into itself is its own parent. */
  method RootIntoItself(name: string) returns (root: Node, ghost cycle: seq<Node>)
    ensures fresh(root) && root.parent == root && IsCycle(cycle, root)
  {
    hide Union, IsCycle;
    root := new Node.Object();
    var ok;
    ok, cycle := root.SetValue(name, root);
  }

  lemma OneMoreItem<T>(s: seq<T>, i: nat)
    requires i < |s|
    ensures s[..i + 1] == s[..i] + [s[i]]
  {
  }

  lemma PrefixIsFresh(fields: seq<Field>, i: nat)
    requires Distinct(fields) && i < |fields|
    ensures IndexOf(fields, fields[i].name) == i && !HasName(fields[..i], fields[i].name)
    ensures fields[..i + 1] == fields[..i] + [fields[i]]
  {
    hide *;
    IndexOfDistinct(fields, i);
    NameIsFresh(fields, i);
  }

  lemma NameIsFresh(fields: seq<Field>, i: nat)
    requires Distinct(fields) && i < |fields|
    ensures !HasName(fields[..i], fields[i].name)
  {
  }

  lemma {:induction false} IndexOfIsFirst(fields: seq<Field>, name: string, i: nat)
    requires i <= |fields| && (i < |fields| ==> fields[i].name == name)
    requires forall k :: 0 <= k < i ==> fields[k].name != name
    ensures IndexOf(fields, name) == i
  {
  }

  lemma AbsentGetsNothing(fields: seq<Field>, path: string)
    requires IndexOf(fields, path[..DotPosition(path)]) == |fields|
    ensures DotGet(fields, path) == None
  {
    var d := DotPosition(path);
    assert path[..|path|] == path;
    if d < |path| {
      NothingInside(None, path[d + 1..]);
    }
  }
}
