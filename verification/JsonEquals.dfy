/** json_value_equals compares values as what they mean: arrays by position, objects as finite maps. */
module JsonEquals {
  import opened CString
  import opened FiniteSets
  import opened JsonValue

  /** What a tree without floating numbers stands for: objects lose the order of their members. */
  datatype Meaning =
    | MNull
    | MBool(b: bool)
    | MUint(n: nat)
    | MNumber(x: real)
    | MStr(s: string)
    | MArr(items: seq<Meaning>)
    | MObj(members: map<string, Meaning>)

  function MeaningOf(v: Json): Meaning
    decreases v, 1
  {
    match v
    case Null => MNull
    case Bool(b) => MBool(b)
    case Uint(n) => MUint(n)
    case Number(x) => MNumber(x)
    case Str(s) => MStr(s)
    case Arr(items) => MArr(MeaningOfItems(items))
    case Obj(fields) => MObj(MeaningOfFields(fields))
  }

  function MeaningOfItems(items: seq<Json>): (r: seq<Meaning>)
    ensures |r| == |items|
    ensures forall i :: 0 <= i < |items| ==> r[i] == MeaningOf(items[i])
    decreases items, 0
  {
    if items == [] then [] else [MeaningOf(items[0])] + MeaningOfItems(items[1..])
  }

  function MeaningOfFields(fields: seq<Field>): (r: map<string, Meaning>)
    decreases fields, 0
  {
    if fields == [] then map[]
    else MeaningOfFields(fields[1..])[fields[0].name := MeaningOf(fields[0].value)]
  }

  // ---- The comparison ----

  function AsReal(v: Json): real
    requires v.Number? || v.Uint?
  {
    if v.Uint? then v.n as real else v.x
  }

  predicate CloseNumbers(x: real, y: real) {
    -0.000001 < x - y < 0.000001
  }

  /** The first value stored under a name; json_object_get_value. */
  function Lookup(fields: seq<Field>, name: string): (r: Option<Json>)
    ensures r.Some? <==> HasName(fields, name)
    ensures r.Some? ==> IndexOf(fields, name) < |fields| && r.value == fields[IndexOf(fields, name)].value
  {
    var i := IndexOf(fields, name);
    if i < |fields| then Some(fields[i].value) else None
  }

  /** json_value_equals. */
  predicate Equal(a: Json, b: Json)
    decreases a
  {
    match (a, b)
    case (Null, Null) => true
    case (Bool(x), Bool(y)) => x == y
    case (Uint(x), Uint(y)) => x == y
    case (Number(_), Number(_)) => CloseNumbers(AsReal(a), AsReal(b))
    case (Number(_), Uint(_)) => CloseNumbers(AsReal(a), AsReal(b))
    case (Uint(_), Number(_)) => CloseNumbers(AsReal(a), AsReal(b))
    case (Str(x), Str(y)) => x == y
    case (Arr(x), Arr(y)) => |x| == |y| && forall i :: 0 <= i < |x| ==> Equal(x[i], y[i])
    case (Obj(f), Obj(g)) => |f| == |g| && forall i :: 0 <= i < |f| ==> MemberEqual(f, f[i].name, g)
    case _ => false
  }

  /** One round of the object loop: both sides are looked up by name, and a missing value equals nothing. */
  predicate MemberEqual(f: seq<Field>, name: string, g: seq<Field>)
    requires HasName(f, name)
    decreases f
  {
    Lookup(g, name).Some? && Equal(f[IndexOf(f, name)].value, Lookup(g, name).value)
  }

  method EqualValues(a: Json, b: Json) returns (r: bool)
    ensures r == Equal(a, b)
    decreases a
  {
    match (a, b)
    case (Arr(x), Arr(y)) =>
      if |x| != |y| {
        return false;
      }
      for i := 0 to |x|
        invariant forall k :: 0 <= k < i ==> Equal(x[k], y[k])
      {
        var same := EqualValues(x[i], y[i]);
        if !same {
          return false;
        }
      }
      return true;
    case (Obj(f), Obj(g)) =>
      if |f| != |g| {
        return false;
      }
      for i := 0 to |f|
        invariant forall k :: 0 <= k < i ==> MemberEqual(f, f[k].name, g)
      {
        var key := f[i].name;
        var (left, right) := (Lookup(f, key), Lookup(g, key));
        if right.None? {
          return false;
        }
        var same := EqualValues(left.value, right.value);
        if !same {
          return false;
        }
      }
      return true;
    case _ => return Equal(a, b);
  }

  // ---- Objects as finite maps ----

  lemma {:induction false} MeaningOfMember(fields: seq<Field>, name: string)
    ensures name in MeaningOfFields(fields) <==> HasName(fields, name)
    ensures HasName(fields, name) ==> MeaningOfFields(fields)[name] == MeaningOf(Lookup(fields, name).value)
  {
    if fields != [] {
      MeaningOfMember(fields[1..], name);
      if HasName(fields, name) && fields[0].name != name {
        var i :| 0 <= i < |fields| && fields[i].name == name;
        assert fields[1..][i - 1].name == name;
      }
      if HasName(fields[1..], name) {
        var i :| 0 <= i < |fields[1..]| && fields[1..][i].name == name;
        assert fields[i + 1].name == name;
      }
    }
  }

  lemma {:induction false} MeaningSize(fields: seq<Field>)
    requires Distinct(fields)
    ensures |MeaningOfFields(fields).Keys| == |fields|
  {
    if fields != [] {
      MeaningSize(fields[1..]);
      MeaningOfMember(fields[1..], fields[0].name);
      var m := MeaningOfFields(fields[1..]);
      assert m[fields[0].name := MeaningOf(fields[0].value)].Keys == m.Keys + {fields[0].name};
    }
  }

  lemma IndexOfDistinct(fields: seq<Field>, i: nat)
    requires Distinct(fields) && i < |fields|
    ensures IndexOf(fields, fields[i].name) == i
  {
  }

  ghost predicate SameOnMembers(f: seq<Field>, g: seq<Field>) {
    forall i, j :: 0 <= i < |f| && 0 <= j < |g| ==>
      (Equal(f[i].value, g[j].value) <==> MeaningOf(f[i].value) == MeaningOf(g[j].value))
  }

  /**
   * Looking up every name of the first object is enough: equal counts and distinct names leave no other name in the
   * second.
   */
  lemma EqualObjectsMeanSame(f: seq<Field>, g: seq<Field>)
    requires Distinct(f) && Distinct(g) && SameOnMembers(f, g) && |f| == |g|
    requires forall i :: 0 <= i < |f| ==> MemberEqual(f, f[i].name, g)
    ensures MeaningOfFields(f) == MeaningOfFields(g)
  {
    var (mf, mg) := (MeaningOfFields(f), MeaningOfFields(g));
    hide Equal, MeaningOf, MeaningOfFields;
    MeaningSize(f);
    MeaningSize(g);
    forall name | name in mf
      ensures name in mg && mf[name] == mg[name]
    {
      MeaningOfMember(f, name);
      MeaningOfMember(g, name);
      assert MemberEqual(f, f[IndexOf(f, name)].name, g);
    }
    SubsetCount(mf.Keys, mg.Keys);
  }

  lemma SameMeaningEqualObjects(f: seq<Field>, g: seq<Field>)
    requires Distinct(f) && Distinct(g) && SameOnMembers(f, g)
    requires MeaningOfFields(f) == MeaningOfFields(g)
    ensures |f| == |g|
    ensures forall i :: 0 <= i < |f| ==> MemberEqual(f, f[i].name, g)
  {
    hide Equal, MeaningOf, MeaningOfFields;
    MeaningSize(f);
    MeaningSize(g);
    forall i | 0 <= i < |f|
      ensures MemberEqual(f, f[i].name, g)
    {
      MeaningOfMember(f, f[i].name);
      MeaningOfMember(g, f[i].name);
    }
  }

  /** On trees without floating numbers, two values compare equal exactly when they mean the same. */
  lemma {:induction false} EqualIffSameMeaning(a: Json, b: Json)
    requires WellFormed(a) && WellFormed(b) && NumberFree(a) && NumberFree(b)
    ensures Equal(a, b) <==> MeaningOf(a) == MeaningOf(b)
    decreases a
  {
    if a.Arr? && b.Arr? {
      forall i | 0 <= i < |a.items| && |a.items| == |b.items|
        ensures Equal(a.items[i], b.items[i]) <==> MeaningOf(a.items[i]) == MeaningOf(b.items[i])
      {
        EqualIffSameMeaning(a.items[i], b.items[i]);
      }
    } else if a.Obj? && b.Obj? {
      forall i, j | 0 <= i < |a.fields| && 0 <= j < |b.fields|
        ensures Equal(a.fields[i].value, b.fields[j].value)
          <==> MeaningOf(a.fields[i].value) == MeaningOf(b.fields[j].value)
      {
        EqualIffSameMeaning(a.fields[i].value, b.fields[j].value);
      }
      assert SameOnMembers(a.fields, b.fields);
      if Equal(a, b) {
        EqualObjectsMeanSame(a.fields, b.fields);
      } else if MeaningOf(a) == MeaningOf(b) {
        SameMeaningEqualObjects(a.fields, b.fields);
        assert false;
      }
    }
  }

  /** Equal counts and distinct names: the members of the second object are all looked up. */
  lemma EveryNameIsMet(f: seq<Field>, g: seq<Field>, i: nat) returns (k: nat)
    requires Distinct(f) && Distinct(g) && |f| == |g| && i < |g|
    requires forall j :: 0 <= j < |f| ==> MemberEqual(f, f[j].name, g)
    ensures k < |f| && f[k].name == g[i].name
  {
    hide Equal, MeaningOf, MeaningOfFields;
    var (mf, mg) := (MeaningOfFields(f), MeaningOfFields(g));
    MeaningSize(f);
    MeaningSize(g);
    forall name | name in mf
      ensures name in mg
    {
      MeaningOfMember(f, name);
      MeaningOfMember(g, name);
      assert MemberEqual(f, f[IndexOf(f, name)].name, g);
    }
    SubsetCount(mf.Keys, mg.Keys);
    MeaningOfMember(g, g[i].name);
    MeaningOfMember(f, g[i].name);
    k := IndexOf(f, g[i].name);
  }

  lemma {:induction false} EqualIsReflexive(a: Json)
    requires WellFormed(a)
    ensures Equal(a, a)
  {
    if a.Arr? {
      forall i | 0 <= i < |a.items|
        ensures Equal(a.items[i], a.items[i])
      {
        EqualIsReflexive(a.items[i]);
      }
    } else if a.Obj? {
      forall i | 0 <= i < |a.fields|
        ensures MemberEqual(a.fields, a.fields[i].name, a.fields)
      {
        IndexOfDistinct(a.fields, i);
        EqualIsReflexive(a.fields[i].value);
      }
    }
  }

  lemma {:induction false} EqualIsSymmetric(a: Json, b: Json)
    requires WellFormed(a) && WellFormed(b) && Equal(a, b)
    ensures Equal(b, a)
    decreases a
  {
    if a.Arr? {
      forall i | 0 <= i < |a.items|
        ensures Equal(b.items[i], a.items[i])
      {
        EqualIsSymmetric(a.items[i], b.items[i]);
      }
    } else if a.Obj? {
      forall i | 0 <= i < |b.fields|
        ensures MemberEqual(b.fields, b.fields[i].name, a.fields)
      {
        var k := EveryNameIsMet(a.fields, b.fields, i);
        IndexOfDistinct(a.fields, k);
        IndexOfDistinct(b.fields, i);
        assert MemberEqual(a.fields, a.fields[k].name, b.fields);
        EqualIsSymmetric(a.fields[k].value, b.fields[i].value);
      }
    }
  }

  /** On all trees the comparison is reflexive and symmetric; on trees without floating numbers it is an equivalence. */
  lemma EqualIsEquivalence(a: Json, b: Json, c: Json)
    requires WellFormed(a) && WellFormed(b) && WellFormed(c)
    ensures Equal(a, a)
    ensures Equal(a, b) <==> Equal(b, a)
    ensures NumberFree(a) && NumberFree(b) && NumberFree(c) && Equal(a, b) && Equal(b, c) ==> Equal(a, c)
  {
    hide Equal, WellFormed, NumberFree;
    EqualIsReflexive(a);
    if Equal(a, b) {
      EqualIsSymmetric(a, b);
    }
    if Equal(b, a) {
      EqualIsSymmetric(b, a);
    }
    if NumberFree(a) && NumberFree(b) && NumberFree(c) {
      EqualIffSameMeaning(a, b);
      EqualIffSameMeaning(b, c);
      EqualIffSameMeaning(a, c);
    }
  }

  // ---- Numbers ----

  /** With floating numbers the comparison is a tolerance, and tolerances do not chain. */
  lemma NumbersAreNotTransitive()
    ensures var (a, b, c) := (Number(0.0), Number(0.0000006), Number(0.0000012));
      Equal(a, b) && Equal(b, c) && !Equal(a, c)
  {
  }

  /** No number at all, not even an integer: an integer is also compared with floating numbers. */
  predicate NumeralFree(v: Json) {
    match v
    case Uint(_) => false
    case Number(_) => false
    case Arr(items) => forall i :: 0 <= i < |items| ==> NumeralFree(items[i])
    case Obj(fields) => forall i :: 0 <= i < |fields| ==> NumeralFree(fields[i].value)
    case _ => true
  }

  /** The comparison chains through a value exactly when it holds no number. */
  lemma ChainsIffNumeralFree(v: Json)
    requires WellFormed(v)
    ensures NumeralFree(v)
      <==> forall b, c :: WellFormed(b) && WellFormed(c) && Equal(b, v) && Equal(v, c) ==> Equal(b, c)
  {
    hide Equal, WellFormed, NumeralFree, Nudged;
    if NumeralFree(v) {
      forall b, c | WellFormed(b) && WellFormed(c) && Equal(b, v) && Equal(v, c)
        ensures Equal(b, c)
      {
        ChainsThrough(b, v, c);
      }
    } else {
      var (b, c) := (Nudged(v, -0.0000005), Nudged(v, 0.0000005));
      NudgedEquals(v, -0.0000005);
      NudgedEquals(v, 0.0000005);
      NudgedApart(v, -0.0000005, 0.0000005);
      assert Equal(b, v) && Equal(v, c) && !Equal(b, c);
    }
  }

  lemma ChainsThrough(b: Json, v: Json, c: Json)
    requires WellFormed(b) && WellFormed(v) && WellFormed(c) && NumeralFree(v) && Equal(b, v) && Equal(v, c)
    ensures Equal(b, c)
  {
    hide Equal, WellFormed, NumeralFree, NumberFree;
    EqualToNumeralFree(b, v);
    NumeralFreeIsEqual(v, c);
    EqualIsEquivalence(b, v, c);
  }

  lemma {:induction false} EqualToNumeralFree(b: Json, v: Json)
    requires WellFormed(b) && WellFormed(v) && NumeralFree(v) && Equal(b, v)
    ensures NumberFree(b) && NumberFree(v)
    decreases v
  {
    NumeralFreeIsNumberFree(v);
    if b.Arr? {
      forall i | 0 <= i < |b.items|
        ensures NumberFree(b.items[i])
      {
        EqualToNumeralFree(b.items[i], v.items[i]);
      }
    } else if b.Obj? {
      forall i | 0 <= i < |b.fields|
        ensures NumberFree(b.fields[i].value)
      {
        IndexOfDistinct(b.fields, i);
        assert MemberEqual(b.fields, b.fields[i].name, v.fields);
        EqualToNumeralFree(b.fields[i].value, Lookup(v.fields, b.fields[i].name).value);
      }
    }
  }

  lemma {:induction false} NumeralFreeIsEqual(v: Json, c: Json)
    requires WellFormed(v) && WellFormed(c) && NumeralFree(v) && Equal(v, c)
    ensures NumberFree(v) && NumberFree(c)
    decreases v
  {
    NumeralFreeIsNumberFree(v);
    if v.Arr? {
      forall i | 0 <= i < |c.items|
        ensures NumberFree(c.items[i])
      {
        NumeralFreeIsEqual(v.items[i], c.items[i]);
      }
    } else if v.Obj? {
      forall i | 0 <= i < |c.fields|
        ensures NumberFree(c.fields[i].value)
      {
        var k := EveryNameIsMet(v.fields, c.fields, i);
        IndexOfDistinct(v.fields, k);
        IndexOfDistinct(c.fields, i);
        NumeralFreeIsEqual(v.fields[k].value, c.fields[i].value);
      }
    }
  }

  lemma {:induction false} NumeralFreeIsNumberFree(v: Json)
    requires NumeralFree(v)
    ensures NumberFree(v)
  {
    if v.Arr? {
      forall i | 0 <= i < |v.items| ensures NumberFree(v.items[i]) {
        NumeralFreeIsNumberFree(v.items[i]);
      }
    } else if v.Obj? {
      forall i | 0 <= i < |v.fields| ensures NumberFree(v.fields[i].value) {
        NumeralFreeIsNumberFree(v.fields[i].value);
      }
    }
  }

  /** The tree with every number moved by `d`. */
  function Nudged(v: Json, d: real): Json {
    match v
    case Uint(n) => Number(n as real + d)
    case Number(x) => Number(x + d)
    case Arr(items) => Arr(seq(|items|, i requires 0 <= i < |items| => Nudged(items[i], d)))
    case Obj(fields) =>
      Obj(seq(|fields|, i requires 0 <= i < |fields| => Field(fields[i].name, Nudged(fields[i].value, d))))
    case _ => v
  }

  lemma {:induction false} NudgedEquals(v: Json, d: real)
    requires WellFormed(v) && -0.000001 < d < 0.000001
    ensures WellFormed(Nudged(v, d)) && Equal(Nudged(v, d), v) && Equal(v, Nudged(v, d))
  {
    if v.Arr? {
      forall i | 0 <= i < |v.items|
        ensures var n := Nudged(v.items[i], d); WellFormed(n) && Equal(n, v.items[i]) && Equal(v.items[i], n)
      {
        NudgedEquals(v.items[i], d);
      }
    } else if v.Obj? {
      var fields := Nudged(v, d).fields;
      forall i | 0 <= i < |fields|
        ensures WellFormed(fields[i].value)
        ensures MemberEqual(fields, fields[i].name, v.fields) && MemberEqual(v.fields, v.fields[i].name, fields)
      {
        NudgedEquals(v.fields[i].value, d);
        IndexOfDistinct(fields, i);
        IndexOfDistinct(v.fields, i);
      }
    }
  }

  lemma {:induction false} NudgedApart(v: Json, d: real, e: real)
    requires WellFormed(v) && !NumeralFree(v) && e - d >= 0.000001
    ensures !Equal(Nudged(v, d), Nudged(v, e))
  {
    if v.Arr? {
      var i :| 0 <= i < |v.items| && !NumeralFree(v.items[i]);
      NudgedApart(v.items[i], d, e);
      assert !Equal(Nudged(v, d).items[i], Nudged(v, e).items[i]);
    } else if v.Obj? {
      var i :| 0 <= i < |v.fields| && !NumeralFree(v.fields[i].value);
      var (f, g) := (Nudged(v, d).fields, Nudged(v, e).fields);
      IndexOfDistinct(f, i);
      IndexOfDistinct(g, i);
      NudgedApart(v.fields[i].value, d, e);
      assert !MemberEqual(f, f[i].name, g);
    }
  }

  /** Reordering the members of an object leaves it equal. */
  lemma OrderIsIgnored(f: seq<Field>, g: seq<Field>)
    requires WellFormed(Obj(f)) && Distinct(g) && multiset(f) == multiset(g)
    ensures Equal(Obj(f), Obj(g))
  {
    assert |f| == |multiset(f)| == |multiset(g)| == |g|;
    forall i | 0 <= i < |f|
      ensures MemberEqual(f, f[i].name, g)
    {
      assert f[i] in multiset(g);
      var j :| 0 <= j < |g| && g[j] == f[i];
      IndexOfDistinct(f, i);
      IndexOfDistinct(g, j);
      EqualIsReflexive(f[i].value);
    }
  }
}
