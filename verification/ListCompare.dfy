/**
 * Comparing two linked lists of named entries: equal counts, and every entry of the first found by name in the second.
 */
module ListCompare {
  import opened FiniteSets

  /** A singly linked list; the cursor of a C loop is one of its tails. */
  datatype List<T> = End | Cell(item: T, next: List<T>)

  function Length<T>(l: List<T>): nat {
    match l
    case End => 0
    case Cell(_, next) => 1 + Length(next)
  }

  /** The generated functions differ in the field used as a name and in how two entries of one name are compared. */
  datatype Entry<V> = Entry(name: string, value: V)

  type Pairs = List<Entry<string>>                  // edgex_nvpairs
  type Protocols = List<Entry<Pairs>>               // edgex_protocols: a name and its properties
  datatype Schedule = Schedule(frequency: string, onChange: bool)
  type AutoEvents = List<Entry<Schedule>>           // edgex_device_autoevents, named by resource

  /** Where the inner loop stops: the tail that starts with the first entry of that name, or the end. */
  function Find<V>(l: List<Entry<V>>, name: string): (r: List<Entry<V>>)
    ensures r.Cell? ==> r.item.name == name
  {
    match l
    case End => End
    case Cell(e, next) => if e.name == name then l else Find(next, name)
  }

  predicate HasName<V>(l: List<Entry<V>>, name: string) {
    Find(l, name).Cell?
  }

  predicate DistinctNames<V>(l: List<Entry<V>>) {
    match l
    case End => true
    case Cell(e, next) => !HasName(next, e.name) && DistinctNames(next)
  }

  /** Every entry of `l` has a first namesake in `l2`, and `same` accepts the two. */
  predicate AllFound<V>(l: List<Entry<V>>, l2: List<Entry<V>>, same: (V, V) -> bool) {
    match l
    case End => true
    case Cell(e, next) => HasName(l2, e.name) && same(e.value, Find(l2, e.name).item.value) && AllFound(next, l2, same)
  }

  predicate ListEqual<V>(l1: List<Entry<V>>, l2: List<Entry<V>>, same: (V, V) -> bool) {
    Length(l1) == Length(l2) && AllFound(l1, l2, same)
  }

  /** The macro LIST_EQUAL_FUNCTION. */
  method CompareLists<V>(l1: List<Entry<V>>, l2: List<Entry<V>>, same: (V, V) -> bool) returns (r: bool)
    ensures r == ListEqual(l1, l2, same)
  {
    var n1, n2 := 0, 0;
    var l := l1;
    while l != End
      invariant n1 + Length(l) == Length(l1)
      decreases l
    {
      l, n1 := l.next, n1 + 1;
    }
    l := l2;
    while l != End
      invariant n2 + Length(l) == Length(l2)
      decreases l
    {
      l, n2 := l.next, n2 + 1;
    }
    if n1 != n2 {
      return false;
    }
    l := l1;
    while l != End
      invariant AllFound(l, l2, same) == AllFound(l1, l2, same)
      decreases l
    {
      var found := l2;
      while found != End
        invariant Find(found, l.item.name) == Find(l2, l.item.name)
        decreases found
      {
        if l.item.name == found.item.name {
          break;
        }
        found := found.next;
      }
      if found == End || !same(l.item.value, found.item.value) {
        return false;
      }
      l := l.next;
    }
    return true;
  }

  // ---- What the comparison decides ----

  /** The finite map a list stands for: the first entry of a name counts. */
  function MapOf<V>(l: List<Entry<V>>): map<string, V> {
    match l
    case End => map[]
    case Cell(e, next) => MapOf(next)[e.name := e.value]
  }

  predicate SameValues<V>(m1: map<string, V>, m2: map<string, V>, same: (V, V) -> bool) {
    m1.Keys == m2.Keys && forall k :: k in m1 ==> same(m1[k], m2[k])
  }

  lemma {:induction false} FindIsMap<V>(l: List<Entry<V>>, name: string)
    ensures name in MapOf(l) <==> HasName(l, name)
    ensures name in MapOf(l) ==> MapOf(l)[name] == Find(l, name).item.value
  {
    if l.Cell? {
      FindIsMap(l.next, name);
    }
  }

  /** A list has at least as many entries as names, and as many only when no name repeats. */
  lemma {:induction false} NamesCount<V>(l: List<Entry<V>>)
    ensures |MapOf(l).Keys| <= Length(l)
    ensures |MapOf(l).Keys| == Length(l) <==> DistinctNames(l)
  {
    if l.Cell? {
      NamesCount(l.next);
      FindIsMap(l.next, l.item.name);
      var m := MapOf(l.next);
      assert MapOf(l).Keys == m.Keys + {l.item.name};
    }
  }

  lemma {:induction false} AllFoundIsSubmap<V>(l: List<Entry<V>>, l2: List<Entry<V>>, same: (V, V) -> bool)
    requires DistinctNames(l)
    ensures AllFound(l, l2, same)
      <==> MapOf(l).Keys <= MapOf(l2).Keys && forall k :: k in MapOf(l) ==> same(MapOf(l)[k], MapOf(l2)[k])
  {
    if l.Cell? {
      AllFoundIsSubmap(l.next, l2, same);
      FindIsMap(l2, l.item.name);
      FindIsMap(l.next, l.item.name);
      var (m, rest) := (MapOf(l), MapOf(l.next));
      assert m.Keys == rest.Keys + {l.item.name};
      assert forall k :: k in rest ==> m[k] == rest[k];
      assert m[l.item.name] == l.item.value;
    }
  }

  /**
   * When the names of the first list are distinct, counting and searching one way decides equality of finite maps:
   * by the pigeonhole principle the second list then has the same names, each once.
   */
  lemma CompareDecidesMaps<V>(l1: List<Entry<V>>, l2: List<Entry<V>>, same: (V, V) -> bool)
    requires DistinctNames(l1)
    ensures ListEqual(l1, l2, same) <==> DistinctNames(l2) && SameValues(MapOf(l1), MapOf(l2), same)
  {
    AllFoundIsSubmap(l1, l2, same);
    NamesCount(l1);
    NamesCount(l2);
    if MapOf(l1).Keys <= MapOf(l2).Keys {
      SubsetCount(MapOf(l1).Keys, MapOf(l2).Keys);
    }
  }

  // ---- The three instances ----

  predicate PairsEqual(p1: Pairs, p2: Pairs) {
    ListEqual(p1, p2, (v1: string, v2: string) => v1 == v2)
  }

  predicate ProtocolsEqual(p1: Protocols, p2: Protocols) {
    ListEqual(p1, p2, PairsEqual)
  }

  predicate AutoEventsEqual(e1: AutoEvents, e2: AutoEvents) {
    ListEqual(e1, e2, (s1: Schedule, s2: Schedule) => s1 == s2)
  }

  lemma PairsEqualIffSameMap(p1: Pairs, p2: Pairs)
    requires DistinctNames(p1)
    ensures PairsEqual(p1, p2) <==> DistinctNames(p2) && MapOf(p1) == MapOf(p2)
  {
    CompareDecidesMaps(p1, p2, (v1: string, v2: string) => v1 == v2);
  }

  lemma AutoEventsEqualIffSameMap(e1: AutoEvents, e2: AutoEvents)
    requires DistinctNames(e1)
    ensures AutoEventsEqual(e1, e2) <==> DistinctNames(e2) && MapOf(e1) == MapOf(e2)
  {
    CompareDecidesMaps(e1, e2, (s1: Schedule, s2: Schedule) => s1 == s2);
  }

  /** Names distinct at both levels. */
  ghost predicate DistinctProtocols(p: Protocols) {
    DistinctNames(p) && forall k :: k in MapOf(p) ==> DistinctNames(MapOf(p)[k])
  }

  /** Protocol name to property name to property value. */
  function ProtocolMap(p: Protocols): map<string, map<string, string>> {
    var m := MapOf(p);
    map k | k in m :: MapOf(m[k])
  }

  lemma ProtocolsEqualIffSameMap(p1: Protocols, p2: Protocols)
    requires DistinctProtocols(p1)
    ensures ProtocolsEqual(p1, p2) <==> DistinctProtocols(p2) && ProtocolMap(p1) == ProtocolMap(p2)
  {
    var (m1, m2) := (MapOf(p1), MapOf(p2));
    CompareDecidesMaps(p1, p2, PairsEqual);
    forall k | k in m1 && k in m2
      ensures PairsEqual(m1[k], m2[k]) <==> DistinctNames(m2[k]) && MapOf(m1[k]) == MapOf(m2[k])
    {
      PairsEqualIffSameMap(m1[k], m2[k]);
    }
    assert ProtocolMap(p1).Keys == m1.Keys && ProtocolMap(p2).Keys == m2.Keys;
    if DistinctProtocols(p2) && ProtocolMap(p1) == ProtocolMap(p2) {
      forall k | k in m1
        ensures PairsEqual(m1[k], m2[k])
      {
        assert ProtocolMap(p1)[k] == ProtocolMap(p2)[k];
      }
    }
  }

  /** On lists with distinct names the comparison is symmetric and transitive. */
  lemma ProtocolsEqualIsEquivalence(p1: Protocols, p2: Protocols, p3: Protocols)
    requires DistinctProtocols(p1)
    ensures ProtocolsEqual(p1, p1)
    ensures ProtocolsEqual(p1, p2) ==> ProtocolsEqual(p2, p1)
    ensures ProtocolsEqual(p1, p2) && ProtocolsEqual(p2, p3) ==> ProtocolsEqual(p1, p3)
  {
    ProtocolsEqualIffSameMap(p1, p1);
    ProtocolsEqualIffSameMap(p1, p2);
    ProtocolsEqualIffSameMap(p1, p3);
    if ProtocolsEqual(p1, p2) {
      ProtocolsEqualIffSameMap(p2, p1);
      ProtocolsEqualIffSameMap(p2, p3);
    }
  }

  // ---- When names repeat ----

  /** The list without the entries whose name has come before. */
  function FirstOnly<V>(l: List<Entry<V>>): List<Entry<V>> {
    match l
    case End => End
    case Cell(e, next) => Cell(e, Without(FirstOnly(next), e.name))
  }

  function Without<V>(l: List<Entry<V>>, name: string): List<Entry<V>> {
    match l
    case End => End
    case Cell(e, next) => if e.name == name then Without(next, name) else Cell(e, Without(next, name))
  }

  lemma {:induction false} WithoutName<V>(l: List<Entry<V>>, name: string)
    requires DistinctNames(l)
    ensures DistinctNames(Without(l, name)) && !HasName(Without(l, name), name)
    ensures MapOf(Without(l, name)) == MapOf(l) - {name}
  {
    if l.Cell? {
      WithoutName(l.next, name);
      FindIsMap(l.next, l.item.name);
      FindIsMap(Without(l.next, name), l.item.name);
      FindIsMap(Without(l, name), name);
    }
  }

  lemma {:induction false} FirstOnlyIsDistinct<V>(l: List<Entry<V>>)
    ensures DistinctNames(FirstOnly(l)) && MapOf(FirstOnly(l)) == MapOf(l)
  {
    if l.Cell? {
      FirstOnlyIsDistinct(l.next);
      WithoutName(FirstOnly(l.next), l.item.name);
    }
  }

  /** Unless names are distinct, the list without its repeats is the same map and yet has another length. */
  lemma RepeatsHaveAnotherLength<V>(l: List<Entry<V>>)
    ensures Length(FirstOnly(l)) == Length(l) <==> DistinctNames(l)
  {
    FirstOnlyIsDistinct(l);
    NamesCount(l);
    NamesCount(FirstOnly(l));
  }

  /** For every list, comparing with it decides equality of maps exactly when its names are distinct. */
  lemma PairsDecidedIffDistinct(p1: Pairs)
    ensures DistinctNames(p1) <==> forall p2: Pairs ::
      PairsEqual(p1, p2) <==> DistinctNames(p2) && MapOf(p1) == MapOf(p2)
  {
    if DistinctNames(p1) {
      forall p2: Pairs
        ensures PairsEqual(p1, p2) <==> DistinctNames(p2) && MapOf(p1) == MapOf(p2)
      {
        PairsEqualIffSameMap(p1, p2);
      }
    } else {
      FirstOnlyIsDistinct(p1);
      RepeatsHaveAnotherLength(p1);
      assert !PairsEqual(p1, FirstOnly(p1));
    }
  }

  lemma AutoEventsDecidedIffDistinct(e1: AutoEvents)
    ensures DistinctNames(e1) <==> forall e2: AutoEvents ::
      AutoEventsEqual(e1, e2) <==> DistinctNames(e2) && MapOf(e1) == MapOf(e2)
  {
    if DistinctNames(e1) {
      forall e2: AutoEvents
        ensures AutoEventsEqual(e1, e2) <==> DistinctNames(e2) && MapOf(e1) == MapOf(e2)
      {
        AutoEventsEqualIffSameMap(e1, e2);
      }
    } else {
      FirstOnlyIsDistinct(e1);
      RepeatsHaveAnotherLength(e1);
      assert !AutoEventsEqual(e1, FirstOnly(e1));
    }
  }

  function FirstOnlyInside(p: Protocols): Protocols {
    match p
    case End => End
    case Cell(e, next) => Cell(Entry(e.name, FirstOnly(e.value)), FirstOnlyInside(next))
  }

  lemma {:induction false} FirstOnlyInsideKeeps(p: Protocols)
    ensures Length(FirstOnlyInside(p)) == Length(p) && MapOf(FirstOnlyInside(p)).Keys == MapOf(p).Keys
    ensures forall k :: k in MapOf(p) ==> MapOf(FirstOnlyInside(p))[k] == FirstOnly(MapOf(p)[k])
  {
    if p.Cell? {
      FirstOnlyInsideKeeps(p.next);
    }
  }

  /** Protocols without repeats at either level; the same maps. */
  function Cleaned(p: Protocols): Protocols {
    FirstOnly(FirstOnlyInside(p))
  }

  lemma CleanedIsDistinct(p: Protocols)
    ensures DistinctProtocols(Cleaned(p)) && ProtocolMap(Cleaned(p)) == ProtocolMap(p)
  {
    var inside := FirstOnlyInside(p);
    FirstOnlyInsideKeeps(p);
    FirstOnlyIsDistinct(inside);
    forall k | k in MapOf(p)
      ensures DistinctNames(MapOf(inside)[k]) && MapOf(MapOf(inside)[k]) == MapOf(MapOf(p)[k])
    {
      FirstOnlyIsDistinct(MapOf(p)[k]);
    }
  }

  lemma CleanedIsUnequal(p: Protocols)
    requires !DistinctProtocols(p)
    ensures !ProtocolsEqual(p, Cleaned(p))
  {
    var inside := FirstOnlyInside(p);
    FirstOnlyInsideKeeps(p);
    RepeatsHaveAnotherLength(inside);
    FirstOnlyIsDistinct(inside);
    NamesCount(p);
    NamesCount(inside);
    if DistinctNames(p) {
      var k :| k in MapOf(p) && !DistinctNames(MapOf(p)[k]);
      RepeatsHaveAnotherLength(MapOf(p)[k]);
      AllFoundIsSubmap(p, Cleaned(p), PairsEqual);
      assert MapOf(Cleaned(p))[k] == FirstOnly(MapOf(p)[k]);
      assert !PairsEqual(MapOf(p)[k], FirstOnly(MapOf(p)[k]));
    }
  }

  lemma ProtocolsDecidedIffDistinct(p1: Protocols)
    ensures DistinctProtocols(p1) <==>
      forall p2: Protocols :: ProtocolsEqual(p1, p2) <==> DistinctProtocols(p2) && ProtocolMap(p1) == ProtocolMap(p2)
  {
    if DistinctProtocols(p1) {
      forall p2: Protocols
        ensures ProtocolsEqual(p1, p2) <==> DistinctProtocols(p2) && ProtocolMap(p1) == ProtocolMap(p2)
      {
        ProtocolsEqualIffSameMap(p1, p2);
      }
    } else {
      CleanedIsDistinct(p1);
      CleanedIsUnequal(p1);
    }
  }

  predicate In<V(==)>(l: List<Entry<V>>, e: Entry<V>) {
    l.Cell? && (l.item == e || In(l.next, e))
  }

  /** No name stands for two different values. */
  ghost predicate Consistent<V(!new)>(l: List<Entry<V>>) {
    forall e, f :: In(l, e) && In(l, f) && e.name == f.name ==> e.value == f.value
  }

  lemma {:induction false} AllFoundMeans<V(!new)>(l: List<Entry<V>>, l2: List<Entry<V>>, same: (V, V) -> bool)
    ensures AllFound(l, l2, same) <==>
      forall e :: In(l, e) ==> HasName(l2, e.name) && same(e.value, Find(l2, e.name).item.value)
  {
    if l.Cell? {
      AllFoundMeans(l.next, l2, same);
      assert In(l, l.item);
      assert forall e :: In(l.next, e) ==> In(l, e);
    }
  }

  lemma {:induction false} FoundIsIn<V(!new)>(l: List<Entry<V>>, name: string)
    ensures HasName(l, name) <==> exists e :: In(l, e) && e.name == name
    ensures HasName(l, name) ==> In(l, Find(l, name).item)
  {
    if l.Cell? {
      FoundIsIn(l.next, name);
      assert In(l, l.item);
      assert forall e :: In(l.next, e) ==> In(l, e);
    }
  }

  /** A list whose values are compared by equality equals some list, itself for one, exactly when it is consistent. */
  lemma EqualsSomethingIffConsistent<V(!new)>(l: List<Entry<V>>, same: (V, V) -> bool)
    requires forall x: V, y: V :: same(x, y) <==> x == y
    ensures Consistent(l) <==> ListEqual(l, l, same)
    ensures Consistent(l) <==> exists l2 :: ListEqual(l, l2, same)
  {
    AllFoundMeans(l, l, same);
    if Consistent(l) {
      forall e | In(l, e)
        ensures HasName(l, e.name) && same(e.value, Find(l, e.name).item.value)
      {
        FoundIsIn(l, e.name);
      }
    }
    if l2 :| ListEqual(l, l2, same) {
      AllFoundMeans(l, l2, same);
      forall e, f | In(l, e) && In(l, f) && e.name == f.name
        ensures e.value == f.value
      {
      }
    }
  }

  lemma PairsEqualSomethingIffConsistent(p: Pairs)
    ensures Consistent(p) <==> PairsEqual(p, p)
    ensures Consistent(p) <==> exists p2: Pairs :: PairsEqual(p, p2)
  {
    EqualsSomethingIffConsistent(p, (v1: string, v2: string) => v1 == v2);
    if p2: Pairs :| PairsEqual(p, p2) {
      assert ListEqual(p, p2, (v1: string, v2: string) => v1 == v2);
    }
  }

  lemma AutoEventsEqualSomethingIffConsistent(e: AutoEvents)
    ensures Consistent(e) <==> AutoEventsEqual(e, e)
    ensures Consistent(e) <==> exists e2: AutoEvents :: AutoEventsEqual(e, e2)
  {
    EqualsSomethingIffConsistent(e, (s1: Schedule, s2: Schedule) => s1 == s2);
    if e2: AutoEvents :| AutoEventsEqual(e, e2) {
      assert ListEqual(e, e2, (s1: Schedule, s2: Schedule) => s1 == s2);
    }
  }

  // ---- Protocols that equal something ----

  function Concat<T>(a: List<T>, b: List<T>): List<T> {
    match a
    case End => b
    case Cell(x, next) => Cell(x, Concat(next, b))
  }

  /** All properties given under one protocol name, of whichever of its entries. */
  function AllUnder(p: Protocols, name: string): Pairs {
    match p
    case End => End
    case Cell(e, next) => if e.name == name then Concat(e.value, AllUnder(next, name)) else AllUnder(next, name)
  }

  /**
   * Under each protocol name the property lists are equally long, no property has two values, and there are no more
   * property names than fit one list of that length.
   */
  ghost predicate Matchable(p: Protocols) {
    forall e :: In(p, e) ==>
      && (forall f :: In(p, f) && f.name == e.name ==> Length(f.value) == Length(e.value))
      && Consistent(AllUnder(p, e.name))
      && |MapOf(AllUnder(p, e.name)).Keys| <= Length(e.value)
  }

  lemma {:induction false} InConcat<V(!new)>(a: List<Entry<V>>, b: List<Entry<V>>, x: Entry<V>)
    ensures In(Concat(a, b), x) <==> In(a, x) || In(b, x)
  {
    if a.Cell? {
      InConcat(a.next, b, x);
    }
  }

  lemma {:induction false} InAllUnder(p: Protocols, name: string, x: Entry<string>)
    ensures In(AllUnder(p, name), x) <==> exists e :: In(p, e) && e.name == name && In(e.value, x)
  {
    if p.Cell? {
      InAllUnder(p.next, name, x);
      InConcat(p.item.value, AllUnder(p.next, name), x);
      assert In(p, p.item);
      assert forall e :: In(p.next, e) ==> In(p, e);
    }
  }

  lemma PairsEqualMeans(v: Pairs, w: Pairs)
    ensures PairsEqual(v, w) <==>
      Length(v) == Length(w) && forall x :: In(v, x) ==> HasName(w, x.name) && x.value == Find(w, x.name).item.value
  {
    AllFoundMeans(v, w, (v1: string, v2: string) => v1 == v2);
  }

  lemma ProtocolsEqualMeans(p: Protocols, q: Protocols)
    ensures ProtocolsEqual(p, q) <==>
      Length(p) == Length(q)
      && forall e :: In(p, e) ==> HasName(q, e.name) && PairsEqual(e.value, Find(q, e.name).item.value)
  {
    AllFoundMeans(p, q, PairsEqual);
  }

  /** Everything under one name is compared with one list, so it is found there. */
  lemma EqualIsMatchable(p: Protocols, q: Protocols)
    requires ProtocolsEqual(p, q)
    ensures Matchable(p)
  {
    ProtocolsEqualMeans(p, q);
    forall e | In(p, e)
      ensures forall f :: In(p, f) && f.name == e.name ==> Length(f.value) == Length(e.value)
      ensures Consistent(AllUnder(p, e.name)) && |MapOf(AllUnder(p, e.name)).Keys| <= Length(e.value)
    {
      var (w, all) := (Find(q, e.name).item.value, AllUnder(p, e.name));
      forall x | In(all, x)
        ensures HasName(w, x.name) && x.value == Find(w, x.name).item.value
      {
        InAllUnder(p, e.name, x);
        var f :| In(p, f) && f.name == e.name && In(f.value, x);
        PairsEqualMeans(f.value, w);
      }
      NamesWithin(all, w);
    }
  }

  lemma NamesWithin(all: Pairs, w: Pairs)
    requires forall x :: In(all, x) ==> HasName(w, x.name)
    ensures |MapOf(all).Keys| <= Length(w)
  {
    forall k | k in MapOf(all)
      ensures k in MapOf(w)
    {
      FindIsMap(all, k);
      FoundIsIn(all, k);
      FindIsMap(w, k);
    }
    SubsetCount(MapOf(all).Keys, MapOf(w).Keys);
    NamesCount(w);
  }

  /** The list made longer by repeating its first entry. */
  function Pad<V>(l: List<Entry<V>>, n: nat): List<Entry<V>> {
    if n == 0 || l.End? then l else Cell(l.item, Pad(l, n - 1))
  }

  lemma {:induction false} Padded<V>(l: List<Entry<V>>, n: nat)
    requires l.Cell?
    ensures Length(Pad(l, n)) == Length(l) + n && MapOf(Pad(l, n)) == MapOf(l)
  {
    if n > 0 {
      Padded(l, n - 1);
    }
  }

  /** A list of the given length that is found to hold all of `all`. */
  function Target(all: Pairs, length: nat): Pairs
    requires |MapOf(all).Keys| <= length
  {
    Pad(FirstOnly(all), length - |MapOf(all).Keys|)
  }

  lemma TargetIs(all: Pairs, length: nat)
    requires |MapOf(all).Keys| <= length && (all.End? ==> length == 0)
    ensures Length(Target(all, length)) == length && MapOf(Target(all, length)) == MapOf(all)
  {
    FirstOnlyIsDistinct(all);
    NamesCount(FirstOnly(all));
    if all.Cell? {
      Padded(FirstOnly(all), length - |MapOf(all).Keys|);
    }
  }

  /** Each entry of `rest` with, in place of its properties, a list that all properties under its name are found in. */
  ghost function Targets(rest: Protocols, p: Protocols): Protocols
    requires Matchable(p) && forall e :: In(rest, e) ==> In(p, e)
  {
    match rest
    case End => End
    case Cell(e, next) =>
      assert In(rest, e) && forall f :: In(next, f) ==> In(rest, f);
      Cell(Entry(e.name, Target(AllUnder(p, e.name), Length(e.value))), Targets(next, p))
  }

  lemma {:induction false} TargetsFound(rest: Protocols, p: Protocols, e: Entry<Pairs>)
    requires Matchable(p) && (forall f :: In(rest, f) ==> In(p, f)) && In(p, e)
    ensures Length(Targets(rest, p)) == Length(rest)
    ensures HasName(Targets(rest, p), e.name) <==> HasName(rest, e.name)
    ensures HasName(rest, e.name) ==>
      Find(Targets(rest, p), e.name).item.value == Target(AllUnder(p, e.name), Length(e.value))
  {
    if rest.Cell? {
      assert In(rest, rest.item) && forall f :: In(rest.next, f) ==> In(rest, f);
      TargetsFound(rest.next, p, e);
    }
  }

  lemma MatchableIsEqual(p: Protocols)
    requires Matchable(p)
    ensures ProtocolsEqual(p, Targets(p, p))
  {
    var q := Targets(p, p);
    forall e | In(p, e)
      ensures HasName(q, e.name) && PairsEqual(e.value, Find(q, e.name).item.value)
    {
      FoundIsIn(p, e.name);
      TargetsFound(p, p, e);
      EqualsTarget(p, e);
    }
    if p.Cell? {
      TargetsFound(p, p, p.item);
    }
    ProtocolsEqualMeans(p, q);
  }

  lemma EqualsTarget(p: Protocols, e: Entry<Pairs>)
    requires Matchable(p) && In(p, e)
    ensures PairsEqual(e.value, Target(AllUnder(p, e.name), Length(e.value)))
  {
    var all := AllUnder(p, e.name);
    var w := Target(all, Length(e.value));
    if e.value.Cell? {
      InAllUnder(p, e.name, e.value.item);
    }
    TargetIs(all, Length(e.value));
    forall x | In(e.value, x)
      ensures HasName(w, x.name) && x.value == Find(w, x.name).item.value
    {
      InAllUnder(p, e.name, x);
      FoundIsIn(all, x.name);
      FindIsMap(all, x.name);
      FindIsMap(w, x.name);
    }
    PairsEqualMeans(e.value, w);
  }

  /** A list of protocols compares equal to some list exactly when it is matchable, repeated names or not. */
  lemma ProtocolsEqualSomethingIffMatchable(p: Protocols)
    ensures Matchable(p) <==> exists q: Protocols :: ProtocolsEqual(p, q)
  {
    if Matchable(p) {
      MatchableIsEqual(p);
    }
    if q: Protocols :| ProtocolsEqual(p, q) {
      EqualIsMatchable(p, q);
    }
  }

  /** With a repeated name in the first list the comparison can hold one way only. */
  lemma RepeatedNamesAreOneWay()
    ensures var a := Entry("a", "1");
      var repeated: Pairs := Cell(a, Cell(a, End));
      var other: Pairs := Cell(a, Cell(Entry("b", "2"), End));
      PairsEqual(repeated, other) && !PairsEqual(other, repeated) && MapOf(repeated) != MapOf(other)
  {
    var a := Entry("a", "1");
    var repeated: Pairs := Cell(a, Cell(a, End));
    var other: Pairs := Cell(a, Cell(Entry("b", "2"), End));
    assert "a" != "b";
    assert Find(repeated, "b") == Find(Cell(a, End), "b") == Find<string>(End, "b") == End;
    assert "b" in MapOf(other);
    FindIsMap(repeated, "b");
  }
}
