/** The values Parson builds, and the two library calls its number code makes. */
module JsonValue {
  import opened CString

  const MAX_NESTING := 2048
  const UINT64_MAX := 0xFFFF_FFFF_FFFF_FFFF

  /** An object keeps its names and values in insertion order. */
  datatype Json =
    | Null
    | Bool(b: bool)
    | Uint(n: nat)
    | Number(x: real)
    | Str(s: string)
    | Arr(items: seq<Json>)
    | Obj(fields: seq<Field>)

  datatype Field = Field(name: string, value: Json)

  /** What strtod reports: bytes consumed, whether it set no error and gave a finite number, and the number. */
  datatype Strtod = Strtod(length: nat, clean: bool, value: real)

  /** strtod and sprintf("%1.17g") belong to the C library; they are parameters here. */
  datatype LibC = LibC(strtod: (string, nat) -> Strtod, format: real -> string)

  function Names(fields: seq<Field>): seq<string> {
    seq(|fields|, i requires 0 <= i < |fields| => fields[i].name)
  }

  predicate HasName(fields: seq<Field>, name: string) {
    exists i :: 0 <= i < |fields| && fields[i].name == name
  }

  predicate Distinct(fields: seq<Field>) {
    forall i, j :: 0 <= i < j < |fields| ==> fields[i].name != fields[j].name
  }

  /** The index json_object_getn_value stops at, or the count when the name is absent. */
  function IndexOf(fields: seq<Field>, name: string): (i: nat)
    ensures i <= |fields|
    ensures i < |fields| ==> fields[i].name == name
    ensures forall j :: 0 <= j < i ==> fields[j].name != name
  {
    if fields == [] then 0
    else if fields[0].name == name then 0
    else 1 + IndexOf(fields[1..], name)
  }

  /** Trees that C code can hold: zero-free strings, 64-bit integers, distinct names in every object. */
  predicate WellFormed(v: Json) {
    match v
    case Uint(n) => n <= UINT64_MAX
    case Str(s) => NulFree(s)
    case Arr(items) => forall i :: 0 <= i < |items| ==> WellFormed(items[i])
    case Obj(fields) =>
      && Distinct(fields)
      && forall i :: 0 <= i < |fields| ==> NulFree(fields[i].name) && WellFormed(fields[i].value)
    case _ => true
  }

  predicate NumberFree(v: Json) {
    match v
    case Number(_) => false
    case Arr(items) => forall i :: 0 <= i < |items| ==> NumberFree(items[i])
    case Obj(fields) => forall i :: 0 <= i < |fields| ==> NumberFree(fields[i].value)
    case _ => true
  }

  function Max(a: nat, b: nat): nat {
    if a < b then b else a
  }

  /** How far below `v` its deepest leaf lies; an empty container counts as a leaf. */
  function Nesting(v: Json): nat
    decreases v, 1
  {
    match v
    case Arr(items) => if items == [] then 0 else 1 + NestingOfItems(items)
    case Obj(fields) => if fields == [] then 0 else 1 + NestingOfFields(fields)
    case _ => 0
  }

  function NestingOfItems(items: seq<Json>): nat
    decreases items, 0
  {
    if items == [] then 0 else Max(Nesting(items[0]), NestingOfItems(items[1..]))
  }

  function NestingOfFields(fields: seq<Field>): nat
    decreases fields, 0
  {
    if fields == [] then 0 else Max(Nesting(fields[0].value), NestingOfFields(fields[1..]))
  }
}
