/** Frames of fields, each closed by a '#', and how the service takes one apart. */
module Frames {
  import opened CString
  import JsonParse

  /** strstr: the first place at or after `pos` where `x` occurs. */
  function Strstr(text: string, pos: nat, x: string): (r: Option<nat>)
    requires pos <= |text| && x != ""
    ensures r.Some? ==> pos <= r.value && StartsWith(text, r.value, x)
    ensures forall k :: pos <= k < (if r.Some? then r.value else |text|) ==> !StartsWith(text, k, x)
    decreases |text| - pos
  {
    if StartsWith(text, pos, x) then Some(pos)
    else if pos == |text| then None
    else Strstr(text, pos + 1, x)
  }

  lemma {:induction false} StrstrSkips(text: string, pos: nat, next: nat, x: string)
    requires pos <= next <= |text| && x != ""
    requires forall k :: pos <= k < next ==> !StartsWith(text, k, x)
    ensures Strstr(text, pos, x) == Strstr(text, next, x)
    decreases next - pos
  {
    if pos < next {
      StrstrSkips(text, pos + 1, next, x);
    }
  }

  /** A field taken off the front, and where the caller's pointer is left. */
  datatype Taken = Taken(value: string, next: nat)

  /** takeString. Without a '#' ahead its behaviour is undefined: None. */
  function TakeString(text: string, pos: nat): (r: Option<Taken>)
    requires pos <= |text|
    ensures r.Some? ==> pos < r.value.next <= |text|
  {
    match Strstr(text, pos, "#")
    case None => None
    case Some(i) => Some(Taken(text[pos..i], i + 1))
  }

  /** The next `n` fields. */
  function TakeFields(text: string, pos: nat, n: nat): (r: Option<seq<string>>)
    requires pos <= |text|
    ensures r.Some? ==> |r.value| == n
    decreases n
  {
    if n == 0 then Some([])
    else
      match TakeString(text, pos)
      case None => None
      case Some(first) =>
        match TakeFields(text, first.next, n - 1)
        case None => None
        case Some(rest) => Some([first.value] + rest)
  }

  const INT_MAX: int := 0x7FFF_FFFF

  /** atoi: white space, a sign and digits; None when the number does not fit an int. */
  function Atoi(s: string): (r: Option<int>)
    ensures r.Some? ==> -INT_MAX - 1 <= r.value <= INT_MAX
  {
    var start := JsonParse.SkipSpaces(s, 0);
    var first := if At(s, start) == '-' || At(s, start) == '+' then start + 1 else start;
    var value: int := JsonParse.DigitsValue(s[first..JsonParse.DigitsEnd(s, first)]);
    var signed := if At(s, start) == '-' then -value else value;
    if -INT_MAX - 1 <= signed <= INT_MAX then Some(signed) else None
  }

  /** An int stored in a 64-bit unsigned field. */
  function ToUint64(v: int): int {
    if v < 0 then v + 0x1_0000_0000_0000_0000 else v
  }

  /** What takeValue leaves: no "value#" in the text, a read past its end, or the values. */
  datatype ValueList = Missing | Overrun | Values(list: seq<string>)

  const MARK := "value#"

  function TakeValue(text: string, size: nat): (r: ValueList)
    ensures r.Values? ==> |r.list| == size
  {
    match Strstr(text, 0, MARK)
    case None => Missing
    case Some(k) =>
      match TakeFields(text, k + |MARK|, size)
      case None => Overrun
      case Some(list) => Values(list)
  }

  datatype Event = Event(name: string, origin: int, command: string, values: seq<string>)

  /**
   * takeEvent. None when its behaviour, or that of reading and freeing its result, is undefined:
   * a missing '#', a number too large, a negative size, or values that are not there.
   */
  function TakeEvent(text: string): (r: Option<Event>) {
    match TakeFields(text, 0, 4)
    case None => None
    case Some(head) =>
      var origin, size := Atoi(head[1]), Atoi(head[3]);
      if origin.None? || size.None? || size.value < 0 then None
      else
        match TakeValue(text, size.value)
        case Overrun => None
        case Missing => if size.value == 0 then Some(Event(head[0], ToUint64(origin.value), head[2], [])) else None
        case Values(list) => Some(Event(head[0], ToUint64(origin.value), head[2], list))
  }

  // ---- The code ----

  /** The pointer takeString moves. */
  class Cursor {
    const text: string
    var pos: nat

    constructor (text: string)
      ensures this.text == text && pos == 0
    {
      this.text := text;
      pos := 0;
    }

    method Take() returns (r: Option<string>)
      requires pos <= |text|
      modifies this
      ensures pos <= |text|
      ensures r.None? <==> TakeString(text, old(pos)).None?
      ensures r.Some? ==> TakeString(text, old(pos)) == Some(Taken(r.value, pos))
      ensures r.None? ==> pos == old(pos)
    {
      var find := Strstr(text, pos, "#");
      if find.None? {
        return None;
      }
      var n := find.value - pos;
      r := Some(text[pos..pos + n]);
      pos := pos + n + 1;
    }
  }

  method ReadEvent(text: string) returns (r: Option<Event>)
    ensures r == TakeEvent(text)
  {
    var head := ReadHead(text);
    if head.None? {
      return None;
    }
    hide TakeFields, Atoi, TakeValue, TakeString;
    var (origin, size) := (Atoi(head.value[1]), Atoi(head.value[3]));
    if origin.None? || size.None? || size.value < 0 {
      return None;
    }
    var values := new string[size.value];
    var outcome := FillValues(text, values);
    if outcome.Overrun? || (outcome.Missing? && size.value > 0) {
      return None;
    }
    return Some(Event(head.value[0], ToUint64(origin.value), head.value[2], values[..]));
  }

  /** The four calls of takeString. */
  method ReadHead(text: string) returns (r: Option<seq<string>>)
    ensures r == TakeFields(text, 0, 4)
  {
    hide TakeString, TakeFields;
    var cursor := new Cursor(text);
    PrependedToNone(TakeFields(text, 0, 4));
    TakingOne([], text, cursor.pos, 4);
    var name := cursor.Take();
    if name.None? {
      return None;
    }
    assert [] + [name.value] == [name.value];
    TakingOne([name.value], text, cursor.pos, 3);
    var origin := cursor.Take();
    if origin.None? {
      return None;
    }
    assert [name.value] + [origin.value] == [name.value, origin.value];
    TakingOne([name.value, origin.value], text, cursor.pos, 2);
    var command := cursor.Take();
    if command.None? {
      return None;
    }
    assert [name.value, origin.value] + [command.value] == [name.value, origin.value, command.value];
    TakingOne([name.value, origin.value, command.value], text, cursor.pos, 1);
    var size := cursor.Take();
    if size.None? {
      return None;
    }
    assert [name.value, origin.value, command.value] + [size.value]
      == [name.value, origin.value, command.value, size.value];
    r := Some([name.value, origin.value, command.value, size.value]);
    TakingNone(r.value, text, cursor.pos);
  }

  lemma PrependedToNone(rest: Option<seq<string>>)
    ensures Prepended([], rest) == rest
  {
    if rest.Some? {
      assert [] + rest.value == rest.value;
    }
  }

  ghost function Prepended(done: seq<string>, rest: Option<seq<string>>): Option<seq<string>> {
    match rest
    case None => None
    case Some(r) => Some(done + r)
  }

  lemma TakingOne(done: seq<string>, text: string, pos: nat, n: nat)
    requires pos <= |text| && n > 0
    ensures TakeString(text, pos).None? ==> Prepended(done, TakeFields(text, pos, n)) == None
    ensures TakeString(text, pos).Some? ==>
      var t := TakeString(text, pos).value;
      Prepended(done, TakeFields(text, pos, n)) == Prepended(done + [t.value], TakeFields(text, t.next, n - 1))
  {
    hide TakeString;
    if TakeString(text, pos).Some? {
      var t := TakeString(text, pos).value;
      var rest := TakeFields(text, t.next, n - 1);
      if rest.Some? {
        assert done + ([t.value] + rest.value) == done + [t.value] + rest.value;
      }
    }
  }

  lemma TakingNone(done: seq<string>, text: string, pos: nat)
    requires pos <= |text|
    ensures Prepended(done, TakeFields(text, pos, 0)) == Some(done)
  {
    assert done + [] == done;
  }

  /** The loops of takeValue, filling `values`. */
  method FillValues(text: string, values: array<string>) returns (outcome: ValueList)
    modifies values
    ensures outcome == TakeValue(text, values.Length)
    ensures outcome.Values? ==> values[..] == outcome.list
  {
    var found := Strstr(text, 0, MARK);
    if found.None? {
      return Missing;
    }
    hide TakeFields;
    var inside := FillFrom(text, found.value + |MARK|, values);
    return if inside then Values(values[..]) else Overrun;
  }

  method FillFrom(text: string, start: nat, values: array<string>) returns (inside: bool)
    requires start <= |text|
    modifies values
    ensures inside == TakeFields(text, start, values.Length).Some?
    ensures inside ==> TakeFields(text, start, values.Length) == Some(values[..])
  {
    hide *;
    ghost var done;
    inside, done := FillLoop(text, start, values);
    assert inside ==> values[..] == done;
  }

  method FillLoop(text: string, start: nat, values: array<string>) returns (inside: bool, ghost done: seq<string>)
    requires start <= |text|
    modifies values
    ensures TakeFields(text, start, values.Length) == if inside then Some(done) else None
    ensures inside ==> |done| == values.Length && forall k :: 0 <= k < |done| ==> values[k] == done[k]
  {
    ghost var all := TakeFields(text, start, values.Length);
    PrependedToNone(all);
    hide *;
    var find: nat := start;
    done := [];
    for i := 0 to values.Length
      invariant find <= |text| && |done| == i
      invariant forall k :: 0 <= k < i ==> values[k] == done[k]
      invariant Prepended(done, TakeFields(text, find, values.Length - i)) == all
    {
      TakingOne(done, text, find, values.Length - i);
      var ok, next, value := FillOne(text, find, values, i);
      if !ok {
        return false, done;
      }
      done := done + [value];
      find := next;
    }
    TakingNone(done, text, find);
    return true, done;
  }

  method FillOne(text: string, find: nat, values: array<string>, i: nat)
    returns (ok: bool, next: nat, ghost value: string)
    requires find <= |text| && i < values.Length
    modifies values
    ensures next <= |text| && TakeString(text, find) == if ok then Some(Taken(value, next)) else None
    ensures ok ==> values[i] == value
    ensures forall k :: 0 <= k < i ==> values[k] == old(values[k])
  {
    hide *;
    var count := CountToHash(text, find);
    if find + count == |text| {
      return false, find, "";
    }
    value := text[find..find + count];
    values[i] := text[find..find + count];
    return true, find + count + 1, value;
  }

  /** The inner loop: how far the next '#' is, or the end of the text. */
  method CountToHash(text: string, find: nat) returns (count: nat)
    requires find <= |text|
    ensures find + count <= |text|
    ensures find + count == |text| ==> TakeString(text, find) == None
    ensures find + count < |text| ==> TakeString(text, find) == Some(Taken(text[find..find + count], find + count + 1))
  {
    count := 0;
    while find + count < |text| && text[find + count] != '#'
      invariant find + count <= |text|
      invariant forall k :: find <= k < find + count ==> !StartsWith(text, k, "#")
    {
      count := count + 1;
    }
    StrstrSkips(text, find, find + count, "#");
  }
}
