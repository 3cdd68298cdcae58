/** The other end of the wire: the script that plays a device. */
module DeviceScript {
  import opened CString
  import opened Frames
  import opened FrameFacts
  import opened JsonParse
  import opened JsonPrint

  const MAC := "29081997"
  const PROFILE := "ExampleSensor"
  const MODEL := "BKHN"

  /** str.split('#'). */
  function Split(s: string): (r: seq<string>)
    ensures |r| >= 1
    decreases |s|
  {
    match Strstr(s, 0, "#")
    case None => [s]
    case Some(i) => [s[..i]] + Split(s[i + 1..])
  }

  /** int(s): white space around an optional sign and digits; None when it raises ValueError. */
  function ParseInt(s: string): Option<int> {
    var start := SkipSpaces(s, 0);
    var first := if At(s, start) == '-' || At(s, start) == '+' then start + 1 else start;
    var end := DigitsEnd(s, first);
    var value: int := DigitsValue(s[first..end]);
    if end == first || SkipSpaces(s, end) < |s| then None
    else Some(if At(s, start) == '-' then -value else value)
  }

  /** arr[4 : 4 + n]. */
  function FromFour(arr: seq<string>, n: int): seq<string> {
    var stop := if 4 + n < 0 then 4 + n + |arr| else if 4 + n > |arr| then |arr| else 4 + n;
    if 4 <= stop then arr[4..stop] else []
  }

  /** str.find: the first index of `c`, or -1. */
  function FindChar(s: string, c: char): (r: int)
    ensures -1 <= r < |s|
    ensures r >= 0 ==> s[r] == c && c !in s[..r]
    ensures r == -1 ==> c !in s
  {
    if s == "" then -1
    else if s[0] == c then 0
    else
      var rest := FindChar(s[1..], c);
      assert s == [s[0]] + s[1..];
      if rest == -1 then -1
      else
        assert s[..rest + 1] == [s[0]] + s[1..][..rest];
        rest + 1
  }

  /** How set_value takes an assignment apart. With no ':' the index is -1, which Python counts from the end. */
  function Assignment(s: string): (string, string) {
    var index := FindChar(s, ':');
    if index == -1 then (if s == "" then "" else s[..|s| - 1], s) else (s[..index], s[index + 1..])
  }

  function SwitchAfter(current: string, s: string): string {
    if Assignment(s).0 == "Switch" then Assignment(s).1 else current
  }

  function SwitchAfterAll(current: string, arr: seq<string>): string
    decreases |arr|
  {
    if arr == [] then current else SwitchAfterAll(SwitchAfter(current, arr[0]), arr[1..])
  }

  lemma {:induction false} SwitchAfterOneMore(current: string, arr: seq<string>, s: string)
    ensures SwitchAfterAll(current, arr + [s]) == SwitchAfter(SwitchAfterAll(current, arr), s)
    decreases |arr|
  {
    if arr == [] {
      assert arr + [s] == [s];
    } else {
      SwitchAfterOneMore(SwitchAfter(current, arr[0]), arr[1..], s);
      assert (arr + [s])[1..] == arr[1..] + [s];
    }
  }

  /** get_value; a sensor reads as a number drawn at random. */
  function Reading(current: string, resource: string, draw: nat): string {
    if resource == "SensorOne" || resource == "SensorTwo" then Decimal(draw)
    else if resource == "Switch" then current
    else ""
  }

  function Readings(current: string, arr: seq<string>, draws: nat -> nat): (r: seq<string>)
    ensures |r| == |arr|
    ensures forall i :: 0 <= i < |arr| ==> r[i] == Reading(current, arr[i], draws(i))
  {
    seq(|arr|, i requires 0 <= i < |arr| => Reading(current, arr[i], draws(i)))
  }

  lemma {:induction false} JoinedOneMore(fields: seq<string>, last: string)
    ensures Joined(fields + [last]) == Joined(fields) + last + "#"
  {
    if fields == [] {
      assert fields + [last] == [last];
    } else {
      JoinedOneMore(fields[1..], last);
      assert (fields + [last])[1..] == fields[1..] + [last];
    }
  }

  /** What a message makes the script do; the two exceptions end the handling of it. */
  datatype Outcome = Silent | Published(text: string) | IndexError | ValueError

  /** The template of a reply. The size is echoed as the text that arrived. */
  function GetReply(name: string, origin: nat, size: string, values: string): string {
    "b#" + name + "#" + Decimal(origin) + "#repget#" + size + "#value#" + values + "\n"
  }

  function DiscoveryReply(name: string): string {
    "d#" + name + "#" + MAC + "#" + PROFILE + "#" + MODEL + "#\n"
  }

  function RepGetOutcome(name: string, current: string, arr: seq<string>, origin: nat, draws: nat -> nat): Outcome {
    if |arr| <= 3 then IndexError
    else
      match ParseInt(arr[3])
      case None => ValueError
      case Some(n) =>
        var readings := Readings(current, FromFour(arr, n), draws);
        if "" in readings || readings == [] then Silent
        else Published(GetReply(name, origin, arr[3], Joined(readings)))
  }

  /** device_push_edgex. */
  function PushText(name: string, current: string, command: string, resources: seq<string>,
                    origin: nat, draws: nat -> nat): string {
    var readings := Readings(current, resources, draws);
    if "" in readings || readings == [] then ""
    else
      "a#" + name + "#" + Decimal(origin) + "#" + command + "#" + Decimal(|resources|) + "#value#"
      + Joined(readings) + "\n"
  }

  class Device {
    var myName: string
    var address: Option<string>
    var switchValue: string

    constructor (name: string)
      ensures myName == name && address == None && switchValue == "false"
    {
      myName := name;
      address := None;
      switchValue := "false";
    }

    method SetValue(s: string)
      modifies this`switchValue
      ensures switchValue == SwitchAfter(old(switchValue), s)
    {
      var index := FindChar(s, ':');
      var stop := if index == -1 then (if s == "" then 0 else |s| - 1) else index;
      if s[..stop] == "Switch" {
        switchValue := s[index + 1..];
      }
    }

    method SetArrValues(arr: seq<string>)
      modifies this`switchValue
      ensures switchValue == SwitchAfterAll(old(switchValue), arr)
    {
      for i := 0 to |arr|
        invariant switchValue == SwitchAfterAll(old(switchValue), arr[..i])
      {
        SwitchAfterOneMore(old(switchValue), arr[..i], arr[i]);
        assert arr[..i + 1] == arr[..i] + [arr[i]];
        SetValue(arr[i]);
      }
      assert arr[..|arr|] == arr;
    }

    /** get_arr_value: one unknown resource, or an empty value, empties the whole answer. */
    method GetArrValue(arr: seq<string>, draws: nat -> nat) returns (values: string)
      ensures "" in Readings(switchValue, arr, draws) ==> values == ""
      ensures "" !in Readings(switchValue, arr, draws) ==> values == Joined(Readings(switchValue, arr, draws))
    {
      ghost var all := Readings(switchValue, arr, draws);
      values := "";
      for i := 0 to |arr|
        invariant "" !in all[..i] && values == Joined(all[..i])
      {
        var value := Reading(switchValue, arr[i], draws(i));
        assert all[..i + 1] == all[..i] + [value];
        if value == "" {
          assert all[i] == "";
          return "";
        }
        JoinedOneMore(all[..i], value);
        values := values + value + "#";
      }
      assert all[..|arr|] == all;
    }

    method PushEdgex(command: string, resources: seq<string>, origin: nat, draws: nat -> nat) returns (text: string)
      ensures text == PushText(myName, switchValue, command, resources, origin, draws)
    {
      var values := GetArrValue(resources, draws);
      JoinedIsEmpty(Readings(switchValue, resources, draws));
      if values == "" {
        return "";
      }
      return "a#" + myName + "#" + Decimal(origin) + "#" + command + "#" + Decimal(|resources|) + "#value#" + values
        + "\n";
    }

    method RepGet(arr: seq<string>, origin: nat, draws: nat -> nat) returns (outcome: Outcome)
      ensures outcome == RepGetOutcome(myName, switchValue, arr, origin, draws)
    {
      if |arr| <= 3 {
        return IndexError;
      }
      var size := ParseInt(arr[3]);
      if size.None? {
        return ValueError;
      }
      var values := GetArrValue(FromFour(arr, size.value), draws);
      JoinedIsEmpty(Readings(switchValue, FromFour(arr, size.value), draws));
      if values == "" {
        return Silent;
      }
      return Published(GetReply(myName, origin, arr[3], values));
    }

    method RepPut(arr: seq<string>) returns (outcome: Outcome)
      modifies this`switchValue
      ensures |arr| <= 3 ==> outcome == IndexError && switchValue == old(switchValue)
      ensures |arr| > 3 && ParseInt(arr[3]).None? ==> outcome == ValueError && switchValue == old(switchValue)
      ensures |arr| > 3 && ParseInt(arr[3]).Some? ==>
        outcome == Silent && switchValue == SwitchAfterAll(old(switchValue), FromFour(arr, ParseInt(arr[3]).value))
    {
      if |arr| <= 3 {
        return IndexError;
      }
      var size := ParseInt(arr[3]);
      if size.None? {
        return ValueError;
      }
      SetArrValues(FromFour(arr, size.value));
      return Silent;
    }

    /** device_repadd_device. The name is assigned before a missing address raises. */
    method RepAddDevice(arr: seq<string>) returns (outcome: Outcome)
      requires |arr| > 1
      modifies this`myName, this`address
      ensures var named := arr[1] == old(myName) && |arr| > 3 && arr[2] == MAC;
        && myName == (if named then arr[3] else old(myName))
        && address == (if named && |arr| > 4 then Some(arr[4]) else old(address))
      ensures outcome.Silent? || outcome.IndexError?
    {
      if arr[1] != myName {
        return Silent;
      }
      if |arr| <= 2 {
        return IndexError;
      }
      if arr[2] != MAC {
        return Silent;
      }
      if |arr| <= 3 {
        return IndexError;
      }
      myName := arr[3];
      if |arr| <= 4 {
        return IndexError;
      }
      address := Some(arr[4]);
      return Silent;
    }

    /** receive_proccess_edgex: a message for another device changes nothing. */
    method Receive(input: string, origin: nat, draws: nat -> nat) returns (outcome: Outcome)
      modifies this
      ensures var arr := Split(input);
        if |arr| == 1 then outcome == IndexError && unchanged(this)
        else if arr[1] != old(myName) then outcome == Silent && unchanged(this)
        else if arr[0] == "b" then
          outcome == RepGetOutcome(old(myName), old(switchValue), arr, origin, draws) && unchanged(this)
        else if arr[0] == "c" then
          && unchanged(`myName) && unchanged(`address)
          && (|arr| > 3 && ParseInt(arr[3]).Some? ==>
               outcome == Silent
               && switchValue == SwitchAfterAll(old(switchValue), FromFour(arr, ParseInt(arr[3]).value)))
          && (|arr| <= 3 || ParseInt(arr[3]).None? ==> unchanged(this) && (outcome.IndexError? || outcome.ValueError?))
        else if arr[0] == "d" then outcome == Published(DiscoveryReply(old(myName))) && unchanged(this)
        else if arr[0] == "e" then
          && unchanged(`switchValue)
          && myName == (if |arr| > 3 && arr[2] == MAC then arr[3] else old(myName))
          && address == (if |arr| > 4 && arr[2] == MAC then Some(arr[4]) else old(address))
        else outcome == Silent && unchanged(this)
    {
      var arr := Split(input);
      hide *;
      if |arr| == 1 {
        outcome := IndexError;
      } else if arr[1] != myName {
        outcome := Silent;
      } else if arr[0] == "b" {
        outcome := RepGet(arr, origin, draws);
      } else if arr[0] == "c" {
        outcome := RepPut(arr);
      } else if arr[0] == "d" {
        outcome := Published(DiscoveryReply(myName));
      } else if arr[0] == "e" {
        outcome := RepAddDevice(arr);
      } else {
        outcome := Silent;
      }
    }
  }

  lemma JoinedIsEmpty(fields: seq<string>)
    ensures Joined(fields) == "" <==> fields == []
  {
  }
}
