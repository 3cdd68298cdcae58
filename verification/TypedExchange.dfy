/** A setting sent to the device and read back as a typed value: the whole way there and back. */
module TypedExchange {
  import Base64
  import opened CString
  import opened DeviceScript
  import opened FrameFacts
  import opened FrameRoundTrip
  import opened Frames
  import opened JsonPrint
  import opened ReplyMatching

  /** What one field stands for decides what is read for it. */
  lemma OneField(scan: Scanner, device: string, t: ValueType, event: Event, field: string, r: ReadResult)
    requires event.name == device && event.values == [field] && ReadsAs(scan, device, [t], Some(event), r)
    ensures !r.Undefined?
    ensures forall value :: r == Got([value]) <==> Stands(scan, t, field, value)
    ensures r.Refused? <==> !CanStand(scan, t, field)
  {
    hide Stands;
    forall value
      ensures AllStand(scan, [t], [field], [value]) <==> Stands(scan, t, field, value)
    {
      assert AllStand(scan, [t], [field], [value]) ==> Stands(scan, [t][0], [field][0], [value][0]);
    }
    if r.Got? {
      assert r.readings == [r.readings[0]];
      forall value | Stands(scan, t, field, value)
        ensures r == Got([value])
      {
        FirstStands(scan, t, field, value);
        FirstStands(scan, t, field, r.readings[0]);
      }
    }
  }

  /** For each type, what the field must be and what it then stands for. */
  lemma WhatItStandsFor(scan: Scanner, field: string, data: seq<Base64.byte>)
    ensures Stands(scan, TString, field, Text(field))
    ensures SpellsTrue(field) ==> Stands(scan, TBool, field, Truth(true))
    ensures SpellsFalse(field) ==> Stands(scan, TBool, field, Truth(false))
    ensures CanStand(scan, TBool, field) ==> SpellsTrue(field) || SpellsFalse(field)
    ensures Base64.IsTextOf(field, data) ==> Stands(scan, TBinary, field, Binary(data))
  {
    if Base64.IsTextOf(field, data) {
      Base64.BytesOfText(field, data, data);
    }
    hide Base64.IsTextOf, Base64.IsText, Base64.AreBytesOf, SpellsTrue, SpellsFalse;
  }

  lemma LastOneCounts(current: string, earlier: seq<Setting>, v: string)
    ensures SwitchSet(current, earlier + [Setting("Switch", v)]) == v
  {
  }

  /**
   * A PUT whose last setting gives the switch the value `v`, then a GET of the switch, read as a value of type `t`:
   * there is no reply exactly when `v` is empty, and else it reads as what `v` stands for.
   */
  method ReadBack(scan: Scanner, device: Device, earlier: seq<Setting>, v: string, t: ValueType,
                  tail: string, origin: nat, draws: nat -> nat)
    returns (r: Option<ReadResult>)
    requires Clean(device.myName) && !EndsInValue(device.myName) && Clean(v) && origin <= INT_MAX
    requires forall i :: 0 <= i < |earlier| ==>
      Clean(earlier[i].resource) && Clean(earlier[i].value) && ':' !in earlier[i].resource
    requires |Joined(SettingTexts(earlier + [Setting("Switch", v)]))| < BUFFER
    modifies device
    ensures device.switchValue == v && device.myName == old(device.myName)
    ensures r.None? <==> v == ""
    ensures r.Some? ==> !r.value.Undefined? && (r.value.Refused? <==> !CanStand(scan, t, v))
    ensures r.Some? ==> forall value :: r.value == Got([value]) <==> Stands(scan, t, v, value)
    ensures r.Some? && t == TString ==> r.value == Got([Text(v)])
    ensures r.Some? && t == TBool ==>
      r.value == if SpellsTrue(v) then Got([Truth(true)]) else if SpellsFalse(v) then Got([Truth(false)]) else Refused
    ensures r.Some? && t == TBinary ==> forall data :: Base64.IsTextOf(v, data) ==> r.value == Got([Binary(data)])
  {
    hide *;
    var settings := earlier + [Setting("Switch", v)];
    var name := device.myName;
    PlainWords();
    LastOneCounts(device.switchValue, earlier, v);
    PutArrives(device, settings, tail, origin, draws);
    var text := AskForSwitch(device, tail, origin, draws);
    if text.None? {
      return None;
    }
    var readings := new Value[1](_ => Text(""));
    var result := FillReadings(scan, name, [t], text.value, readings);
    r := Some(result);
    OneField(scan, name, t, TakeEvent(text.value).value, v, result);
    WhatItStandsFor(scan, v, []);
    forall data | Base64.IsTextOf(v, data)
      ensures Stands(scan, TBinary, v, Binary(data))
    {
      WhatItStandsFor(scan, v, data);
    }
  }

  lemma PlainWords()
    ensures Clean("Switch") && Clean("b") && Clean("100") && ':' !in "Switch" && |"Switch#"| < BUFFER
    ensures AllClean(["Switch"]) && 1 <= INT_MAX
  {
  }

  /** A GET of the switch, and the text of the reply after its letter. */
  method AskForSwitch(device: Device, tail: string, origin: nat, draws: nat -> nat) returns (text: Option<string>)
    requires Clean(device.myName) && !EndsInValue(device.myName) && Clean(device.switchValue) && origin <= INT_MAX
    modifies device
    ensures unchanged(device)
    ensures text.None? <==> device.switchValue == ""
    ensures text.Some? ==> TakeEvent(text.value) == Some(Event(device.myName, origin, "repget", [device.switchValue]))
  {
    hide *;
    var (name, current) := (device.myName, device.switchValue);
    PlainWords();
    SwitchOnly(current, draws);
    var frame := GetHandlerWrite(name, ["Switch"]);
    AsksForSwitch(name, tail);
    GetIsAnswered(name, current, ["Switch"], tail, origin, draws);
    ReplyIsRead(name, current, ["Switch"], tail, origin, draws);
    var outcome := device.Receive(frame.value + tail, origin, draws);
    if outcome.Silent? {
      return None;
    }
    return Some(outcome.text[2..]);
  }

  lemma SwitchOnly(current: string, draws: nat -> nat)
    ensures Readings(current, ["Switch"], draws) == [current]
    ensures Joined(["Switch"]) == "Switch#" && |Joined(["Switch"])| < BUFFER
  {
    assert Joined(["Switch"][1..]) == "";
  }

  lemma AsksForSwitch(name: string, tail: string)
    requires Clean(name)
    ensures var arr := Split(Joined(GetFields(name, ["Switch"])) + tail);
      |arr| > 1 && arr[0] == "b" && arr[1] == name
  {
    PlainWords();
    FrameSplits("b", name, "100", ["Switch"], tail);
    hide Split, Joined, ParseInt, FromFour, Decimal;
  }
}
