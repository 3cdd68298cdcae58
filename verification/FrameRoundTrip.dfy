/** The frames the service writes, and what each side recovers of the other's. */
module FrameRoundTrip {
  import opened CString
  import opened DeviceScript
  import opened FrameFacts
  import opened Frames
  import opened JsonParse
  import opened JsonPrint

  /** A resource and the text of the value it is to take. */
  datatype Setting = Setting(resource: string, value: string)

  function SettingText(s: Setting): string {
    s.resource + ":" + s.value
  }

  function SettingTexts(settings: seq<Setting>): (r: seq<string>)
    ensures |r| == |settings|
    ensures forall i :: 0 <= i < |settings| ==> r[i] == SettingText(settings[i])
  {
    seq(|settings|, i requires 0 <= i < |settings| => SettingText(settings[i]))
  }

  function GetFields(device: string, resources: seq<string>): seq<string> {
    ["b", device, "100", Decimal(|resources|)] + resources
  }

  function PutFields(device: string, settings: seq<Setting>): seq<string> {
    ["c", device, "0", Decimal(|settings|)] + SettingTexts(settings)
  }

  // ---- The code ----

  /** The size of the buffer in which both writers join their fields. */
  const BUFFER := 100

  /** user_gethandler_write; None when strcat runs past the end of its buffer. */
  method GetHandlerWrite(device: string, resources: seq<string>) returns (r: Option<string>)
    ensures r == if |Joined(resources)| < BUFFER then Some(Joined(GetFields(device, resources))) else None
    ensures r.Some? ==> |r.value| + 1 <= |device| + 3 + 5 + |Joined(resources)| + 6
  {
    var fullResname := "";
    for i := 0 to |resources|
      invariant fullResname == Joined(resources[..i]) && |fullResname| < BUFFER
    {
      JoinedOneMore(resources[..i], resources[i]);
      assert resources[..i + 1] == resources[..i] + [resources[i]];
      fullResname := fullResname + resources[i] + "#";
      if |fullResname| >= BUFFER {
        JoinedGrows(resources, i + 1);
        return None;
      }
    }
    assert resources[..|resources|] == resources;
    HeaderJoined("b", device, "100", Decimal(|resources|), resources);
    ShortCount(resources);
    assert "b" + "#" == "b#";
    return Some("b#" + device + "#" + "100" + "#" + Decimal(|resources|) + "#" + fullResname);
  }

  /** user_puthandler_write. */
  method PutHandlerWrite(device: string, settings: seq<Setting>) returns (r: Option<string>)
    ensures var full := Joined(SettingTexts(settings));
      r == if |full| < BUFFER then Some(Joined(PutFields(device, settings))) else None
    ensures r.Some? ==> |r.value| + 1 <= |device| + 1 + 5 + |Joined(SettingTexts(settings))| + 6
  {
    ghost var texts := SettingTexts(settings);
    var fullValue := "";
    for i := 0 to |settings|
      invariant fullValue == Joined(texts[..i]) && |fullValue| < BUFFER
    {
      JoinedOneMore(texts[..i], texts[i]);
      assert texts[..i + 1] == texts[..i] + [texts[i]];
      fullValue := fullValue + settings[i].resource + ":" + settings[i].value + "#";
      if |fullValue| >= BUFFER {
        JoinedGrows(texts, i + 1);
        return None;
      }
    }
    assert texts[..|texts|] == texts;
    HeaderJoined("c", device, "0", Decimal(|settings|), texts);
    ShortCount(texts);
    assert "c" + "#" == "c#";
    return Some("c#" + device + "#" + "0" + "#" + Decimal(|settings|) + "#" + fullValue);
  }

  lemma {:induction false} JoinedGrows(fields: seq<string>, n: nat)
    requires n <= |fields|
    ensures |Joined(fields[..n])| <= |Joined(fields)|
  {
    if n > 0 {
      JoinedGrows(fields[1..], n - 1);
      assert fields[..n][1..] == fields[1..][..n - 1];
    }
  }

  lemma {:induction false} JoinedLength(fields: seq<string>)
    ensures |Joined(fields)| >= |fields|
  {
    if fields != [] {
      JoinedLength(fields[1..]);
    }
  }

  /** Fewer than a hundred fields fit the buffer, so their count has at most two digits. */
  lemma ShortCount(fields: seq<string>)
    ensures |Joined(fields)| < BUFFER ==> |Decimal(|fields|)| <= 2
  {
    JoinedLength(fields);
  }

  lemma HeaderJoined(letter: string, device: string, origin: string, count: string, rest: seq<string>)
    ensures Joined([letter, device, origin, count] + rest)
         == letter + "#" + device + "#" + origin + "#" + count + "#" + Joined(rest)
  {
    JoinedCons([letter, device, origin, count], rest);
    JoinedCons([device, origin, count], rest);
    JoinedCons([origin, count], rest);
    JoinedCons([count], rest);
    assert [letter, device, origin, count][1..] == [device, origin, count];
    assert [device, origin, count][1..] == [origin, count] && [origin, count][1..] == [count];
    assert [count][1..] + rest == rest;
    hide Joined;
    assert count + ("#" + Joined(rest)) == count + "#" + Joined(rest);
  }

  // ---- From the service to the device ----

  lemma SplitOne(field: string, more: string)
    requires Clean(field)
    ensures Split(field + ("#" + more)) == [field] + Split(more)
  {
    var text := field + ("#" + more);
    assert text[0..|text|] == text;
    TakenField(text, 0, field, more);
    assert text[..|field|] == field && text[|field| + 1..] == more;
  }

  lemma {:induction false} SplitOfJoined(fields: seq<string>, rest: string)
    requires AllClean(fields)
    ensures Split(Joined(fields) + rest) == fields + Split(rest)
  {
    if fields == [] {
      assert Joined(fields) + rest == rest;
      assert [] + Split(rest) == Split(rest);
    } else {
      var (field, back) := (fields[0], fields[1..]);
      assert Clean(field) && AllClean(back);
      JoinedThen(fields, rest);
      hide *;
      SplitOfJoined(back, rest);
      SplitOne(field, Joined(back) + rest);
      ConsThen(fields, Split(rest));
    }
  }

  lemma JoinedThen(fields: seq<string>, rest: string)
    requires fields != []
    ensures Joined(fields) + rest == fields[0] + ("#" + (Joined(fields[1..]) + rest))
  {
  }

  lemma ConsThen(fields: seq<string>, rest: seq<string>)
    requires fields != []
    ensures fields + rest == [fields[0]] + (fields[1..] + rest)
  {
  }

  lemma ParseOfDecimal(n: nat)
    ensures ParseInt(Decimal(n)) == Some(n)
  {
    JsonRoundTrip.DecimalDigits(n);
    var s := Decimal(n);
    JsonReading.DigitsRun(s, 0, |s|);
    assert SkipSpaces(s, 0) == 0 && s[0..|s|] == s;
  }

  /**
   * A frame of clean fields splits into them; the count selects those that follow it, whatever comes after the frame.
   */
  lemma FrameSplits(letter: string, device: string, origin: string, fields: seq<string>, tail: string)
    requires Clean(letter) && Clean(device) && Clean(origin) && AllClean(fields)
    ensures var arr := Split(Joined([letter, device, origin, Decimal(|fields|)] + fields) + tail);
      && |arr| > 4 && arr[0] == letter && arr[1] == device && arr[3] == Decimal(|fields|)
      && ParseInt(arr[3]) == Some(|fields|) && FromFour(arr, |fields|) == fields
  {
    DecimalIsClean(|fields|);
    ParseOfDecimal(|fields|);
    hide Decimal, ParseInt;
    var all := [letter, device, origin, Decimal(|fields|)] + fields;
    SplitOfJoined(all, tail);
    var arr := Split(Joined(all) + tail);
    assert arr[4..4 + |fields|] == fields;
  }

  /** set_value recovers a resource and its value exactly when the resource's name holds no colon. */
  lemma AssignmentOfSetting(s: Setting)
    ensures Assignment(SettingText(s)) == (s.resource, s.value) <==> ':' !in s.resource
  {
    var text := SettingText(s);
    var index := FindChar(text, ':');
    assert text[|s.resource|] == ':' && text[..|s.resource|] == s.resource;
    assert text[|s.resource| + 1..] == s.value;
    if ':' !in s.resource {
      FirstColon(text, |s.resource|);
    }
    assert index >= 0;
  }

  lemma {:induction false} FirstColon(text: string, k: nat)
    requires k < |text| && text[k] == ':' && ':' !in text[..k]
    ensures FindChar(text, ':') == k
  {
    if k > 0 {
      assert text[0] == text[..k][0];
      assert text[1..][..k - 1] == text[..k][1..];
      FirstColon(text[1..], k - 1);
    }
  }

  function SwitchSet(current: string, settings: seq<Setting>): string {
    if settings == [] then current
    else
      var last := settings[|settings| - 1];
      if last.resource == "Switch" then last.value else SwitchSet(current, settings[..|settings| - 1])
  }

  lemma {:induction false} SettingsApply(current: string, settings: seq<Setting>)
    requires forall i :: 0 <= i < |settings| ==> ':' !in settings[i].resource
    ensures SwitchAfterAll(current, SettingTexts(settings)) == SwitchSet(current, settings)
  {
    if settings != [] {
      var n := |settings| - 1;
      SettingsApply(current, settings[..n]);
      SwitchAfterOneMore(current, SettingTexts(settings[..n]), SettingText(settings[n]));
      assert SettingTexts(settings) == SettingTexts(settings[..n]) + [SettingText(settings[n])];
      AssignmentOfSetting(settings[n]);
    }
  }

  /** A PUT frame: the device it names ends up with the last value sent for its switch. */
  method PutArrives(device: Device, settings: seq<Setting>, tail: string, origin: nat, draws: nat -> nat)
    requires Clean(device.myName)
    requires forall i :: 0 <= i < |settings| ==>
      Clean(settings[i].resource) && Clean(settings[i].value) && ':' !in settings[i].resource
    modifies device
    ensures |Joined(SettingTexts(settings))| < BUFFER ==>
      device.switchValue == SwitchSet(old(device.switchValue), settings)
      && device.myName == old(device.myName) && device.address == old(device.address)
  {
    var frame := PutHandlerWrite(device.myName, settings);
    if frame.Some? {
      assert AllClean(SettingTexts(settings));
      FrameSplits("c", device.myName, "0", SettingTexts(settings), tail);
      SettingsApply(device.switchValue, settings);
      var _ := device.Receive(frame.value + tail, origin, draws);
    }
  }

  // ---- From the device to the service ----

  lemma EventFrame(letter: string, name: string, origin: nat, command: string, values: seq<string>)
    ensures letter + "#" + name + "#" + Decimal(origin) + "#" + command + "#" + Decimal(|values|)
            + "#value#" + Joined(values) + "\n"
         == letter + "#" + EventText(name, origin, command, values)
  {
    hide Decimal;
    var marked := ["value"] + values;
    assert EventFields(name, origin, command, values) == [name, Decimal(origin), command, Decimal(|values|)] + marked;
    HeaderJoined(name, Decimal(origin), command, Decimal(|values|), marked);
    assert marked[1..] == values && Joined(marked) == "value" + ("#" + Joined(values));
    assert "#" + ("value" + ("#" + Joined(values))) == "#value#" + Joined(values);
    Regroup(letter, name, Decimal(origin), command, Decimal(|values|), Joined(marked), Joined(values));
    hide Joined, EventFields;
  }

  lemma Regroup(letter: string, name: string, origin: string, command: string, size: string, marked: string,
                values: string)
    requires "#" + marked == "#value#" + values
    ensures letter + "#" + name + "#" + origin + "#" + command + "#" + size + "#value#" + values + "\n"
         == letter + "#" + (name + "#" + origin + "#" + command + "#" + size + "#" + marked + "\n")
  {
    var front := name + "#" + origin + "#" + command + "#" + size;
    assert front + "#" + marked == front + ("#" + marked);
    assert letter + "#" + name + "#" + origin + "#" + command + "#" + size == letter + "#" + front;
  }

  lemma ReadingsAreClean(current: string, resources: seq<string>, draws: nat -> nat)
    requires Clean(current)
    ensures AllClean(Readings(current, resources, draws))
  {
    forall i | 0 <= i < |resources|
      ensures Clean(Reading(current, resources[i], draws(i)))
    {
      DecimalIsClean(draws(i));
    }
  }

  /** A GET frame: the device answers with its readings, in order, unless one of them is empty or none is asked for. */
  lemma GetIsAnswered(name: string, current: string, resources: seq<string>, tail: string, origin: nat,
                      draws: nat -> nat)
    requires Clean(name) && AllClean(resources)
    ensures var readings := Readings(current, resources, draws);
      RepGetOutcome(name, current, Split(Joined(GetFields(name, resources)) + tail), origin, draws)
      == if "" in readings || readings == [] then Silent
         else Published("b#" + EventText(name, origin, "repget", readings))
  {
    FrameSplits("b", name, "100", resources, tail);
    var arr := Split(Joined(GetFields(name, resources)) + tail);
    hide Split, Joined, ParseInt, FromFour, Decimal;
    AnswerToGet(name, current, arr, resources, origin, draws);
  }

  lemma AnswerToGet(name: string, current: string, arr: seq<string>, resources: seq<string>, origin: nat,
                    draws: nat -> nat)
    requires |arr| > 3 && arr[3] == Decimal(|resources|) && ParseInt(arr[3]) == Some(|resources|)
    requires FromFour(arr, |resources|) == resources
    ensures var readings := Readings(current, resources, draws);
      RepGetOutcome(name, current, arr, origin, draws)
      == if "" in readings || readings == [] then Silent
         else Published("b#" + EventText(name, origin, "repget", readings))
  {
    ReplyIsEvent(name, origin, Readings(current, resources, draws));
    hide Split, Readings, EventText, Joined, ParseInt, FromFour, Decimal, GetReply;
  }

  lemma ReplyIsEvent(name: string, origin: nat, values: seq<string>)
    ensures GetReply(name, origin, Decimal(|values|), Joined(values))
      == "b#" + EventText(name, origin, "repget", values)
  {
    EventFrame("b", name, origin, "repget", values);
    GetTemplate(name, Decimal(origin), Decimal(|values|), Joined(values));
    assert "b" + "#" == "b#";
    hide EventText, Joined, Decimal;
  }

  lemma GetTemplate(name: string, origin: string, size: string, values: string)
    ensures "b#" + name + "#" + origin + "#repget#" + size + "#value#" + values + "\n"
         == "b" + "#" + name + "#" + origin + "#" + "repget" + "#" + size + "#value#" + values + "\n"
  {
    assert "b" + "#" == "b#";
    var front := "b#" + name + "#" + origin;
    assert front + "#" + "repget" + "#" == front + "#repget#";
  }

  /** The whole exchange: the readings the service takes from the reply are those the device gave. */
  lemma {:induction false} ReplyIsRead(name: string, current: string, resources: seq<string>, tail: string,
                                       origin: nat, draws: nat -> nat)
    requires Clean(name) && AllClean(resources) && Clean(current)
    requires origin <= INT_MAX && |resources| <= INT_MAX
    ensures var outcome := RepGetOutcome(name, current, Split(Joined(GetFields(name, resources)) + tail), origin,
                                         draws);
      outcome.Published? && !EndsInValue(name) ==>
        |outcome.text| >= 2 && outcome.text[..2] == "b#"
        && TakeEvent(outcome.text[2..]) == Some(Event(name, origin, "repget", Readings(current, resources, draws)))
  {
    var readings := Readings(current, resources, draws);
    GetIsAnswered(name, current, resources, tail, origin, draws);
    ReadingsAreClean(current, resources, draws);
    EventComesBack(name, origin, "repget", readings);
    hide RepGetOutcome, TakeEvent, EventText, Joined, Split;
    assert ("b#" + EventText(name, origin, "repget", readings))[2..] == EventText(name, origin, "repget", readings);
  }

  /** A pushed event reaches the service with the command it was sent under. */
  lemma PushIsRead(name: string, current: string, command: string, resources: seq<string>, origin: nat,
                   draws: nat -> nat)
    requires Clean(name) && Clean(command) && Clean(current)
    requires origin <= INT_MAX && |resources| <= INT_MAX
    ensures var text := PushText(name, current, command, resources, origin, draws);
      text != "" && !EndsInValue(name) && !EndsInValue(command) ==>
        |text| >= 2 && text[..2] == "a#"
        && TakeEvent(text[2..]) == Some(Event(name, origin, command, Readings(current, resources, draws)))
  {
    var readings := Readings(current, resources, draws);
    EventFrame("a", name, origin, command, readings);
    ReadingsAreClean(current, resources, draws);
    EventComesBack(name, origin, command, readings);
    hide TakeEvent, EventText, Joined, Readings, Decimal;
    assert "a" + "#" == "a#";
    assert ("a#" + EventText(name, origin, command, readings))[2..] == EventText(name, origin, command, readings);
  }
}
