/** What taking a frame apart recovers of the fields it was made of. */
module FrameFacts {
  import opened CString
  import opened Frames
  import opened JsonParse
  import opened JsonPrint
  import JsonReading
  import JsonRoundTrip

  function Joined(fields: seq<string>): string {
    if fields == [] then "" else fields[0] + ("#" + Joined(fields[1..]))
  }

  ghost predicate Clean(s: string) {
    '#' !in s
  }

  ghost predicate AllClean(fields: seq<string>) {
    forall i :: 0 <= i < |fields| ==> Clean(fields[i])
  }

  predicate EndsInValue(s: string) {
    |s| >= 5 && s[|s| - 5..] == "value"
  }

  // ---- Fields ----

  lemma FieldParts(text: string, pos: nat, field: string, rest: string)
    requires StartsWith(text, pos, field + ("#" + rest))
    ensures pos + |field| < |text| && text[pos..pos + |field|] == field && text[pos + |field|] == '#'
    ensures forall k :: pos <= k < pos + |field| ==> text[k] == field[k - pos]
    ensures StartsWith(text, pos + |field| + 1, rest)
  {
    StartsWithConcat(text, pos, field, "#" + rest);
    StartsWithConcat(text, pos + |field|, "#", rest);
    StartsWithAt(text, pos + |field|, "#", 0);
    forall k | pos <= k < pos + |field|
      ensures text[k] == field[k - pos]
    {
      StartsWithAt(text, pos, field, k - pos);
    }
  }

  lemma TakenField(text: string, pos: nat, field: string, rest: string)
    requires StartsWith(text, pos, field + ("#" + rest)) && Clean(field)
    ensures TakeString(text, pos) == Some(Taken(field, pos + |field| + 1))
  {
    FieldParts(text, pos, field, rest);
    forall k | pos <= k < pos + |field|
      ensures !StartsWith(text, k, "#")
    {
      if StartsWith(text, k, "#") {
        StartsWithAt(text, k, "#", 0);
        assert false;
      }
    }
    StrstrSkips(text, pos, pos + |field|, "#");
  }

  lemma OneMoreField(text: string, pos: nat, first: Taken, n: nat, rest: seq<string>)
    requires pos <= |text| && TakeString(text, pos) == Some(first) && TakeFields(text, first.next, n) == Some(rest)
    ensures TakeFields(text, pos, n + 1) == Some([first.value] + rest)
  {
  }

  lemma {:induction false} TakenFields(text: string, pos: nat, front: seq<string>, back: seq<string>)
    requires StartsWith(text, pos, Joined(front + back)) && AllClean(front)
    ensures pos <= |text| && TakeFields(text, pos, |front|) == Some(front)
    decreases |front|, 1
  {
    if front == [] {
      assert [] + back == back;
    } else {
      JoinedCons(front, back);
      TakenMore(text, pos, front[0], front[1..], back);
      assert [front[0]] + front[1..] == front;
    }
  }

  lemma JoinedCons(front: seq<string>, back: seq<string>)
    requires front != []
    ensures Joined(front + back) == front[0] + ("#" + Joined(front[1..] + back))
  {
    assert (front + back)[1..] == front[1..] + back;
  }

  lemma TakenMore(text: string, pos: nat, field: string, front: seq<string>, back: seq<string>)
    requires StartsWith(text, pos, field + ("#" + Joined(front + back))) && Clean(field) && AllClean(front)
    ensures pos <= |text| && TakeFields(text, pos, |front| + 1) == Some([field] + front)
    decreases |front| + 1, 0
  {
    hide Joined, StartsWith, TakeString, AllClean, Clean, TakeFields;
    TakenField(text, pos, field, Joined(front + back));
    FieldParts(text, pos, field, Joined(front + back));
    TakenFields(text, pos + |field| + 1, front, back);
    OneMoreField(text, pos, Taken(field, pos + |field| + 1), |front|, front);
  }

  // ---- Where the values start ----

  predicate HasMark(fields: seq<string>) {
    fields != [] && (EndsInValue(fields[0]) || HasMark(fields[1..]))
  }

  /** The fields after the first one that ends in "value". */
  function AfterMark(fields: seq<string>): seq<string>
    requires HasMark(fields)
  {
    if EndsInValue(fields[0]) then fields[1..] else AfterMark(fields[1..])
  }

  /** Inside a clean field, and at the '#' after it, "value#" can only be found at the field's end. */
  lemma MarkInField(text: string, pos: nat, field: string, rest: string, k: nat)
    requires StartsWith(text, pos, field + ("#" + rest)) && Clean(field)
    requires pos <= k <= pos + |field|
    ensures StartsWith(text, k, MARK) <==> EndsInValue(field) && k == pos + |field| - 5
  {
    FieldParts(text, pos, field, rest);
    var hash := pos + |field|;
    if StartsWith(text, k, MARK) {
      StartsWithAt(text, k, MARK, 5);
      if k + 5 > hash {
        StartsWithAt(text, k, MARK, hash - k);
        assert false;
      }
      assert text[k..k + 6] == MARK;
      assert field[|field| - 5..] == text[k..hash] == MARK[..5];
    }
    if EndsInValue(field) && k == hash - 5 {
      assert text[k..hash] == field[|field| - 5..];
      assert text[k..k + 6] == text[k..hash] + [text[hash]];
    }
  }

  lemma MarkAfterField(text: string, pos: nat, field: string, rest: string)
    requires StartsWith(text, pos, field + ("#" + rest)) && Clean(field)
    ensures pos + |field| + 1 <= |text|
    ensures Strstr(text, pos, MARK)
         == if EndsInValue(field) then Some(pos + |field| - 5) else Strstr(text, pos + |field| + 1, MARK)
  {
    FieldParts(text, pos, field, rest);
    var hash := pos + |field|;
    forall k | pos <= k <= hash
      ensures StartsWith(text, k, MARK) <==> EndsInValue(field) && k == hash - 5
    {
      MarkInField(text, pos, field, rest, k);
    }
    assert EndsInValue(field) ==> |field| >= 5;
    hide EndsInValue, StartsWith;
    StrstrSkips(text, pos, if EndsInValue(field) then hash - 5 else hash + 1, MARK);
  }

  lemma {:induction false} MarkFound(text: string, pos: nat, fields: seq<string>) returns (k: nat)
    requires StartsWith(text, pos, Joined(fields)) && AllClean(fields) && HasMark(fields)
    ensures pos <= |text| && Strstr(text, pos, MARK) == Some(k)
    ensures StartsWith(text, k + 6, Joined(AfterMark(fields)))
    decreases |fields|
  {
    var field, rest := fields[0], fields[1..];
    k := if EndsInValue(field) then pos + |field| - 5 else 0;
    assert Joined(fields) == field + ("#" + Joined(rest));
    assert EndsInValue(field) ==> |field| >= 5;
    assert Clean(field) && AllClean(rest);
    hide *;
    MarkAfterField(text, pos, field, Joined(rest));
    FieldParts(text, pos, field, Joined(rest));
    if !EndsInValue(field) {
      k := MarkFound(text, pos + |field| + 1, rest);
    }
  }

  // ---- Numbers ----

  lemma AtoiOfDecimal(n: nat)
    requires n <= INT_MAX
    ensures Atoi(Decimal(n)) == Some(n as int)
  {
    JsonRoundTrip.DecimalDigits(n);
    var s := Decimal(n);
    JsonReading.DigitsRun(s, 0, |s|);
    assert SkipSpaces(s, 0) == 0 && s[0..|s|] == s;
  }

  lemma DecimalIsClean(n: nat)
    ensures Clean(Decimal(n)) && !EndsInValue(Decimal(n)) && ':' !in Decimal(n)
  {
    JsonRoundTrip.DecimalDigits(n);
    var s := Decimal(n);
    if |s| >= 5 {
      assert s[|s| - 5..][0] == s[|s| - 5];
    }
  }

  // ---- An event ----

  function EventFields(name: string, origin: nat, command: string, values: seq<string>): seq<string> {
    [name, Decimal(origin), command, Decimal(|values|), "value"] + values
  }

  /** What takeEvent is given of the frames the device prints, after the letter and the first '#'. */
  function EventText(name: string, origin: nat, command: string, values: seq<string>): string {
    Joined(EventFields(name, origin, command, values)) + "\n"
  }

  /** What the values read are, whether or not they are the ones sent. */
  function ValuesRead(name: string, origin: nat, command: string, values: seq<string>): (r: seq<string>)
    ensures |r| == |values|
  {
    var fields := EventFields(name, origin, command, values);
    AfterMarkSplit(name, origin, command, values);
    AfterMark(fields)[..|values|]
  }

  /** The values read start after the name, after the command, or where they should. */
  lemma AfterMarkSplit(name: string, origin: nat, command: string, values: seq<string>)
    ensures var fields := EventFields(name, origin, command, values);
      HasMark(fields)
      && AfterMark(fields) ==
         if EndsInValue(name) then fields[1..] else if EndsInValue(command) then fields[3..] else values
  {
    var fields := EventFields(name, origin, command, values);
    DecimalIsClean(origin);
    DecimalIsClean(|values|);
    hide Decimal;
    assert fields[4] == "value" && EndsInValue(fields[4]) && fields[5..] == values;
    var (f1, f2, f3, f4) := (fields[1..], fields[2..], fields[3..], fields[4..]);
    assert f1[0] == Decimal(origin) && f2[0] == command && f3[0] == Decimal(|values|) && f4[0] == "value";
    assert f1[1..] == f2 && f2[1..] == f3 && f3[1..] == f4 && f4[1..] == values;
    assert f1[3] == "value" && f2[2] == "value" && f3[1] == "value";
    assert HasMark(f4) && HasMark(f3) && HasMark(f2) && HasMark(f1) && HasMark(fields);
    assert AfterMark(f3) == AfterMark(f4) == values;
    assert AfterMark(f2) == if EndsInValue(command) then f3 else values;
    assert AfterMark(f1) == AfterMark(f2);
  }

  lemma FieldsOfEvent(name: string, origin: nat, command: string, values: seq<string>)
    requires Clean(name) && Clean(command) && AllClean(values)
    ensures var fields := EventFields(name, origin, command, values);
      AllClean(fields) && AllClean(fields[..4])
      && fields[..4] == [name, Decimal(origin), command, Decimal(|values|)]
      && StartsWith(EventText(name, origin, command, values), 0, Joined(fields))
  {
    DecimalIsClean(origin);
    DecimalIsClean(|values|);
    hide Decimal;
    var text := EventText(name, origin, command, values);
    var fields := EventFields(name, origin, command, values);
    assert text[..|Joined(fields)|] == Joined(fields);
  }

  lemma EnoughAfterMark(name: string, origin: nat, command: string, values: seq<string>)
    ensures var fields := EventFields(name, origin, command, values);
      HasMark(fields) && |AfterMark(fields)| >= |values|
  {
    AfterMarkSplit(name, origin, command, values);
  }

  lemma {:induction false} AfterMarkIsClean(fields: seq<string>)
    requires AllClean(fields) && HasMark(fields)
    ensures AllClean(AfterMark(fields))
  {
    if !EndsInValue(fields[0]) {
      AfterMarkIsClean(fields[1..]);
    }
  }

  lemma EventHead(name: string, origin: nat, command: string, values: seq<string>)
    requires Clean(name) && Clean(command) && AllClean(values)
    ensures TakeFields(EventText(name, origin, command, values), 0, 4)
         == Some([name, Decimal(origin), command, Decimal(|values|)])
  {
    FieldsOfEvent(name, origin, command, values);
    var fields := EventFields(name, origin, command, values);
    hide *;
    assert fields[..4] + fields[4..] == fields;
    TakenFields(EventText(name, origin, command, values), 0, fields[..4], fields[4..]);
  }

  lemma EventValues(name: string, origin: nat, command: string, values: seq<string>)
    requires Clean(name) && Clean(command) && AllClean(values)
    ensures TakeValue(EventText(name, origin, command, values), |values|)
         == Values(ValuesRead(name, origin, command, values))
  {
    var text := EventText(name, origin, command, values);
    FieldsOfEvent(name, origin, command, values);
    var fields := EventFields(name, origin, command, values);
    EnoughAfterMark(name, origin, command, values);
    AfterMarkIsClean(fields);
    assert AfterMark(fields)[..|values|] + AfterMark(fields)[|values|..] == AfterMark(fields);
    assert AllClean(AfterMark(fields)[..|values|]);
    hide EventText, Joined, Clean, AllClean, EndsInValue, StartsWith, EventFields, AfterMark, TakeFields, Strstr,
      HasMark;
    var k := MarkFound(text, 0, fields);
    var from := AfterMark(fields);
    TakenFields(text, k + 6, from[..|values|], from[|values|..]);
  }

  /** Every frame with clean fields is taken apart without reading outside it; name, origin and command come back. */
  lemma {:induction false} EventIsRead(name: string, origin: nat, command: string, values: seq<string>)
    requires Clean(name) && Clean(command) && AllClean(values) && origin <= INT_MAX && |values| <= INT_MAX
    ensures TakeEvent(EventText(name, origin, command, values))
         == Some(Event(name, origin, command, ValuesRead(name, origin, command, values)))
  {
    AtoiOfDecimal(origin);
    AtoiOfDecimal(|values|);
    EventHead(name, origin, command, values);
    EventValues(name, origin, command, values);
    hide EventText, ValuesRead, TakeFields, TakeValue, Atoi, Decimal, Clean, AllClean;
  }

  /**
   * The event comes back unless the name or the command ends in "value"; then it still does in the case that
   * the values happen to repeat the fields that are taken for them.
   */
  lemma EventComesBack(name: string, origin: nat, command: string, values: seq<string>)
    requires Clean(name) && Clean(command) && AllClean(values) && origin <= INT_MAX && |values| <= INT_MAX
    ensures var fields := EventFields(name, origin, command, values);
      TakeEvent(EventText(name, origin, command, values)) == Some(Event(name, origin, command, values)) <==>
        (EndsInValue(name) ==> values <= fields[1..])
        && (!EndsInValue(name) && EndsInValue(command) ==> values <= fields[3..])
  {
    EventIsRead(name, origin, command, values);
    AfterMarkSplit(name, origin, command, values);
    hide TakeEvent, EventText, AfterMark, EventFields, EndsInValue;
    var from := AfterMark(EventFields(name, origin, command, values));
    assert from[..|values|] == values <==> values <= from;
  }

  lemma NameEndingInValue()
    ensures var r := TakeEvent(EventText("setvalue", 7, "repget", ["30"]));
      r == Some(Event("setvalue", 7, "repget", ["7"]))
  {
    var (name, values) := ("setvalue", ["30"]);
    assert EndsInValue(name) by {
      assert name[3..] == "value";
    }
    EventIsRead(name, 7, "repget", values);
    AfterMarkSplit(name, 7, "repget", values);
    assert Decimal(7) == "7";
    hide TakeEvent, EventText, Decimal, EndsInValue, AfterMark;
    assert EventFields(name, 7, "repget", values)[1..][..1] == ["7"];
  }
}
