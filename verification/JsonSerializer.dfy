/** The serializer: one recursive pass that either counts bytes (no buffer) or writes them. */
module JsonSerializer {
  import opened CString
  import opened JsonValue
  import opened JsonPrint

  const INT_MAX := 0x7FFF_FFFF

  /**
   * `after` is `before` with `text` written at `at`. Beyond the text only the one byte that follows it may differ:
   * sprintf puts its terminator there.
   */
  ghost predicate Filled(before: string, after: string, at: nat, text: string) {
    && |before| == |after| && at + |text| < |before|
    && after[..at + |text|] == before[..at] + text
    && after[at + |text| + 1..] == before[at + |text| + 1..]
  }

  /** The same for a possibly absent buffer. */
  ghost predicate Wrote(buf: array?<char>, before: string, at: nat, text: string)
    reads buf
  {
    buf != null ==> Filled(before, buf[..], at, text)
  }

  ghost predicate Terminated(buf: array?<char>, at: nat)
    reads buf
  {
    buf != null ==> at < buf.Length && buf[at] == NUL
  }

  ghost function Contents(buf: array?<char>): string
    reads buf
  {
    if buf == null then "" else buf[..]
  }

  predicate HasRoom(buf: array?<char>, at: nat, size: nat) {
    buf != null ==> at + size < buf.Length
  }

  lemma FilledTwice(before: string, middle: string, after: string, at: nat, x: string, y: string)
    requires Filled(before, middle, at, x) && Filled(middle, after, at + |x|, y)
    ensures Filled(before, after, at, x + y)
  {
    assert after[..at + |x| + |y|] == before[..at] + x + y;
    Associate(before[..at], x, y);
    forall k | at + |x| + |y| + 1 <= k < |before|
      ensures after[k] == before[k]
    {
      assert after[k] == after[at + |x| + |y| + 1..][k - (at + |x| + |y| + 1)];
      assert middle[k] == middle[at + |x| + |y| + 1..][k - (at + |x| + |y| + 1)];
      assert middle[k] == middle[at + |x| + 1..][k - (at + |x| + 1)];
      assert before[k] == before[at + |x| + 1..][k - (at + |x| + 1)];
    }
  }

  /** append_string: strlen when there is no buffer, otherwise sprintf("%s"). */
  method AppendString(buf: array?<char>, at: nat, text: string) returns (written: nat)
    requires HasRoom(buf, at, |text|)
    modifies buf
    ensures written == |text|
    ensures Wrote(buf, old(Contents(buf)), at, text) && Terminated(buf, at + written)
  {
    written := |text|;
    if buf != null {
      forall k | 0 <= k < |text| {
        buf[at + k] := text[k];
      }
      buf[at + |text|] := NUL;
    }
  }

  /** The APPEND_STRING macro: append, advance, and add to the total. `done` is what this call has appended so far. */
  method Append(buf: array?<char>, at: nat, total: nat, text: string, ghost before: string, ghost done: string)
    returns (newTotal: nat)
    requires total == |done| && HasRoom(buf, at, |done + text|) && Wrote(buf, before, at, done)
    modifies buf
    ensures newTotal == |done + text| && Wrote(buf, before, at, done + text) && Terminated(buf, at + newTotal)
  {
    ghost var middle := Contents(buf);
    var written := AppendString(buf, at + total, text);
    if buf != null {
      FilledTwice(before, middle, buf[..], at, done, text);
    }
    newTotal := total + written;
  }

  lemma NothingWritten(buf: array?<char>, at: nat)
    requires HasRoom(buf, at, 0)
    ensures Wrote(buf, Contents(buf), at, "")
  {
    if buf != null {
      assert buf[..at] + "" == buf[..at];
    }
  }

  method AppendIndent(buf: array?<char>, at: nat, level: nat) returns (written: nat)
    requires HasRoom(buf, at, |Indent(level)|)
    modifies buf
    ensures written == |Indent(level)|
    ensures Wrote(buf, old(Contents(buf)), at, Indent(level))
  {
    written := 0;
    NothingWritten(buf, at);
    for i := 0 to level
      invariant written == |Indent(i)|
      invariant Wrote(buf, old(Contents(buf)), at, Indent(i))
    {
      IndentGrows(i + 1, level);
      written := Append(buf, at, written, "    ", old(Contents(buf)), Indent(i));
    }
  }

  lemma {:induction false} IndentGrows(i: nat, level: nat)
    requires i <= level
    ensures |Indent(i)| <= |Indent(level)|
    decreases level
  {
    if i < level {
      IndentGrows(i, level - 1);
    }
  }

  // ---- Strings ----

  /** The default case of json_serialize_string stores the byte itself, without a terminator. */
  method AppendByte(buf: array?<char>, at: nat, total: nat, c: char, ghost before: string, ghost done: string)
    returns (newTotal: nat)
    requires total == |done| && HasRoom(buf, at, |done| + 1) && Wrote(buf, before, at, done)
    modifies buf
    ensures newTotal == |done + [c]| && Wrote(buf, before, at, done + [c])
  {
    ghost var middle := Contents(buf);
    if buf != null {
      buf[at + total] := c;
      FilledTwice(before, middle, buf[..], at, done, [c]);
    }
    newTotal := total + 1;
  }

  lemma {:induction false} EscapePrefix(s: string, i: nat)
    requires i < |s|
    ensures Escape(s[..i + 1]) == Escape(s[..i]) + EscapeChar(s[i])
    ensures |Escape(s[..i + 1])| <= |Escape(s)|
  {
    hide EscapeChar;
    if i == 0 {
      assert s[..1] == [s[0]] && s[..1][1..] == "" && s[..0] == "";
    } else {
      assert s[..i + 1][1..] == s[1..][..i] && s[..i][1..] == s[1..][..i - 1];
      EscapePrefix(s[1..], i - 1);
      Associate(EscapeChar(s[0]), Escape(s[1..][..i - 1]), EscapeChar(s[i]));
    }
  }

  /** The switch of json_serialize_string: one byte, escaped or as it is. */
  method SerializeByte(buf: array?<char>, at: nat, total: nat, c: char, ghost before: string, ghost done: string)
    returns (newTotal: nat)
    requires total == |done| && Wrote(buf, before, at, done) && HasRoom(buf, at, |done + EscapeChar(c)|)
    modifies buf
    ensures newTotal == |done + EscapeChar(c)| && Wrote(buf, before, at, done + EscapeChar(c))
  {
    hide Wrote;
    var text := EscapeChar(c);
    if |text| > 1 {
      newTotal := Append(buf, at, total, text, before, done);
    } else {
      newTotal := AppendByte(buf, at, total, c, before, done);
    }
  }

  /** json_serialize_string. */
  method SerializeString(buf: array?<char>, at: nat, s: string) returns (written: nat)
    requires HasRoom(buf, at, |PrintString(s)|)
    modifies buf
    ensures written == |PrintString(s)|
    ensures Wrote(buf, old(Contents(buf)), at, PrintString(s)) && Terminated(buf, at + written)
  {
    ghost var before := Contents(buf);
    NothingWritten(buf, at);
    written := Append(buf, at, 0, "\"", before, "");
    assert "" + "\"" == "\"" + Escape(s[..0]);
    for i := 0 to |s|
      invariant written == |"\"" + Escape(s[..i])|
      invariant Wrote(buf, before, at, "\"" + Escape(s[..i]))
    {
      hide Wrote, Escape, EscapeChar;
      EscapePrefix(s, i);
      Associate("\"", Escape(s[..i]), EscapeChar(s[i]));
      written := SerializeByte(buf, at, written, s[i], before, "\"" + Escape(s[..i]));
    }
    assert s[..|s|] == s;
    written := Append(buf, at, written, "\"", before, "\"" + Escape(s));
  }

  // ---- Values ----

  /** json_serialize_to_buffer_r. */
  method Serialize(lib: LibC, v: Json, buf: array?<char>, at: nat, level: nat, pretty: bool) returns (written: nat)
    requires WellFormed(v) && HasRoom(buf, at, |Print(lib, v, level, pretty)|)
    modifies buf
    ensures written == |Print(lib, v, level, pretty)|
    ensures Wrote(buf, old(Contents(buf)), at, Print(lib, v, level, pretty)) && Terminated(buf, at + written)
    decreases v, 2
  {
    hide Wrote, Decimal, PrintString;
    match v
    case Arr(items) => written := SerializeArray(lib, v, buf, at, level, pretty);
    case Obj(fields) => written := SerializeObject(lib, v, buf, at, level, pretty);
    case Str(s) => written := SerializeString(buf, at, s);
    case Bool(b) => written := AppendString(buf, at, if b then "true" else "false");
    case Number(x) => written := AppendString(buf, at, lib.format(x));
    case Uint(n) => written := AppendString(buf, at, Decimal(n));
    case Null => written := AppendString(buf, at, "null");
  }

  lemma WroteThen(buf: array?<char>, before: string, middle: string, at: nat, done: string, text: string)
    requires buf != null ==> Filled(before, middle, at, done)
    requires Wrote(buf, middle, at + |done|, text)
    ensures Wrote(buf, before, at, done + text)
  {
    if buf != null {
      FilledTwice(before, middle, buf[..], at, done, text);
    }
  }

  /** The comma and line break after element `i` of `count`. */
  method AppendSeparator(buf: array?<char>, at: nat, total: nat, i: nat, count: nat, pretty: bool,
                         ghost before: string, ghost done: string)
    returns (newTotal: nat)
    requires i < count
    requires total == |done| && HasRoom(buf, at, |done + Separator(i == count - 1, pretty)|)
      && Wrote(buf, before, at, done)
    modifies buf
    ensures newTotal == |done + Separator(i == count - 1, pretty)|
    ensures Wrote(buf, before, at, done + Separator(i == count - 1, pretty))
  {
    hide Wrote;
    newTotal := total;
    ghost var comma := if i == count - 1 then "" else ",";
    if i < count - 1 {
      newTotal := Append(buf, at, newTotal, ",", before, done);
    } else {
      assert done + comma == done;
    }
    if pretty {
      newTotal := Append(buf, at, newTotal, "\n", before, done + comma);
    } else {
      assert done + comma + "" == done + comma;
    }
    Associate(done, comma, NewlineIf(pretty));
  }

  method AppendIndentIf(buf: array?<char>, at: nat, total: nat, level: nat, pretty: bool, ghost before: string,
                        ghost done: string)
    returns (newTotal: nat)
    requires total == |done| && HasRoom(buf, at, |done + IndentIf(pretty, level)|) && Wrote(buf, before, at, done)
    modifies buf
    ensures newTotal == |done + IndentIf(pretty, level)|
    ensures Wrote(buf, before, at, done + IndentIf(pretty, level))
  {
    if pretty {
      ghost var middle := Contents(buf);
      var n := AppendIndent(buf, at + total, level);
      WroteThen(buf, before, middle, at, done, Indent(level));
      newTotal := total + n;
    } else {
      assert done + "" == done;
      newTotal := total;
    }
  }

  method SerializeArray(lib: LibC, v: Json, buf: array?<char>, at: nat, level: nat, pretty: bool) returns (written: nat)
    requires v.Arr? && WellFormed(v) && HasRoom(buf, at, |Print(lib, v, level, pretty)|)
    modifies buf
    ensures written == |Print(lib, v, level, pretty)|
    ensures Wrote(buf, old(Contents(buf)), at, Print(lib, v, level, pretty)) && Terminated(buf, at + written)
    decreases v, 1
  {
    var items := v.items;
    ghost var before := Contents(buf);
    NothingWritten(buf, at);
    ArrayParts(lib, items, level, pretty);
    hide Wrote, Print, PrintItems, Indent;
    written := Append(buf, at, 0, "[", before, "");
    ghost var done := "" + "[";
    if |items| > 0 && pretty {
      written := Append(buf, at, written, "\n", before, done);
      done := done + "\n";
    }
    written := SerializeArrayLoop(lib, items, buf, at, written, level, pretty, before, done);
    done := done + PrintItems(lib, items, level, pretty);
    if |items| > 0 && pretty {
      written := AppendIndentIf(buf, at, written, level, pretty, before, done);
      done := done + Indent(level);
    }
    written := Append(buf, at, written, "]", before, done);
  }

  lemma ArrayParts(lib: LibC, items: seq<Json>, level: nat, pretty: bool)
    ensures var open := if items != [] && pretty then "" + "[" + "\n" else "" + "[";
      var filled := open + PrintItems(lib, items, level, pretty);
      Print(lib, Arr(items), level, pretty) == (if items != [] && pretty then filled + Indent(level) else filled) + "]"
  {
    hide PrintItems, Indent;
    var filled := PrintItems(lib, items, level, pretty);
    if items != [] {
      var open := "[" + NewlineIf(pretty);
      assert "" + "[" == "[" && "[" + "" == "[";
      Associate(open, filled, Closing(pretty, level, "]"));
      Associate(open + filled, IndentIf(pretty, level), "]");
      assert open + filled + "" == open + filled;
    } else {
      ItemTextNone(lib, items, level, pretty, "" + "[");
      assert "" + "[" + "]" == "[]";
    }
  }

  /** The array loop. */
  method SerializeArrayLoop(lib: LibC, items: seq<Json>, buf: array?<char>, at: nat, total: nat, level: nat,
                            pretty: bool, ghost before: string, ghost done: string)
    returns (newTotal: nat)
    requires forall i :: 0 <= i < |items| ==> WellFormed(items[i])
    requires total == |done| && Wrote(buf, before, at, done)
      && HasRoom(buf, at, |done + PrintItems(lib, items, level, pretty)|)
    modifies buf
    ensures newTotal == |done + PrintItems(lib, items, level, pretty)|
    ensures Wrote(buf, before, at, done + PrintItems(lib, items, level, pretty))
    decreases items, 1
  {
    hide Wrote, Print, PrintItems, Indent, ItemText, WellFormed;
    ghost var all := done + PrintItems(lib, items, level, pretty);
    ghost var soFar := done;
    newTotal := total;
    assert items[0..] == items;
    for i := 0 to |items|
      invariant newTotal == |soFar| && Wrote(buf, before, at, soFar)
      invariant soFar + PrintItems(lib, items[i..], level, pretty) == all
    {
      ItemTextFirst(lib, items, i, level, pretty);
      Associate(soFar, ItemText(lib, items, i, level, pretty), PrintItems(lib, items[i + 1..], level, pretty));
      newTotal := SerializeItem(lib, items, i, buf, at, newTotal, level, pretty, before, soFar);
      soFar := soFar + ItemText(lib, items, i, level, pretty);
    }
    ItemTextNone(lib, items[|items|..], level, pretty, soFar);
  }

  lemma ItemTextNone(lib: LibC, none: seq<Json>, level: nat, pretty: bool, done: string)
    requires none == []
    ensures done + PrintItems(lib, none, level, pretty) == done
  {
    assert PrintItems(lib, none, level, pretty) == "";
  }

  lemma ItemTextFirst(lib: LibC, items: seq<Json>, i: nat, level: nat, pretty: bool)
    requires i < |items|
    ensures PrintItems(lib, items[i..], level, pretty)
      == ItemText(lib, items, i, level, pretty) + PrintItems(lib, items[i + 1..], level, pretty)
  {
    hide Print, Separator, IndentIf;
    assert items[i..][0] == items[i] && items[i..][1..] == items[i + 1..];
  }

  /** One round of the array loop. */
  method SerializeItem(lib: LibC, items: seq<Json>, i: nat, buf: array?<char>, at: nat, total: nat, level: nat,
                       pretty: bool, ghost before: string, ghost done: string)
    returns (newTotal: nat)
    requires i < |items| && WellFormed(items[i])
    requires total == |done| && Wrote(buf, before, at, done)
      && HasRoom(buf, at, |done + ItemText(lib, items, i, level, pretty)|)
    modifies buf
    ensures newTotal == |done + ItemText(lib, items, i, level, pretty)|
    ensures Wrote(buf, before, at, done + ItemText(lib, items, i, level, pretty))
    decreases items, 0
  {
    hide Wrote, Print, Separator, IndentIf;
    newTotal := AppendIndentIf(buf, at, total, level + 1, pretty, before, done);
    ghost var indented := done + IndentIf(pretty, level + 1);
    ghost var middle := Contents(buf);
    var n := Serialize(lib, items[i], buf, at + newTotal, level + 1, pretty);
    WroteThen(buf, before, middle, at, indented, Print(lib, items[i], level + 1, pretty));
    newTotal := AppendSeparator(buf, at, newTotal + n, i, |items|, pretty, before,
                                indented + Print(lib, items[i], level + 1, pretty));
    Associate(done, IndentIf(pretty, level + 1), Print(lib, items[i], level + 1, pretty));
    Associate(done, IndentIf(pretty, level + 1) + Print(lib, items[i], level + 1, pretty),
              Separator(i == |items| - 1, pretty));
  }

  function ItemText(lib: LibC, items: seq<Json>, i: nat, level: nat, pretty: bool): string
    requires i < |items|
  {
    IndentIf(pretty, level + 1) + Print(lib, items[i], level + 1, pretty) + Separator(i == |items| - 1, pretty)
  }

  method SerializeObject(lib: LibC, v: Json, buf: array?<char>, at: nat, level: nat, pretty: bool)
    returns (written: nat)
    requires v.Obj? && WellFormed(v) && HasRoom(buf, at, |Print(lib, v, level, pretty)|)
    modifies buf
    ensures written == |Print(lib, v, level, pretty)|
    ensures Wrote(buf, old(Contents(buf)), at, Print(lib, v, level, pretty)) && Terminated(buf, at + written)
    decreases v, 1
  {
    var fields := v.fields;
    ghost var before := Contents(buf);
    NothingWritten(buf, at);
    ObjectParts(lib, fields, level, pretty);
    hide Wrote, Print, PrintFields, Indent;
    written := Append(buf, at, 0, "{", before, "");
    ghost var done := "" + "{";
    if |fields| > 0 && pretty {
      written := Append(buf, at, written, "\n", before, done);
      done := done + "\n";
    }
    written := SerializeObjectLoop(lib, fields, buf, at, written, level, pretty, before, done);
    done := done + PrintFields(lib, fields, level, pretty);
    if |fields| > 0 && pretty {
      written := AppendIndentIf(buf, at, written, level, pretty, before, done);
      done := done + Indent(level);
    }
    written := Append(buf, at, written, "}", before, done);
  }

  lemma ObjectParts(lib: LibC, fields: seq<Field>, level: nat, pretty: bool)
    ensures var open := if fields != [] && pretty then "" + "{" + "\n" else "" + "{";
      var filled := open + PrintFields(lib, fields, level, pretty);
      Print(lib, Obj(fields), level, pretty)
        == (if fields != [] && pretty then filled + Indent(level) else filled) + "}"
  {
    hide PrintFields, Indent;
    var filled := PrintFields(lib, fields, level, pretty);
    if fields != [] {
      var open := "{" + NewlineIf(pretty);
      assert "" + "{" == "{" && "{" + "" == "{";
      Associate(open, filled, Closing(pretty, level, "}"));
      Associate(open + filled, IndentIf(pretty, level), "}");
      assert open + filled + "" == open + filled;
    } else {
      FieldTextNone(lib, fields, level, pretty, "" + "{");
      assert "" + "{" + "}" == "{}";
    }
  }

  /** The object loop. */
  method SerializeObjectLoop(lib: LibC, fields: seq<Field>, buf: array?<char>, at: nat, total: nat, level: nat,
                             pretty: bool, ghost before: string, ghost done: string)
    returns (newTotal: nat)
    requires Distinct(fields) && forall i :: 0 <= i < |fields| ==> WellFormed(fields[i].value)
    requires total == |done| && Wrote(buf, before, at, done)
      && HasRoom(buf, at, |done + PrintFields(lib, fields, level, pretty)|)
    modifies buf
    ensures newTotal == |done + PrintFields(lib, fields, level, pretty)|
    ensures Wrote(buf, before, at, done + PrintFields(lib, fields, level, pretty))
    decreases fields, 1
  {
    hide Wrote, Print, PrintFields, Indent, FieldText, WellFormed;
    ghost var all := done + PrintFields(lib, fields, level, pretty);
    ghost var soFar := done;
    newTotal := total;
    assert fields[0..] == fields;
    for i := 0 to |fields|
      invariant newTotal == |soFar| && Wrote(buf, before, at, soFar)
      invariant soFar + PrintFields(lib, fields[i..], level, pretty) == all
    {
      FieldTextFirst(lib, fields, i, level, pretty);
      Associate(soFar, FieldText(lib, fields, i, level, pretty), PrintFields(lib, fields[i + 1..], level, pretty));
      newTotal := SerializeField(lib, fields, i, buf, at, newTotal, level, pretty, before, soFar);
      soFar := soFar + FieldText(lib, fields, i, level, pretty);
    }
    FieldTextNone(lib, fields[|fields|..], level, pretty, soFar);
  }

  lemma FieldTextNone(lib: LibC, none: seq<Field>, level: nat, pretty: bool, done: string)
    requires none == []
    ensures done + PrintFields(lib, none, level, pretty) == done
  {
    assert PrintFields(lib, none, level, pretty) == "";
  }

  lemma FieldTextFirst(lib: LibC, fields: seq<Field>, i: nat, level: nat, pretty: bool)
    requires i < |fields|
    ensures PrintFields(lib, fields[i..], level, pretty)
      == FieldText(lib, fields, i, level, pretty) + PrintFields(lib, fields[i + 1..], level, pretty)
  {
    hide Print, PrintField, Separator, IndentIf;
    assert fields[i..][0] == fields[i] && fields[i..][1..] == fields[i + 1..];
  }

  /** One round of the object loop; the value is looked up by its name. */
  method SerializeField(lib: LibC, fields: seq<Field>, i: nat, buf: array?<char>, at: nat, total: nat, level: nat,
                        pretty: bool, ghost before: string, ghost done: string)
    returns (newTotal: nat)
    requires i < |fields| && WellFormed(fields[i].value) && Distinct(fields)
    requires total == |done| && Wrote(buf, before, at, done)
      && HasRoom(buf, at, |done + FieldText(lib, fields, i, level, pretty)|)
    modifies buf
    ensures newTotal == |done + FieldText(lib, fields, i, level, pretty)|
    ensures Wrote(buf, before, at, done + FieldText(lib, fields, i, level, pretty))
    decreases fields, 0
  {
    hide Wrote, Print, Separator, IndentIf, PrintString;
    newTotal := AppendIndentIf(buf, at, total, level + 1, pretty, before, done);
    ghost var indented := done + IndentIf(pretty, level + 1);
    var f := fields[i];
    var value := fields[IndexOf(fields, f.name)].value;
    newTotal := SerializeMember(lib, f, value, buf, at, newTotal, level, pretty, before, indented);
    hide PrintField;
    newTotal := AppendSeparator(buf, at, newTotal, i, |fields|, pretty, before,
                                indented + PrintField(lib, f, level, pretty));
    Associate(done, IndentIf(pretty, level + 1), PrintField(lib, f, level, pretty));
    Associate(done, IndentIf(pretty, level + 1) + PrintField(lib, f, level, pretty),
              Separator(i == |fields| - 1, pretty));
  }

  method SerializeMember(lib: LibC, f: Field, value: Json, buf: array?<char>, at: nat, total: nat, level: nat,
                         pretty: bool, ghost before: string, ghost done: string)
    returns (newTotal: nat)
    requires value == f.value && WellFormed(value)
    requires total == |done| && Wrote(buf, before, at, done)
      && HasRoom(buf, at, |done + PrintField(lib, f, level, pretty)|)
    modifies buf
    ensures newTotal == |done + PrintField(lib, f, level, pretty)|
    ensures Wrote(buf, before, at, done + PrintField(lib, f, level, pretty))
    decreases f, 3
  {
    assert buf != null ==> Filled(before, buf[..], at, done);
    hide Wrote, Print, PrintString, Filled;
    ghost var name := PrintString(f.name) + ":" + (if pretty then " " else "");
    ghost var printed := Print(lib, value, level + 1, pretty);
    assert PrintField(lib, f, level, pretty) == name + printed;
    Associate(done, name, printed);
    hide PrintField;
    newTotal := SerializeName(f.name, buf, at, total, pretty, before, done);
    ghost var middle := Contents(buf);
    var n := Serialize(lib, value, buf, at + newTotal, level + 1, pretty);
    WroteThen(buf, before, middle, at, done + name, printed);
    newTotal := newTotal + n;
  }

  method SerializeName(name: string, buf: array?<char>, at: nat, total: nat, pretty: bool,
                       ghost before: string, ghost done: string)
    returns (newTotal: nat)
    requires total == |done| && Wrote(buf, before, at, done)
    requires HasRoom(buf, at, |done + (PrintString(name) + ":" + (if pretty then " " else ""))|)
    modifies buf
    ensures newTotal == |done + (PrintString(name) + ":" + (if pretty then " " else ""))|
    ensures Wrote(buf, before, at, done + (PrintString(name) + ":" + (if pretty then " " else "")))
  {
    assert buf != null ==> Filled(before, buf[..], at, done);
    hide Wrote, PrintString, Filled;
    ghost var quoted := PrintString(name);
    ghost var middle := Contents(buf);
    var n := SerializeString(buf, at + total, name);
    WroteThen(buf, before, middle, at, done, quoted);
    newTotal := Append(buf, at, total + n, ":", before, done + quoted);
    if pretty {
      newTotal := Append(buf, at, newTotal, " ", before, done + quoted + ":");
    } else {
      assert quoted + ":" + "" == quoted + ":";
    }
    Associate(done, quoted, ":");
    Associate(done, quoted + ":", if pretty then " " else "");
  }

  function FieldText(lib: LibC, fields: seq<Field>, i: nat, level: nat, pretty: bool): string
    requires i < |fields|
  {
    IndentIf(pretty, level + 1) + PrintField(lib, fields[i], level, pretty) + Separator(i == |fields| - 1, pretty)
  }

  // ---- Entry points ----

  /** json_serialization_size and json_serialization_size_pretty: the dry run. C's int must hold the length. */
  method SerializationSize(lib: LibC, v: Json, pretty: bool) returns (size: nat)
    requires WellFormed(v) && |Print(lib, v, 0, pretty)| < INT_MAX
    ensures size == |Print(lib, v, 0, pretty)| + 1
  {
    var written := Serialize(lib, v, null, 0, 0, pretty);
    size := written + 1;
  }

  /**
   * json_serialize_to_buffer and its pretty twin: refuse a short buffer, else write exactly the text and one
   * terminator.
   */
  method SerializeToBuffer(lib: LibC, v: Json, pretty: bool, buf: array<char>) returns (ok: bool)
    requires WellFormed(v) && |Print(lib, v, 0, pretty)| < INT_MAX
    modifies buf
    ensures ok <==> |Print(lib, v, 0, pretty)| < buf.Length
    ensures var n := |Print(lib, v, 0, pretty)|;
      if ok then
        buf[..n] == Print(lib, v, 0, pretty) && buf[n] == NUL && buf[n + 1..] == old(buf[n + 1..])
      else buf[..] == old(buf[..])
  {
    var needed := SerializationSize(lib, v, pretty);
    if buf.Length < needed {
      return false;
    }
    ghost var before := buf[..];
    var written := Serialize(lib, v, buf, 0, 0, pretty);
    hide Print;
    assert before[..0] + Print(lib, v, 0, pretty) == Print(lib, v, 0, pretty);
    assert buf[..][..written] == buf[..written];
    assert buf[..][written + 1..] == buf[written + 1..];
    assert before[written + 1..] == old(buf[written + 1..]);
    return true;
  }

  /** json_serialize_to_string: a buffer of the computed size is filled to its last byte. */
  method SerializeToString(lib: LibC, v: Json, pretty: bool) returns (buf: array<char>)
    requires WellFormed(v) && |Print(lib, v, 0, pretty)| < INT_MAX
    ensures fresh(buf) && buf[..] == Print(lib, v, 0, pretty) + [NUL]
  {
    var size := SerializationSize(lib, v, pretty);
    buf := new char[size];
    var ok := SerializeToBuffer(lib, v, pretty, buf);
    hide Print;
    assert buf[..] == buf[..size - 1] + [buf[size - 1]];
  }
}
