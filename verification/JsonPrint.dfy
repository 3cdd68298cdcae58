/** The text Parson writes for a value, compact or pretty. */
module JsonPrint {
  import opened JsonValue

  function HexDigit(d: nat): char
    requires d < 16
  {
    "0123456789abcdef"[d]
  }

  function EscapeChar(c: char): string {
    if c == '\"' then "\\\""
    else if c == '\\' then "\\\\"
    else if c == 8 as char then "\\b"
    else if c == 12 as char then "\\f"
    else if c == '\n' then "\\n"
    else if c == '\r' then "\\r"
    else if c == '\t' then "\\t"
    else if c < ' ' then "\\u00" + [HexDigit(c as int / 16), HexDigit(c as int % 16)]
    else [c]
  }

  function Escape(s: string): string {
    if s == "" then "" else EscapeChar(s[0]) + Escape(s[1..])
  }

  function PrintString(s: string): string {
    "\"" + Escape(s) + "\""
  }

  function Digit(d: nat): char
    requires d < 10
  {
    "0123456789"[d]
  }

  function Decimal(n: nat): (s: string) {
    if n < 10 then [Digit(n)] else Decimal(n / 10) + [Digit(n % 10)]
  }

  function Indent(level: nat): string {
    if level == 0 then "" else Indent(level - 1) + "    "
  }

  function IndentIf(pretty: bool, level: nat): string {
    if pretty then Indent(level) else ""
  }

  function NewlineIf(pretty: bool): string {
    if pretty then "\n" else ""
  }

  function Closing(pretty: bool, level: nat, bracket: string): string {
    IndentIf(pretty, level) + bracket
  }

  function Print(lib: LibC, v: Json, level: nat, pretty: bool): string
    decreases v, 1
  {
    match v
    case Null => "null"
    case Bool(b) => if b then "true" else "false"
    case Uint(n) => Decimal(n)
    case Number(x) => lib.format(x)
    case Str(s) => PrintString(s)
    case Arr(items) =>
      if items == [] then "[]"
      else "[" + NewlineIf(pretty) + (PrintItems(lib, items, level, pretty) + Closing(pretty, level, "]"))
    case Obj(fields) =>
      if fields == [] then "{}"
      else "{" + NewlineIf(pretty) + (PrintFields(lib, fields, level, pretty) + Closing(pretty, level, "}"))
  }

  /** The separator after an element: a comma unless it is the last one, then the line break of the pretty layout. */
  function Separator(last: bool, pretty: bool): string {
    (if last then "" else ",") + NewlineIf(pretty)
  }

  function PrintItems(lib: LibC, items: seq<Json>, level: nat, pretty: bool): string
    decreases items, 0
  {
    if items == [] then ""
    else
      IndentIf(pretty, level + 1) + Print(lib, items[0], level + 1, pretty) + Separator(|items| == 1, pretty)
      + PrintItems(lib, items[1..], level, pretty)
  }

  function PrintFields(lib: LibC, fields: seq<Field>, level: nat, pretty: bool): string
    decreases fields, 0
  {
    if fields == [] then ""
    else
      IndentIf(pretty, level + 1) + PrintField(lib, fields[0], level, pretty) + Separator(|fields| == 1, pretty)
      + PrintFields(lib, fields[1..], level, pretty)
  }

  function PrintField(lib: LibC, f: Field, level: nat, pretty: bool): string
    decreases f, 2
  {
    PrintString(f.name) + ":" + (if pretty then " " else "") + Print(lib, f.value, level + 1, pretty)
  }
}
