/**
 A reader of JSON texts (RFC 8259).  It knows nothing of how values are printed: blanks, escapes in
 either case, surrogate pairs and any order of entries are read, and everything else is malformed.
 */
module JsonReader {
  import opened Wrappers
  import opened JsonNumbers
  import opened CanonicalJson

  datatype Parsed<+T> = Read(value: T, rest: string) | Malformed

  predicate IsBlank(c: char) {
    c == ' ' || c as int == 9 || c as int == 10 || c as int == 13
  }

  function Skip(text: string): (rest: string)
    ensures |rest| <= |text|
  {
    if text != [] && IsBlank(text[0]) then Skip(text[1..]) else text
  }

  // ----- Strings (section 7)

  function HexNumber(c: char): (n: Option<nat>)
    ensures n.Some? ==> n.value < 16
  {
    if '0' <= c <= '9' then Some(c as int - '0' as int)
    else if 'a' <= c <= 'f' then Some(c as int - 'a' as int + 10)
    else if 'A' <= c <= 'F' then Some(c as int - 'A' as int + 10)
    else None
  }

  /** The number of the first `count` hexadecimal digits. */
  function Hex(text: string, count: nat): (n: Option<nat>)
    requires count <= |text|
  {
    if count == 0 then Some(0)
    else
      match (Hex(text, count - 1), HexNumber(text[count - 1]))
      case (Some(high), Some(low)) => Some(16 * high + low)
      case _ => None
  }

  /** What follows a backslash and a u; characters beyond the basic plane come as a pair of surrogates. */
  function ReadUnicode(text: string): (r: Parsed<char>)
    ensures r.Read? ==> |r.rest| < |text|
  {
    if |text| < 4 || Hex(text, 4).None? then Malformed
    else
      var high := Hex(text, 4).value;
      if high < 0xD800 || 0xE000 <= high < 0x10000 then Read(high as char, text[4..])
      else if |text| < 10 || text[4..6] != "\\u" || Hex(text[6..], 4).None? then Malformed
      else
        var low := Hex(text[6..], 4).value;
        if high < 0xDC00 && 0xDC00 <= low < 0xE000 then
          Read((0x10000 + (high - 0xD800) * 0x400 + (low - 0xDC00)) as char, text[10..])
        else Malformed
  }

  function ReadEscape(text: string): (r: Parsed<char>)
    ensures r.Read? ==> |r.rest| < |text|
  {
    if text == [] then Malformed
    else if text[0] == '\"' || text[0] == '\\' || text[0] == '/' then Read(text[0], text[1..])
    else if text[0] == 'b' then Read(8 as char, text[1..])
    else if text[0] == 'f' then Read(12 as char, text[1..])
    else if text[0] == 'n' then Read(10 as char, text[1..])
    else if text[0] == 'r' then Read(13 as char, text[1..])
    else if text[0] == 't' then Read(9 as char, text[1..])
    else if text[0] == 'u' then ReadUnicode(text[1..])
    else Malformed
  }

  function ReadChar(text: string): (r: Parsed<char>)
    ensures r.Read? ==> |r.rest| < |text|
  {
    if text == [] || text[0] as int < 0x20 then Malformed
    else if text[0] == '\\' then ReadEscape(text[1..])
    else Read(text[0], text[1..])
  }

  /** The characters up to the closing quotation mark. */
  function ReadString(text: string): (r: Parsed<string>)
    ensures r.Read? ==> |r.rest| < |text|
    decreases |text|
  {
    if text != [] && text[0] == '\"' then Read([], text[1..])
    else
      match ReadChar(text)
      case Malformed => Malformed
      case Read(c, rest) =>
        match ReadString(rest)
        case Malformed => Malformed
        case Read(s, end) => Read([c] + s, end)
  }

  // ----- Values (sections 3 to 6)

  function ReadNumber(text: string): (r: Parsed<Json>)
    ensures r.Read? ==> |r.rest| < |text|
  {
    var (place, length) := Walk(Begin, text);
    if Final(place) then
      WalkWithin(Begin, text);
      Read(Num(text[..length]), text[length..])
    else Malformed
  }

  predicate Starts(text: string, word: string) {
    word <= text
  }

  function ReadWord(text: string, word: string, value: Json): Parsed<Json> {
    if Starts(text, word) then Read(value, text[|word|..]) else Malformed
  }

  function ReadValue(text: string): (r: Parsed<Json>)
    ensures r.Read? ==> |r.rest| < |text|
    decreases |text|, 1
  {
    ReadAt(Skip(text))
  }

  /** The first character tells what is to be read. */
  function ReadAt(text: string): (r: Parsed<Json>)
    ensures r.Read? ==> |r.rest| < |text|
    decreases |text|, 0
  {
    if text == [] then Malformed
    else if text[0] == '\"' then
      match ReadString(text[1..]) case Malformed => Malformed case Read(s, rest) => Read(Str(s), rest)
    else if text[0] == '[' then
      if Starts(Skip(text[1..]), "]") then Read(Arr([]), Skip(text[1..])[1..])
      else match ReadItems(text[1..]) case Malformed => Malformed case Read(items, rest) => Read(Arr(items), rest)
    else if text[0] == '{' then
      if Starts(Skip(text[1..]), "}") then Read(Obj([]), Skip(text[1..])[1..])
      else match ReadFields(text[1..]) case Malformed => Malformed case Read(fields, rest) => Read(Obj(fields), rest)
    else if text[0] == 'n' then ReadWord(text, "null", Null)
    else if text[0] == 't' then ReadWord(text, "true", Bool(true))
    else if text[0] == 'f' then ReadWord(text, "false", Bool(false))
    else ReadNumber(text)
  }

  /** Values with commas between them, and the closing bracket. */
  function ReadItems(text: string): (r: Parsed<seq<Json>>)
    ensures r.Read? ==> |r.rest| < |text|
    decreases |text|, 2
  {
    match ReadValue(text)
    case Malformed => Malformed
    case Read(item, rest) =>
      var next := Skip(rest);
      if Starts(next, "]") then Read([item], next[1..])
      else if Starts(next, ",") then
        match ReadItems(next[1..]) case Malformed => Malformed case Read(items, end) => Read([item] + items, end)
      else Malformed
  }

  /** A string, a colon and a value. */
  function ReadField(text: string): (r: Parsed<Field>)
    ensures r.Read? ==> |r.rest| < |text|
    decreases |text|, 2
  {
    var t := Skip(text);
    if !Starts(t, "\"") then Malformed
    else
      match ReadString(t[1..])
      case Malformed => Malformed
      case Read(key, rest) =>
        var colon := Skip(rest);
        if !Starts(colon, ":") then Malformed
        else
          match ReadValue(colon[1..])
          case Malformed => Malformed
          case Read(value, end) => Read(Field(key, value), end)
  }

  /** Fields with commas between them, and the closing brace. */
  function ReadFields(text: string): (r: Parsed<seq<Field>>)
    ensures r.Read? ==> |r.rest| < |text|
    decreases |text|, 3
  {
    match ReadField(text)
    case Malformed => Malformed
    case Read(field, rest) =>
      var next := Skip(rest);
      if Starts(next, "}") then Read([field], next[1..])
      else if Starts(next, ",") then
        match ReadFields(next[1..]) case Malformed => Malformed case Read(fields, end) => Read([field] + fields, end)
      else Malformed
  }

  /** A whole text: one value, with blanks around it. */
  function ReadText(text: string): Option<Json> {
    match ReadValue(text)
    case Malformed => None
    case Read(value, rest) => if Skip(rest) == [] then Some(value) else None
  }
}
