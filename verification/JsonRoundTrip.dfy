/** The canonical text is JSON, and what a reader makes of it is the value. */
module JsonRoundTrip {
  import opened Wrappers
  import opened Strings
  import opened JsonNumbers
  import opened CanonicalJson
  import opened JsonReader

  // ----- Strings

  lemma HexReads(n: nat)
    requires n < 16
    ensures HexNumber(HexDigit(n)) == Some(n)
  {
  }

  lemma ControlReads(n: nat, x: string)
    requires n < 32
    ensures ReadUnicode(['0', '0', HexDigit(n / 16), HexDigit(n % 16)] + x) == Read(n as char, x)
  {
    var text := ['0', '0', HexDigit(n / 16), HexDigit(n % 16)] + x;
    HexReads(n / 16);
    HexReads(n % 16);
    HexReads(0);
    assert Hex(text, 0) == Some(0);
    assert Hex(text, 1) == Some(0);
    assert Hex(text, 2) == Some(0);
    assert Hex(text, 3) == Some(n / 16);
    assert Hex(text, 4) == Some(16 * (n / 16) + n % 16);
    assert text[4..] == x;
  }

  lemma EscapedReadBack(escape: string, x: string)
    requires |escape| > 1 && escape[0] == '\\'
    ensures ReadChar(escape + x) == ReadEscape([escape[1]] + (escape[2..] + x))
  {
    var text := escape + x;
    assert text[0] == '\\' && text[1..] == [escape[1]] + (escape[2..] + x);
  }

  lemma EscapeCharReadBack(c: char, x: string)
    ensures ReadChar(EscapeChar(c) + x) == Read(c, x)
  {
    var escape := EscapeChar(c);
    if |escape| == 1 {
      assert (escape + x)[1..] == x;
    } else {
      EscapedReadBack(escape, x);
      Uncons(escape[1], escape[2..] + x);
      if |escape| == 6 {
        ControlReads(c as int, x);
        assert escape[2..] == ['0', '0', HexDigit(c as int / 16), HexDigit(c as int % 16)];
      } else {
        assert escape[2..] + x == x;
      }
    }
  }

  /** A printed string is read back, whatever follows it. */
  lemma {:induction false} StringReadBack(s: string, x: string)
    ensures ReadString(Escape(s) + "\"" + x) == Read(s, x)
  {
    EscapeStep(s, x);
    if s == [] {
      assert ("\"" + x)[1..] == x;
    } else {
      var rest := Escape(s[1..]) + "\"" + x;
      EscapeCharReadBack(s[0], rest);
      StringReadBack(s[1..], x);
      assert s == [s[0]] + s[1..];
    }
  }

  lemma QuoteReadBack(s: string, x: string)
    ensures Quote(s) + x != [] && (Quote(s) + x)[0] == '\"'
    ensures ReadString((Quote(s) + x)[1..]) == Read(s, x)
  {
    Assoc("\"", Escape(s), "\"");
    Assoc("\"", Escape(s) + "\"", x);
    Uncons('\"', Escape(s) + "\"" + x);
    StringReadBack(s, x);
  }

  // ----- Values

  ghost predicate ReadsAs(text: string, w: Json) {
    forall x :: Delimited(x) ==> ReadValue(text + x) == Read(w, x)
  }

  lemma OneReading(text: string, w: Json, u: Json)
    requires ReadsAs(text, w) && ReadsAs(text, u)
    ensures w == u
  {
    assert ReadValue(text + []) == Read(w, []) && ReadValue(text + []) == Read(u, []);
  }

  /** No undefined, no number that is not finite and no date is left. */
  ghost predicate Plain(w: Json) {
    match w
    case Arr(items) => forall i :: 0 <= i < |items| ==> Plain(items[i])
    case Obj(fields) => forall i :: 0 <= i < |fields| ==> Plain(fields[i].value)
    case _ => !w.Undefined? && !w.NonFinite? && !w.Date?
  }

  /** The entries of every object are in order. */
  ghost predicate InOrder(le: (string, string) -> bool, w: Json)
    decreases w
  {
    match w
    case Arr(items) => forall i :: 0 <= i < |items| ==> InOrder(le, items[i])
    case Obj(fields) =>
      && (forall i :: 0 <= i < |fields| ==> InOrder(le, fields[i].value))
      && (forall i, j :: 0 <= i < j < |fields| ==> le(fields[i].key, fields[j].key))
    case _ => true
  }

  /** What reading the text of v is to give. */
  ghost predicate Shows(le: (string, string) -> bool, v: Json, w: Json) {
    && Equivalent(v, w) && Plain(w)
    && (TotalPreorder(le) ==> InOrder(le, w))
    && (WellFormed(v) ==> WellFormed(w))
  }

  lemma NotBlank(text: string)
    requires text != [] && !IsBlank(text[0])
    ensures Skip(text) == text
  {
  }

  lemma NumberReadBack(text: NumberText)
    ensures ReadsAs(text, Num(text))
  {
    NumberTextChars(text);
    forall x | Delimited(x) ensures ReadValue(text + x) == Read(Num(text), x) {
      WalkThen(Begin, text, x);
      Strip(text, x);
      assert (text + x)[0] == text[0];
      NotBlank(text + x);
      assert ReadAt(text + x) == ReadNumber(text + x);
    }
  }

  lemma WordReadsBack(word: string, w: Json)
    requires (word, w) in {("null", Null), ("true", Bool(true)), ("false", Bool(false))}
    ensures ReadsAs(word, w)
  {
    forall x | Delimited(x) ensures ReadValue(word + x) == Read(w, x) {
      var t := word + x;
      assert t[0] == word[0];
      Strip(word, x);
      NotBlank(t);
      assert word <= t;
    }
  }

  lemma StrReadsBack(s: string)
    ensures ReadsAs(Quote(s), Str(s))
  {
    forall x | Delimited(x) ensures ReadValue(Quote(s) + x) == Read(Str(s), x) {
      QuoteReadBack(s, x);
      NotBlank(Quote(s) + x);
    }
  }

  lemma TailStarts(more: bool, rest: string, close: string)
    requires close != [] && (close[0] == ']' || close[0] == '}')
    ensures var tail := Tail(more, rest, close);
            && Skip(tail) == tail
            && (more ==> tail[0] == ',' && tail[1..] == rest + close)
            && (!more ==> tail == close)
  {
    if more {
      Assoc(",", rest, close);
      Uncons(',', rest + close);
    }
  }

  ghost predicate AllRead(le: (string, string) -> bool, items: seq<Json>, ws: seq<Json>) {
    |ws| == |items| && forall i :: 0 <= i < |items| ==> ReadsAs(Canonical(le, items[i]), ws[i])
  }

  lemma RestRead(le: (string, string) -> bool, items: seq<Json>, ws: seq<Json>)
    requires items != [] && AllRead(le, items, ws)
    ensures AllRead(le, items[1..], ws[1..])
  {
  }

  /** A comma leads to more items, a bracket to none. */
  lemma ItemsGoOn(text: string, item: Json, next: string, more: seq<Json>, x: string)
    requires ReadValue(text) == Read(item, next) && Skip(next) == next && next != []
    requires if more == [] then next[0] == ']' && next[1..] == x
             else next[0] == ',' && ReadItems(next[1..]) == Read(more, x)
    ensures ReadItems(text) == Read([item] + more, x)
  {
    assert more == [] ==> [item] + more == [item];
  }

  lemma FirstItemReadBack(le: (string, string) -> bool, items: seq<Json>, w: Json, x: string) returns (next: string)
    requires items != [] && ReadsAs(Canonical(le, items[0]), w)
    ensures ReadValue(PrintItems(le, items) + ("]" + x)) == Read(w, next) && Skip(next) == next
    ensures next != [] && next[0] == if |items| > 1 then ',' else ']'
    ensures next[1..] == if |items| > 1 then PrintItems(le, items[1..]) + ("]" + x) else x
  {
    var close, more := "]" + x, |items| > 1;
    var rest := PrintItems(le, items[1..]);
    next := Tail(more, rest, close);
    ItemsStep(le, items, close);
    TailStarts(more, rest, close);
    assert ReadValue(Canonical(le, items[0]) + next) == Read(w, next);
    Uncons(']', x);
  }

  lemma {:induction false} ItemsReadBack(le: (string, string) -> bool, items: seq<Json>, ws: seq<Json>, x: string)
    requires items != [] && AllRead(le, items, ws)
    ensures ReadItems(PrintItems(le, items) + ("]" + x)) == Read(ws, x)
  {
    var next := FirstItemReadBack(le, items, ws[0], x);
    if |items| > 1 {
      RestRead(le, items, ws);
      ItemsReadBack(le, items[1..], ws[1..], x);
    }
    ItemsGoOn(PrintItems(le, items) + ("]" + x), ws[0], next, ws[1..], x);
    assert ws == [ws[0]] + ws[1..];
  }

  /** The fields have the keys of the entries and the values their texts are read as. */
  ghost predicate Match(es: seq<Entry>, fields: seq<Field>) {
    |fields| == |es| && forall k :: 0 <= k < |es| ==> fields[k].key == es[k].key && ReadsAs(es[k].text, fields[k].value)
  }

  lemma RestMatch(es: seq<Entry>, fields: seq<Field>)
    requires es != [] && Match(es, fields)
    ensures Match(es[1..], fields[1..])
  {
  }

  lemma FieldsGoOn(text: string, field: Field, next: string, more: seq<Field>, x: string)
    requires ReadField(text) == Read(field, next) && Skip(next) == next && next != []
    requires if more == [] then next[0] == '}' && next[1..] == x
             else next[0] == ',' && ReadFields(next[1..]) == Read(more, x)
    ensures ReadFields(text) == Read([field] + more, x)
  {
    assert more == [] ==> [field] + more == [field];
  }

  lemma FieldReadBack(e: Entry, w: Json, x: string)
    requires ReadsAs(e.text, w) && Delimited(x)
    ensures ReadField(Quote(e.key) + (":" + (e.text + x))) == Read(Field(e.key, w), x)
  {
    var text := Quote(e.key) + (":" + (e.text + x));
    QuoteReadBack(e.key, ":" + (e.text + x));
    NotBlank(text);
    Uncons(':', e.text + x);
    NotBlank(":" + (e.text + x));
    assert ReadValue(e.text + x) == Read(w, x);
  }

  lemma FirstFieldReadBack(es: seq<Entry>, fields: seq<Field>, x: string) returns (next: string)
    requires es != [] && Match(es, fields)
    ensures ReadField(PrintEntries(es) + ("}" + x)) == Read(fields[0], next) && Skip(next) == next
    ensures next != [] && next[0] == if |es| > 1 then ',' else '}'
    ensures next[1..] == if |es| > 1 then PrintEntries(es[1..]) + ("}" + x) else x
  {
    var close, more := "}" + x, |es| > 1;
    var rest := PrintEntries(es[1..]);
    next := Tail(more, rest, close);
    EntriesStep(es, close);
    TailStarts(more, rest, close);
    TailDelimited(more, rest, close);
    FieldReadBack(es[0], fields[0].value, next);
    assert fields[0] == Field(es[0].key, fields[0].value);
    Uncons('}', x);
  }

  lemma {:induction false} FieldsReadBack(es: seq<Entry>, fields: seq<Field>, x: string)
    requires es != [] && Match(es, fields)
    ensures ReadFields(PrintEntries(es) + ("}" + x)) == Read(fields, x)
  {
    var next := FirstFieldReadBack(es, fields, x);
    if |es| > 1 {
      RestMatch(es, fields);
      FieldsReadBack(es[1..], fields[1..], x);
    }
    FieldsGoOn(PrintEntries(es) + ("}" + x), fields[0], next, fields[1..], x);
    assert fields == [fields[0]] + fields[1..];
  }

  lemma ArrReadsAs(le: (string, string) -> bool, items: seq<Json>, ws: seq<Json>)
    requires AllRead(le, items, ws)
    ensures ReadsAs("[" + PrintItems(le, items) + "]", Arr(ws))
  {
    forall x | Delimited(x) ensures ReadValue("[" + PrintItems(le, items) + "]" + x) == Read(Arr(ws), x) {
      var inner := PrintItems(le, items) + ("]" + x);
      Assoc("[" + PrintItems(le, items), "]", x);
      Assoc("[", PrintItems(le, items), "]" + x);
      Uncons('[', inner);
      NotBlank("[" + inner);
      if items == [] {
        assert inner == "]" + x;
        Uncons(']', x);
        NotBlank(inner);
        assert "]" <= inner;
      } else {
        ItemsStep(le, items, "]" + x);
        ItemsBegin(le, items, "]" + x);
        ItemsReadBack(le, items, ws, x);
      }
    }
  }

  lemma ItemsBegin(le: (string, string) -> bool, items: seq<Json>, close: string)
    requires items != []
    ensures var text := PrintItems(le, items) + close; Skip(text) == text && !Starts(text, "]")
  {
    FirstCharTells(le, items[0]);
    NotBlankKind(le, items[0]);
    var text := PrintItems(le, items) + close;
    assert text[0] == PrintItems(le, items)[0] == Canonical(le, items[0])[0];
  }

  lemma NotBlankKind(le: (string, string) -> bool, v: Json)
    ensures Canonical(le, v) != [] && !IsBlank(Canonical(le, v)[0])
  {
    FirstCharTells(le, v);
  }

  /** What stands behind the opening brace. */
  lemma ObjInside(es: seq<Entry>, fields: seq<Field>, x: string)
    requires Match(es, fields)
    ensures var inner := PrintEntries(es) + ("}" + x);
            && Skip(inner) == inner
            && (if es == [] then fields == [] && inner[0] == '}' && inner[1..] == x
                else inner[0] == '\"' && ReadFields(inner) == Read(fields, x))
  {
    var inner := PrintEntries(es) + ("}" + x);
    if es == [] {
      assert inner == "}" + x;
    } else {
      EntriesStep(es, "}" + x);
      FieldsReadBack(es, fields, x);
    }
  }

  lemma ObjReadsAs(es: seq<Entry>, fields: seq<Field>)
    requires Match(es, fields)
    ensures ReadsAs("{" + PrintEntries(es) + "}", Obj(fields))
  {
    forall x | Delimited(x) ensures ReadValue("{" + PrintEntries(es) + "}" + x) == Read(Obj(fields), x) {
      var inner := PrintEntries(es) + ("}" + x);
      Assoc("{" + PrintEntries(es), "}", x);
      Assoc("{", PrintEntries(es), "}" + x);
      Uncons('{', inner);
      NotBlank("{" + inner);
      ObjInside(es, fields, x);
    }
  }

  // ----- The whole value

  /** The entry of a defined field, with the reading of its text. */
  lemma {:induction false} EntryShows(le: (string, string) -> bool, v: Json, e: Entry) returns (w: Json)
    requires v.Obj? && FromField(le, e, v.fields)
    ensures ReadsAs(e.text, w)
    decreases v, 0
  {
    var i :| 0 <= i < |v.fields| && !v.fields[i].value.Undefined?
        && e == Entry(v.fields[i].key, Canonical(le, v.fields[i].value));
    w := ReadsBack(le, v.fields[i].value);
  }

  lemma {:induction false} EntriesShow(le: (string, string) -> bool, v: Json, es: seq<Entry>)
    returns (fields: seq<Field>)
    requires v.Obj? && forall e :: e in es ==> FromField(le, e, v.fields)
    ensures Match(es, fields)
    decreases v, 1, |es|
  {
    fields := [];
    if es != [] {
      var front, last := es[..|es| - 1], es[|es| - 1];
      fields := EntriesShow(le, v, front);
      var w := EntryShows(le, v, last);
      fields := fields + [Field(last.key, w)];
    }
  }

  ghost predicate Printed(le: (string, string) -> bool, v: Json, es: seq<Entry>, fields: seq<Field>) {
    v.Obj? && es == Sort(le, Entries(le, v.fields)) && Match(es, fields)
  }

  /** A printed field shows the defined field its entry is from. */
  lemma {:induction false} FieldShown(le: (string, string) -> bool, v: Json, es: seq<Entry>, fields: seq<Field>, k: nat)
    returns (i: nat)
    requires Printed(le, v, es, fields) && k < |es|
    ensures i < |v.fields| && !v.fields[i].value.Undefined? && v.fields[i].key == fields[k].key
    ensures Shows(le, v.fields[i].value, fields[k].value)
    decreases v, 0
  {
    SortMembers(le, Entries(le, v.fields), es[k]);
    EntriesMembers(le, v.fields, es[k]);
    i :| 0 <= i < |v.fields| && !v.fields[i].value.Undefined?
        && es[k] == Entry(v.fields[i].key, Canonical(le, v.fields[i].value));
    var w := ReadsBack(le, v.fields[i].value);
    OneReading(es[k].text, w, fields[k].value);
  }

  /** A defined field is shown by some printed field. */
  lemma {:induction false} FieldIsShown(le: (string, string) -> bool, v: Json, es: seq<Entry>, fields: seq<Field>,
                                        i: nat)
    requires Printed(le, v, es, fields) && i < |v.fields| && !v.fields[i].value.Undefined?
    ensures HasMatch(v.fields[i], fields)
    decreases v, 0
  {
    var e := Entry(v.fields[i].key, Canonical(le, v.fields[i].value));
    EntriesMembers(le, v.fields, e);
    SortMembers(le, Entries(le, v.fields), e);
    var k :| 0 <= k < |es| && es[k] == e;
    var w := ReadsBack(le, v.fields[i].value);
    OneReading(e.text, w, fields[k].value);
    PlainDefined(w);
    assert Equivalent(v.fields[i].value, fields[k].value);
  }

  lemma PlainDefined(w: Json)
    requires Plain(w)
    ensures !w.Undefined?
  {
  }

  lemma {:induction false} ObjectEquivalent(le: (string, string) -> bool, v: Json, es: seq<Entry>, fields: seq<Field>)
    requires Printed(le, v, es, fields)
    ensures Equivalent(v, Obj(fields)) && Plain(Obj(fields))
    decreases v, 1
  {
    forall i | 0 <= i < |v.fields| && !v.fields[i].value.Undefined? ensures HasMatch(v.fields[i], fields) {
      FieldIsShown(le, v, es, fields, i);
    }
    forall k | 0 <= k < |fields| ensures IsMatched(v.fields, fields[k]) && Plain(fields[k].value) {
      var i := FieldShown(le, v, es, fields, k);
    }
  }

  lemma {:induction false} ObjectInOrder(le: (string, string) -> bool, v: Json, es: seq<Entry>, fields: seq<Field>)
    requires Printed(le, v, es, fields) && TotalPreorder(le)
    ensures InOrder(le, Obj(fields))
    decreases v, 1
  {
    forall k | 0 <= k < |fields| ensures InOrder(le, fields[k].value) {
      var i := FieldShown(le, v, es, fields, k);
    }
    SortSorted(le, Entries(le, v.fields));
  }

  lemma {:induction false} ObjectWellFormed(le: (string, string) -> bool, v: Json, es: seq<Entry>, fields: seq<Field>)
    requires Printed(le, v, es, fields) && WellFormed(v)
    ensures WellFormed(Obj(fields))
    decreases v, 1
  {
    forall k | 0 <= k < |fields| ensures WellFormed(fields[k].value) {
      var i := FieldShown(le, v, es, fields, k);
      assert WellFormed(v.fields[i].value);
    }
    EntriesDistinct(le, v.fields);
    SortDistinct(le, Entries(le, v.fields));
  }

  lemma {:induction false} ObjectShows(le: (string, string) -> bool, v: Json, es: seq<Entry>, fields: seq<Field>)
    requires Printed(le, v, es, fields)
    ensures Shows(le, v, Obj(fields))
    decreases v, 2
  {
    ObjectEquivalent(le, v, es, fields);
    if TotalPreorder(le) {
      ObjectInOrder(le, v, es, fields);
    }
    if WellFormed(v) {
      ObjectWellFormed(le, v, es, fields);
    }
  }

  ghost predicate ReadsAndShows(le: (string, string) -> bool, v: Json, w: Json) {
    ReadsAs(Canonical(le, v), w) && Shows(le, v, w)
  }

  lemma {:induction false} ItemsShow(le: (string, string) -> bool, v: Json, items: seq<Json>)
    returns (ws: seq<Json>)
    requires v.Arr? && forall item :: item in items ==> item in v.items
    ensures |ws| == |items| && forall i :: 0 <= i < |items| ==> ReadsAndShows(le, items[i], ws[i])
    decreases v, 0, |items|
  {
    ws := [];
    if items != [] {
      var front, last := items[..|items| - 1], items[|items| - 1];
      ws := ItemsShow(le, v, front);
      assert last in items && last in v.items;
      var w := ReadsBack(le, last);
      ws := ws + [w];
    }
  }

  lemma ArrShows(le: (string, string) -> bool, items: seq<Json>, ws: seq<Json>)
    requires |ws| == |items| && forall i :: 0 <= i < |items| ==> ReadsAndShows(le, items[i], ws[i])
    ensures Shows(le, Arr(items), Arr(ws))
    ensures AllRead(le, items, ws)
  {
    forall i | 0 <= i < |items|
      ensures Shows(le, items[i], ws[i]) && ReadsAs(Canonical(le, items[i]), ws[i])
    {
      assert ReadsAndShows(le, items[i], ws[i]);
    }
  }

  lemma {:induction false} ObjReadsBack(le: (string, string) -> bool, v: Json) returns (w: Json)
    requires v.Obj?
    ensures ReadsAs(Canonical(le, v), w) && Shows(le, v, w)
    decreases v, 3
  {
    var es := Sort(le, Entries(le, v.fields));
    forall e | e in es ensures FromField(le, e, v.fields) {
      SortMembers(le, Entries(le, v.fields), e);
      EntriesMembers(le, v.fields, e);
    }
    var fields := EntriesShow(le, v, es);
    w := Obj(fields);
    ObjReadsAs(es, fields);
    ObjectShows(le, v, es, fields);
  }

  /** The canonical text reads as the value, whatever follows it that could not continue a number. */
  lemma {:induction false} ReadsBack(le: (string, string) -> bool, v: Json) returns (w: Json)
    ensures ReadsAs(Canonical(le, v), w) && Shows(le, v, w)
    decreases v, 4
  {
    match v
    case Str(s) =>
      w := Str(s);
      StrReadsBack(s);
    case Date(iso) =>
      w := Str(iso);
      StrReadsBack(iso);
    case Num(text) =>
      w := v;
      NumberReadBack(text);
    case Bool(b) =>
      w := v;
      WordReadsBack(if b then "true" else "false", w);
    case Arr(items) =>
      var ws := ItemsShow(le, v, items);
      w := Arr(ws);
      ArrShows(le, items, ws);
      ArrReadsAs(le, items, ws);
    case Obj(_) =>
      w := ObjReadsBack(le, v);
    case _ =>
      w := Null;
      WordReadsBack("null", w);
  }

  /**
   The canonical text is a JSON text.  It is read as the value with undefined fields dropped, null
   for what has no JSON form, strings for dates, and the entries of every object in key order.
   */
  lemma CanonicalIsJson(le: (string, string) -> bool, v: Json) returns (w: Json)
    requires WellFormed(v) && TotalPreorder(le)
    ensures ReadText(Canonical(le, v)) == Some(w)
    ensures Equivalent(v, w) && Plain(w) && InOrder(le, w) && WellFormed(w)
  {
    w := ReadsBack(le, v);
    assert Canonical(le, v) + [] == Canonical(le, v);
    assert Delimited([]) && ReadValue(Canonical(le, v) + []) == Read(w, []);
  }

  // ----- The spelling

  predicate NeedsEscape(c: char) {
    c == '\"' || c == '\\' || c as int < 32
  }

  /** The quotation mark, the backslash and five controls have short escapes; other controls have lower-case hex. */
  lemma EscapeSpelling(c: char)
    ensures |EscapeChar(c)| == if !NeedsEscape(c) then 1 else if c in "\"\\"
            || c as int in {8, 9, 10, 12, 13} then 2 else 6
    ensures |EscapeChar(c)| == 6 ==> forall d :: d in EscapeChar(c) ==> !('A' <= d <= 'Z')
  {
  }

  /** A string without such characters is printed as it is. */
  lemma {:induction false} PlainStringIsItself(s: string)
    requires forall c :: c in s ==> !NeedsEscape(c)
    ensures Quote(s) == "\"" + s + "\""
  {
    PlainEscape(s);
  }

  lemma {:induction false} PlainEscape(s: string)
    requires forall c :: c in s ==> !NeedsEscape(c)
    ensures Escape(s) == s
  {
    if s != [] {
      assert s[0] in s && EscapeChar(s[0]) == [s[0]];
      PlainEscape(s[1..]);
      assert s == [s[0]] + s[1..];
    }
  }

  /** No blank stands between the parts of a text: what blanks it has are in keys and strings. */
  ghost predicate Blankless(v: Json)
    decreases v
  {
    match v
    case Str(s) => ' ' !in s
    case Date(iso) => ' ' !in iso
    case Arr(items) => forall i :: 0 <= i < |items| ==> Blankless(items[i])
    case Obj(fields) => forall i :: 0 <= i < |fields| ==> ' ' !in fields[i].key && Blankless(fields[i].value)
    case _ => true
  }

  ghost predicate NoBlank(text: string) {
    forall c :: c in text ==> !IsBlank(c)
  }

  lemma EscapeNoBlank(c: char)
    requires c != ' '
    ensures NoBlank(EscapeChar(c))
  {
  }

  lemma {:induction false} QuoteNoBlank(s: string)
    requires ' ' !in s
    ensures NoBlank(Escape(s)) && NoBlank(Quote(s))
  {
    if s != [] {
      QuoteNoBlank(s[1..]);
      EscapeNoBlank(s[0]);
    }
  }

  lemma {:induction false} ItemsNoBlank(le: (string, string) -> bool, items: seq<Json>)
    requires forall i :: 0 <= i < |items| ==> NoBlank(Canonical(le, items[i]))
    ensures NoBlank(PrintItems(le, items))
  {
    if |items| > 1 {
      ItemsNoBlank(le, items[1..]);
    }
  }

  lemma {:induction false} EntriesNoBlank(es: seq<Entry>)
    requires forall e :: e in es ==> ' ' !in e.key && NoBlank(e.text)
    ensures NoBlank(PrintEntries(es))
  {
    if es != [] {
      assert es[0] in es;
      QuoteNoBlank(es[0].key);
      EntriesNoBlank(es[1..]);
    }
  }

  lemma NumberNoBlank(text: NumberText)
    ensures NoBlank(text)
  {
    NumberTextChars(text);
  }

  lemma NoBlankTogether(a: string, b: string, c: string)
    requires NoBlank(a) && NoBlank(b) && NoBlank(c)
    ensures NoBlank(a + b + c)
  {
  }

  lemma {:induction false} EntryNoBlank(le: (string, string) -> bool, v: Json, e: Entry)
    requires v.Obj? && Blankless(v) && e in Sort(le, Entries(le, v.fields))
    ensures ' ' !in e.key && NoBlank(e.text)
    decreases v, 0
  {
    SortMembers(le, Entries(le, v.fields), e);
    EntriesMembers(le, v.fields, e);
    var i :| 0 <= i < |v.fields| && !v.fields[i].value.Undefined?
        && e == Entry(v.fields[i].key, Canonical(le, v.fields[i].value));
    NoBlankBetween(le, v.fields[i].value);
  }

  lemma {:induction false} NoBlankBetween(le: (string, string) -> bool, v: Json)
    requires Blankless(v)
    ensures NoBlank(Canonical(le, v))
    decreases v, 1
  {
    match v
    case Str(s) => QuoteNoBlank(s);
    case Date(iso) => QuoteNoBlank(iso);
    case Num(text) => NumberNoBlank(text);
    case Arr(items) =>
      forall i | 0 <= i < |items| ensures NoBlank(Canonical(le, items[i])) {
        NoBlankBetween(le, items[i]);
      }
      ItemsNoBlank(le, items);
      NoBlankTogether("[", PrintItems(le, items), "]");
    case Obj(fields) =>
      var es := Sort(le, Entries(le, fields));
      forall e | e in es ensures ' ' !in e.key && NoBlank(e.text) {
        EntryNoBlank(le, v, e);
      }
      EntriesNoBlank(es);
      NoBlankTogether("{", PrintEntries(es), "}");
    case _ =>
  }
}
