/**
 The canonical text of a JSON value: object entries sorted by key, undefined fields dropped.

 A number is its ECMAScript text.  The key comparator is a parameter: `le(a, b)` says that the
 locale comparison of a with b is not positive.
 */
module CanonicalJson {
  import opened Strings
  import opened JsonNumbers

  datatype Json =
    | Undefined
    | Null
    | NonFinite
    | Bool(b: bool)
    | Num(text: NumberText)
    | Str(s: string)
    | Date(iso: string)
    | Arr(items: seq<Json>)
    | Obj(fields: seq<Field>)

  datatype Field = Field(key: string, value: Json)

  /** An object entry with its value already printed. */
  datatype Entry = Entry(key: string, text: string)

  // ----- Strings (section 7 of RFC 8259)

  function HexDigit(n: nat): char
    requires n < 16
  {
    "0123456789abcdef"[n]
  }

  function EscapeChar(c: char): string {
    if c == '\"' then "\\\""
    else if c == '\\' then "\\\\"
    else if c as int == 8 then "\\b"
    else if c as int == 9 then "\\t"
    else if c as int == 10 then "\\n"
    else if c as int == 12 then "\\f"
    else if c as int == 13 then "\\r"
    else if c as int < 32 then ['\\', 'u', '0', '0', HexDigit(c as int / 16), HexDigit(c as int % 16)]
    else [c]
  }

  function Escape(s: string): string {
    if s == [] then [] else EscapeChar(s[0]) + Escape(s[1..])
  }

  function Quote(s: string): string {
    "\"" + Escape(s) + "\""
  }

  // ----- Sorting entries by key

  function Insert(le: (string, string) -> bool, e: Entry, es: seq<Entry>): seq<Entry> {
    if es == [] || le(e.key, es[0].key) then [e] + es else [es[0]] + Insert(le, e, es[1..])
  }

  /** Stable: an entry goes before the later entries it does not follow. */
  function Sort(le: (string, string) -> bool, es: seq<Entry>): seq<Entry> {
    if es == [] then [] else Insert(le, es[0], Sort(le, es[1..]))
  }

  // ----- Printing

  function Canonical(le: (string, string) -> bool, v: Json): string
    decreases v, 1
  {
    match v
    case Undefined => "null"
    case Null => "null"
    case NonFinite => "null"
    case Bool(b) => if b then "true" else "false"
    case Num(text) => text
    case Str(s) => Quote(s)
    case Date(iso) => Quote(iso)
    case Arr(items) => "[" + PrintItems(le, items) + "]"
    case Obj(fields) => "{" + PrintEntries(Sort(le, Entries(le, fields))) + "}"
  }

  function PrintItems(le: (string, string) -> bool, items: seq<Json>): string
    decreases items, 0
  {
    if items == [] then ""
    else if |items| == 1 then Canonical(le, items[0])
    else Canonical(le, items[0]) + "," + PrintItems(le, items[1..])
  }

  /** The defined fields, in the object's own order. */
  function Entries(le: (string, string) -> bool, fields: seq<Field>): seq<Entry>
    decreases fields, 0
  {
    if fields == [] then []
    else
      (if fields[0].value.Undefined? then [] else [Entry(fields[0].key, Canonical(le, fields[0].value))])
      + Entries(le, fields[1..])
  }

  function PrintEntry(e: Entry): string {
    Quote(e.key) + ":" + e.text
  }

  function PrintEntries(es: seq<Entry>): string {
    if es == [] then ""
    else if |es| == 1 then PrintEntry(es[0])
    else PrintEntry(es[0]) + "," + PrintEntries(es[1..])
  }

  // ----- Equality of values, without mention of text or order

  predicate NullLike(v: Json) {
    v.Undefined? || v.Null? || v.NonFinite?
  }

  ghost predicate Equivalent(v: Json, w: Json)
    decreases v
  {
    match v
    case Undefined => NullLike(w)
    case Null => NullLike(w)
    case NonFinite => NullLike(w)
    case Bool(b) => w == v
    case Num(text) => w == v
    case Str(s) => w == Str(s) || w == Date(s)
    case Date(iso) => w == Str(iso) || w == Date(iso)
    case Arr(items) =>
      w.Arr? && |w.items| == |items| && forall i :: 0 <= i < |items| ==> Equivalent(items[i], w.items[i])
    case Obj(fields) =>
      && w.Obj?
      && (forall i :: 0 <= i < |fields| && !fields[i].value.Undefined? ==> HasMatch(fields[i], w.fields))
      && (forall j :: 0 <= j < |w.fields| && !w.fields[j].value.Undefined? ==> IsMatched(fields, w.fields[j]))
  }

  /** Some defined field of the other object has the same key and an equivalent value. */
  ghost predicate HasMatch(f: Field, others: seq<Field>)
    decreases f
  {
    exists j :: 0 <= j < |others| && !others[j].value.Undefined? && others[j].key == f.key
        && Equivalent(f.value, others[j].value)
  }

  ghost predicate IsMatched(fields: seq<Field>, g: Field)
    decreases fields
  {
    exists i :: 0 <= i < |fields| && !fields[i].value.Undefined? && fields[i].key == g.key
        && Equivalent(fields[i].value, g.value)
  }

  /** No object repeats a key. */
  ghost predicate WellFormed(v: Json)
    decreases v
  {
    match v
    case Arr(items) => forall i :: 0 <= i < |items| ==> WellFormed(items[i])
    case Obj(fields) =>
      && (forall i :: 0 <= i < |fields| ==> WellFormed(fields[i].value))
      && (forall i, j :: 0 <= i < j < |fields| ==> fields[i].key != fields[j].key)
    case _ => true
  }

  ghost predicate TotalPreorder(le: (string, string) -> bool) {
    && (forall a, b :: le(a, b) || le(b, a))
    && (forall a, b, c :: le(a, b) && le(b, c) ==> le(a, c))
  }

  ghost predicate NoTies(le: (string, string) -> bool) {
    forall a, b :: le(a, b) && le(b, a) ==> a == b
  }

  // ----- Reading strings back

  function HexValue(c: char): nat {
    if '0' <= c <= '9' then c as int - '0' as int else if 'a' <= c <= 'f' then c as int - 'a' as int + 10 else 0
  }

  /** The character that an escaped text begins with. */
  function FirstChar(text: string): char {
    if |text| < 2 || text[0] != '\\' then (if text == [] then ' ' else text[0])
    else if text[1] == 'b' then 8 as char
    else if text[1] == 't' then 9 as char
    else if text[1] == 'n' then 10 as char
    else if text[1] == 'f' then 12 as char
    else if text[1] == 'r' then 13 as char
    else if text[1] == 'u' && |text| >= 6 then (16 * HexValue(text[4]) + HexValue(text[5])) as char
    else text[1]
  }

  lemma FirstCharOfEscape(c: char, x: string)
    ensures FirstChar(EscapeChar(c) + x) == c
  {
    var text := EscapeChar(c) + x;
    assert text[0] == EscapeChar(c)[0];
    if |EscapeChar(c)| > 1 {
      assert text[1] == EscapeChar(c)[1];
    }
    if |EscapeChar(c)| == 6 {
      assert text[4] == HexDigit(c as int / 16) && text[5] == HexDigit(c as int % 16);
    }
  }

  lemma EscapeCharReads(c: char, d: char, x: string, y: string)
    requires EscapeChar(c) + x == EscapeChar(d) + y
    ensures c == d && x == y
  {
    FirstCharOfEscape(c, x);
    FirstCharOfEscape(d, y);
    assert x == (EscapeChar(c) + x)[|EscapeChar(c)|..];
  }

  lemma EscapeStep(s: string, x: string)
    ensures var text := Escape(s) + "\"" + x;
            && (s == [] <==> text[0] == '\"')
            && (s == [] ==> text == "\"" + x)
            && (s != [] ==> text == EscapeChar(s[0]) + (Escape(s[1..]) + "\"" + x))
  {
    if s == [] {
      assert Escape(s) + "\"" == "\"";
    } else {
      EscapeStart(s[0], Escape(s[1..]) + "\"" + x);
      Assoc(EscapeChar(s[0]), Escape(s[1..]), "\"");
      Assoc(EscapeChar(s[0]), Escape(s[1..]) + "\"", x);
    }
  }

  lemma EscapeStart(c: char, rest: string)
    ensures (EscapeChar(c) + rest)[0] != '\"'
  {
    assert (EscapeChar(c) + rest)[0] == EscapeChar(c)[0];
  }

  lemma {:induction false} EscapeReads(s: string, t: string, x: string, y: string)
    requires Escape(s) + "\"" + x == Escape(t) + "\"" + y
    ensures s == t && x == y
  {
    EscapeStep(s, x);
    EscapeStep(t, y);
    if s == [] {
      Cancel("\"", x, y);
    } else {
      EscapeCharReads(s[0], t[0], Escape(s[1..]) + "\"" + x, Escape(t[1..]) + "\"" + y);
      EscapeReads(s[1..], t[1..], x, y);
      assert s == [s[0]] + s[1..] && t == [t[0]] + t[1..];
    }
  }

  lemma QuoteReads(s: string, t: string, x: string, y: string)
    requires Quote(s) + x == Quote(t) + y
    ensures s == t && x == y
  {
    Assoc("\"", Escape(s), "\"");
    Assoc("\"", Escape(t), "\"");
    Assoc("\"", Escape(s) + "\"", x);
    Assoc("\"", Escape(t) + "\"", y);
    Cancel("\"", Escape(s) + "\"" + x, Escape(t) + "\"" + y);
    EscapeReads(s, t, x, y);
  }

  // ----- Reading values back

  /** How many number characters a text begins with. */
  function Span(text: string): nat {
    if text == [] || !IsNumberChar(text[0]) then 0 else 1 + Span(text[1..])
  }

  lemma {:induction false} SpanOfNumber(a: string, x: string)
    requires (forall c :: c in a ==> IsNumberChar(c)) && Delimited(x)
    ensures Span(a + x) == |a|
  {
    if a == [] {
      assert a + x == x;
    } else {
      assert a[0] in a;
      assert (a + x)[0] == a[0] && (a + x)[1..] == a[1..] + x;
      SpanOfNumber(a[1..], x);
    }
  }

  lemma NumberReads(a: string, b: string, x: string, y: string)
    requires (forall c :: c in a ==> IsNumberChar(c)) && (forall c :: c in b ==> IsNumberChar(c))
    requires Delimited(x) && Delimited(y) && a + x == b + y
    ensures a == b && x == y
  {
    SpanOfNumber(a, x);
    SpanOfNumber(b, y);
    Strip(a, x);
    Strip(b, y);
  }

  /** The first character tells the kind of value. */
  function Kind(c: char): nat {
    if c == 'n' then 0 else if c == 't' then 1 else if c == 'f' then 2 else if c == '\"' then 3
    else if c == '[' then 4 else if c == '{' then 5 else if c == '-' || '0' <= c <= '9' then 6 else 7
  }

  function KindOf(v: Json): nat {
    match v
    case Bool(b) => if b then 1 else 2
    case Num(_) => 6
    case Str(_) => 3
    case Date(_) => 3
    case Arr(_) => 4
    case Obj(_) => 5
    case _ => 0
  }

  lemma FirstCharTells(le: (string, string) -> bool, v: Json)
    ensures Canonical(le, v) != [] && Kind(Canonical(le, v)[0]) == KindOf(v) && Canonical(le, v)[0] != ']'
  {
    if v.Num? {
      NumberTextChars(v.text);
    }
  }

  ghost predicate FromField(le: (string, string) -> bool, e: Entry, fields: seq<Field>) {
    exists i :: 0 <= i < |fields| && !fields[i].value.Undefined?
                && e == Entry(fields[i].key, Canonical(le, fields[i].value))
  }

  lemma {:induction false} EntriesMembers(le: (string, string) -> bool, fields: seq<Field>, e: Entry)
    ensures e in Entries(le, fields) <==> FromField(le, e, fields)
    decreases fields
  {
    if fields != [] {
      EntriesMembers(le, fields[1..], e);
      if FromField(le, e, fields[1..]) {
        var i :| 0 <= i < |fields[1..]| && !fields[1..][i].value.Undefined?
                 && e == Entry(fields[1..][i].key, Canonical(le, fields[1..][i].value));
        assert fields[1..][i] == fields[i + 1];
      }
      if FromField(le, e, fields) {
        var i :| 0 <= i < |fields| && !fields[i].value.Undefined?
            && e == Entry(fields[i].key, Canonical(le, fields[i].value));
        assert i > 0 ==> fields[1..][i - 1] == fields[i];
      }
    }
  }

  lemma {:induction false} InsertMembers(le: (string, string) -> bool, e: Entry, es: seq<Entry>, f: Entry)
    ensures f in Insert(le, e, es) <==> f == e || f in es
  {
    if es != [] && !le(e.key, es[0].key) {
      InsertMembers(le, e, es[1..], f);
      assert es == [es[0]] + es[1..];
    }
  }

  lemma {:induction false} SortMembers(le: (string, string) -> bool, es: seq<Entry>, f: Entry)
    ensures f in Sort(le, es) <==> f in es
  {
    if es != [] {
      SortMembers(le, es[1..], f);
      InsertMembers(le, es[0], Sort(le, es[1..]), f);
      assert es == [es[0]] + es[1..];
    }
  }

  /** The text after the first element of a printed list. */
  function Tail(more: bool, rest: string, close: string): string {
    if more then "," + rest + close else close
  }

  lemma ListStep(first: string, more: bool, rest: string, close: string)
    ensures (if more then first + "," + rest else first) + close == first + Tail(more, rest, close)
  {
    if more {
      Assoc(first + ",", rest, close);
      Assoc(first, ",", rest + close);
      Assoc(",", rest, close);
    }
  }

  lemma TailDelimited(more: bool, rest: string, close: string)
    requires close != [] && (close[0] == ']' || close[0] == '}')
    ensures Delimited(Tail(more, rest, close))
  {
    assert Tail(more, rest, close)[0] == if more then ',' else close[0];
  }

  lemma ItemsStep(le: (string, string) -> bool, items: seq<Json>, close: string)
    requires items != [] && close != [] && close[0] == ']'
    ensures PrintItems(le, items) + close
         == Canonical(le, items[0]) + Tail(|items| > 1, PrintItems(le, items[1..]), close)
    ensures Delimited(Tail(|items| > 1, PrintItems(le, items[1..]), close))
    ensures (PrintItems(le, items) + close)[0] != ']'
  {
    var tail := Tail(|items| > 1, PrintItems(le, items[1..]), close);
    TailDelimited(|items| > 1, PrintItems(le, items[1..]), close);
    ListStep(Canonical(le, items[0]), |items| > 1, PrintItems(le, items[1..]), close);
    FirstCharTells(le, items[0]);
    assert (PrintItems(le, items) + close)[0] == (Canonical(le, items[0]) + tail)[0] == Canonical(le, items[0])[0];
  }

  lemma TailReads(more: bool, more': bool, rest: string, rest': string, close: string, close': string)
    requires close != [] && close' != [] && close[0] != ',' && close'[0] != ','
    requires Tail(more, rest, close) == Tail(more', rest', close')
    ensures more == more'
    ensures if more then rest + close == rest' + close' else close == close'
  {
    var a, b := Tail(more, rest, close), Tail(more', rest', close');
    assert a[0] == (if more then ',' else close[0]);
    assert b[0] == (if more' then ',' else close'[0]);
    if more {
      assert a[1..] == rest + close;
      assert b[1..] == rest' + close';
    }
  }

  lemma ItemsEnd(le: (string, string) -> bool, items: seq<Json>, others: seq<Json>, x: string, y: string)
    requires PrintItems(le, items) + ("]" + x) == PrintItems(le, others) + ("]" + y)
    ensures items == [] <==> others == []
    ensures items == [] ==> x == y
  {
    var close, close' := "]" + x, "]" + y;
    if items != [] {
      ItemsStep(le, items, close);
    } else {
      assert PrintItems(le, items) + close == close;
    }
    if others != [] {
      ItemsStep(le, others, close');
    } else {
      assert PrintItems(le, others) + close' == close';
    }
    if items == [] && others == [] {
      Cancel("]", x, y);
    }
  }

  lemma {:induction false} ItemsRead(le: (string, string) -> bool, items: seq<Json>, others: seq<Json>, x: string,
                                     y: string)
    requires PrintItems(le, items) + ("]" + x) == PrintItems(le, others) + ("]" + y)
    ensures |items| == |others| && (forall i :: 0 <= i < |items| ==> Equivalent(items[i], others[i]))
    ensures PrintItems(le, items) == PrintItems(le, others) && x == y
    decreases items, 2, 0
  {
    ItemsEnd(le, items, others, x, y);
    if items != [] {
      var close, close' := "]" + x, "]" + y;
      ItemsStep(le, items, close);
      ItemsStep(le, others, close');
      Reads(le, items[0], others[0],
            Tail(|items| > 1, PrintItems(le, items[1..]), close),
            Tail(|others| > 1, PrintItems(le, others[1..]), close'));
      TailReads(|items| > 1, |others| > 1, PrintItems(le, items[1..]), PrintItems(le, others[1..]), close, close');
      if |items| > 1 {
        ItemsRead(le, items[1..], others[1..], x, y);
        forall i | 0 <= i < |items| ensures Equivalent(items[i], others[i]) {
          assert i > 0 ==> Equivalent(items[1..][i - 1], others[1..][i - 1]);
        }
      } else {
        Cancel("]", x, y);
      }
    }
  }

  lemma EntriesStep(es: seq<Entry>, close: string)
    requires es != []
    ensures PrintEntries(es) + close
         == Quote(es[0].key) + (":" + (es[0].text + Tail(|es| > 1, PrintEntries(es[1..]), close)))
    ensures (PrintEntries(es) + close)[0] == '\"'
  {
    var tail := Tail(|es| > 1, PrintEntries(es[1..]), close);
    ListStep(PrintEntry(es[0]), |es| > 1, PrintEntries(es[1..]), close);
    Assoc(Quote(es[0].key) + ":", es[0].text, tail);
    Assoc(Quote(es[0].key), ":", es[0].text + tail);
  }

  lemma EntriesEnd(es: seq<Entry>, others: seq<Entry>, x: string, y: string)
    requires PrintEntries(es) + ("}" + x) == PrintEntries(others) + ("}" + y)
    ensures es == [] <==> others == []
    ensures es == [] ==> x == y
  {
    var close, close' := "}" + x, "}" + y;
    if es != [] {
      EntriesStep(es, close);
    } else {
      assert PrintEntries(es) + close == close;
    }
    if others != [] {
      EntriesStep(others, close');
    } else {
      assert PrintEntries(others) + close' == close';
    }
    if es == [] && others == [] {
      Cancel("}", x, y);
    }
  }

  /** The key of the first entry is read off; its text and what follows remain. */
  lemma KeyReads(es: seq<Entry>, others: seq<Entry>, close: string, close': string)
    requires es != [] && others != [] && PrintEntries(es) + close == PrintEntries(others) + close'
    ensures es[0].key == others[0].key
    ensures es[0].text + Tail(|es| > 1, PrintEntries(es[1..]), close) ==
            others[0].text + Tail(|others| > 1, PrintEntries(others[1..]), close')
  {
    EntriesStep(es, close);
    EntriesStep(others, close');
    var rest := es[0].text + Tail(|es| > 1, PrintEntries(es[1..]), close);
    var rest' := others[0].text + Tail(|others| > 1, PrintEntries(others[1..]), close');
    QuoteReads(es[0].key, others[0].key, ":" + rest, ":" + rest');
    Cancel(":", rest, rest');
  }

  /** The same for its text, which some field's value printed. */
  lemma {:induction false} TextReads(le: (string, string) -> bool, v: Json, w: Json, e: Entry, f: Entry, x: string,
                                     y: string)
    requires v.Obj? && w.Obj? && FromField(le, e, v.fields) && FromField(le, f, w.fields)
    requires Delimited(x) && Delimited(y) && e.text + x == f.text + y
    ensures e.text == f.text && x == y
    decreases v, 1, 0
  {
    var i :| 0 <= i < |v.fields| && !v.fields[i].value.Undefined?
        && e == Entry(v.fields[i].key, Canonical(le, v.fields[i].value));
    var j :| 0 <= j < |w.fields| && !w.fields[j].value.Undefined?
        && f == Entry(w.fields[j].key, Canonical(le, w.fields[j].value));
    Reads(le, v.fields[i].value, w.fields[j].value, x, y);
  }

  lemma {:induction false} EntriesRead(le: (string, string) -> bool, v: Json, w: Json, es: seq<Entry>,
                                       others: seq<Entry>, x: string, y: string)
    requires v.Obj? && w.Obj?
    requires forall e :: e in es ==> FromField(le, e, v.fields)
    requires forall e :: e in others ==> FromField(le, e, w.fields)
    requires PrintEntries(es) + ("}" + x) == PrintEntries(others) + ("}" + y)
    ensures es == others && x == y
    decreases v, 1, |es| + 1
  {
    EntriesEnd(es, others, x, y);
    if es != [] {
      var close, close' := "}" + x, "}" + y;
      KeyReads(es, others, close, close');
      TailDelimited(|es| > 1, PrintEntries(es[1..]), close);
      TailDelimited(|others| > 1, PrintEntries(others[1..]), close');
      TextReads(le, v, w, es[0], others[0], Tail(|es| > 1, PrintEntries(es[1..]), close),
                Tail(|others| > 1, PrintEntries(others[1..]), close'));
      TailReads(|es| > 1, |others| > 1, PrintEntries(es[1..]), PrintEntries(others[1..]), close, close');
      if |es| > 1 {
        EntriesRead(le, v, w, es[1..], others[1..], x, y);
      } else {
        Cancel("}", x, y);
      }
      assert es == [es[0]] + es[1..] && others == [others[0]] + others[1..];
    }
  }

  lemma SharedEntry(le: (string, string) -> bool, v: Json, w: Json, i: nat) returns (j: nat)
    requires v.Obj? && w.Obj? && Sort(le, Entries(le, v.fields)) == Sort(le, Entries(le, w.fields))
    requires i < |v.fields| && !v.fields[i].value.Undefined?
    ensures j < |w.fields| && !w.fields[j].value.Undefined? && w.fields[j].key == v.fields[i].key
    ensures Canonical(le, w.fields[j].value) == Canonical(le, v.fields[i].value)
  {
    var e := Entry(v.fields[i].key, Canonical(le, v.fields[i].value));
    EntriesMembers(le, v.fields, e);
    SortMembers(le, Entries(le, v.fields), e);
    SortMembers(le, Entries(le, w.fields), e);
    EntriesMembers(le, w.fields, e);
    j :| 0 <= j < |w.fields| && !w.fields[j].value.Undefined?
        && e == Entry(w.fields[j].key, Canonical(le, w.fields[j].value));
  }

  lemma {:induction false} FieldsMatch(le: (string, string) -> bool, v: Json, w: Json)
    requires v.Obj? && w.Obj? && Sort(le, Entries(le, v.fields)) == Sort(le, Entries(le, w.fields))
    ensures Equivalent(v, w)
    decreases v, 1, 0
  {
    forall i | 0 <= i < |v.fields| && !v.fields[i].value.Undefined? ensures HasMatch(v.fields[i], w.fields) {
      var j := SharedEntry(le, v, w, i);
      Reads(le, v.fields[i].value, w.fields[j].value, "", "");
    }
    forall j | 0 <= j < |w.fields| && !w.fields[j].value.Undefined? ensures IsMatched(v.fields, w.fields[j]) {
      var i := SharedEntry(le, w, v, j);
      Reads(le, v.fields[i].value, w.fields[j].value, "", "");
    }
  }

  lemma {:induction false} ReadsArr(le: (string, string) -> bool, v: Json, w: Json, x: string, y: string)
    requires v.Arr? && w.Arr? && Canonical(le, v) + x == Canonical(le, w) + y
    ensures Equivalent(v, w) && Canonical(le, v) == Canonical(le, w) && x == y
    decreases v, 1, 0
  {
    Bracketed("[", PrintItems(le, v.items), "]", x, PrintItems(le, w.items), y);
    ItemsRead(le, v.items, w.items, x, y);
  }

  lemma {:induction false} ReadsObj(le: (string, string) -> bool, v: Json, w: Json, x: string, y: string)
    requires v.Obj? && w.Obj? && Canonical(le, v) + x == Canonical(le, w) + y
    ensures Equivalent(v, w) && Canonical(le, v) == Canonical(le, w) && x == y
    decreases v, 2, 0
  {
    var es, others := Sort(le, Entries(le, v.fields)), Sort(le, Entries(le, w.fields));
    Bracketed("{", PrintEntries(es), "}", x, PrintEntries(others), y);
    forall e | e in es ensures FromField(le, e, v.fields) {
      SortMembers(le, Entries(le, v.fields), e);
      EntriesMembers(le, v.fields, e);
    }
    forall e | e in others ensures FromField(le, e, w.fields) {
      SortMembers(le, Entries(le, w.fields), e);
      EntriesMembers(le, w.fields, e);
    }
    EntriesRead(le, v, w, es, others, x, y);
    FieldsMatch(le, v, w);
  }

  lemma Bracketed(open: string, a: string, close: string, x: string, b: string, y: string)
    requires open + a + close + x == open + b + close + y
    ensures a + (close + x) == b + (close + y)
  {
    Assoc(open + a, close, x);
    Assoc(open, a, close + x);
    Assoc(open + b, close, y);
    Assoc(open, b, close + y);
    Cancel(open, a + (close + x), b + (close + y));
  }

  /** A printed value is read back uniquely, up to equivalence, and so is what follows it. */
  lemma {:induction false} Reads(le: (string, string) -> bool, v: Json, w: Json, x: string, y: string)
    requires Delimited(x) && Delimited(y) && Canonical(le, v) + x == Canonical(le, w) + y
    ensures Equivalent(v, w) && Canonical(le, v) == Canonical(le, w) && x == y
    decreases v, 3, 0
  {
    FirstCharTells(le, v);
    FirstCharTells(le, w);
    assert (Canonical(le, v) + x)[0] == Canonical(le, v)[0] && (Canonical(le, w) + y)[0] == Canonical(le, w)[0];
    assert KindOf(v) == KindOf(w);
    if v.Arr? {
      ReadsArr(le, v, w, x, y);
    } else if v.Obj? {
      ReadsObj(le, v, w, x, y);
    } else if v.Num? {
      NumberTextChars(v.text);
      NumberTextChars(w.text);
      NumberReads(v.text, w.text, x, y);
    } else if v.Str? || v.Date? {
      QuoteReads(if v.Str? then v.s else v.iso, if w.Str? then w.s else w.iso, x, y);
    } else {
      Cancel(Canonical(le, v), x, y);
    }
  }

  // ----- Equivalent values have the same text

  ghost predicate Sorted(le: (string, string) -> bool, es: seq<Entry>) {
    forall i, j :: 0 <= i < j < |es| ==> le(es[i].key, es[j].key)
  }

  ghost predicate DistinctKeys(es: seq<Entry>) {
    forall i, j :: 0 <= i < j < |es| ==> es[i].key != es[j].key
  }

  lemma {:induction false} InsertSorted(le: (string, string) -> bool, e: Entry, es: seq<Entry>)
    requires TotalPreorder(le) && Sorted(le, es)
    ensures Sorted(le, Insert(le, e, es))
  {
    if es != [] && !le(e.key, es[0].key) {
      InsertSorted(le, e, es[1..]);
      var rest := Insert(le, e, es[1..]);
      forall j | 0 <= j < |rest| ensures le(es[0].key, rest[j].key) {
        InsertMembers(le, e, es[1..], rest[j]);
        assert rest[j] in rest;
      }
    }
  }

  lemma {:induction false} SortSorted(le: (string, string) -> bool, es: seq<Entry>)
    requires TotalPreorder(le)
    ensures Sorted(le, Sort(le, es))
  {
    if es != [] {
      SortSorted(le, es[1..]);
      InsertSorted(le, es[0], Sort(le, es[1..]));
    }
  }

  lemma {:induction false} InsertDistinct(le: (string, string) -> bool, e: Entry, es: seq<Entry>)
    requires DistinctKeys(es) && forall f :: f in es ==> f.key != e.key
    ensures DistinctKeys(Insert(le, e, es))
  {
    if es != [] && !le(e.key, es[0].key) {
      InsertDistinct(le, e, es[1..]);
      var rest := Insert(le, e, es[1..]);
      forall j | 0 <= j < |rest| ensures es[0].key != rest[j].key {
        InsertMembers(le, e, es[1..], rest[j]);
        assert rest[j] in rest;
        if rest[j] in es[1..] {
          var k :| 0 <= k < |es[1..]| && es[1..][k] == rest[j];
          assert es[k + 1] == rest[j];
        }
      }
    }
  }

  lemma {:induction false} SortDistinct(le: (string, string) -> bool, es: seq<Entry>)
    requires DistinctKeys(es)
    ensures DistinctKeys(Sort(le, es))
  {
    if es != [] {
      SortDistinct(le, es[1..]);
      forall f | f in Sort(le, es[1..]) ensures f.key != es[0].key {
        SortMembers(le, es[1..], f);
        var k :| 0 <= k < |es[1..]| && es[1..][k] == f;
        assert es[k + 1] == f;
      }
      InsertDistinct(le, es[0], Sort(le, es[1..]));
    }
  }

  lemma {:induction false} EntriesDistinct(le: (string, string) -> bool, fields: seq<Field>)
    requires forall i, j :: 0 <= i < j < |fields| ==> fields[i].key != fields[j].key
    ensures DistinctKeys(Entries(le, fields))
    decreases fields
  {
    if fields != [] {
      EntriesDistinct(le, fields[1..]);
      var rest := Entries(le, fields[1..]);
      forall j | 0 <= j < |rest| ensures rest[j].key != fields[0].key {
        assert rest[j] in rest;
        EntriesMembers(le, fields[1..], rest[j]);
        var k :| 0 <= k < |fields[1..]| && !fields[1..][k].value.Undefined?
                 && rest[j] == Entry(fields[1..][k].key, Canonical(le, fields[1..][k].value));
        assert fields[k + 1] == fields[1..][k];
      }
    }
  }

  lemma FirstIsLeast(le: (string, string) -> bool, es: seq<Entry>, e: Entry)
    requires Sorted(le, es) && e in es
    ensures e == es[0] || le(es[0].key, e.key)
  {
  }

  lemma SameKeySameEntry(es: seq<Entry>, e: Entry, f: Entry)
    requires DistinctKeys(es) && e in es && f in es && e.key == f.key
    ensures e == f
  {
  }

  /** With no ties, a set of entries has one sorted order. */
  lemma {:induction false} SortedUnique(le: (string, string) -> bool, a: seq<Entry>, b: seq<Entry>)
    requires NoTies(le) && Sorted(le, a) && Sorted(le, b) && DistinctKeys(a) && DistinctKeys(b)
    requires forall e :: e in a <==> e in b
    ensures a == b
  {
    assert a == [] <==> b == [] by {
      assert a != [] ==> a[0] in b;
      assert b != [] ==> b[0] in a;
    }
    if a != [] {
      assert a[0] in b && b[0] in a;
      FirstIsLeast(le, a, b[0]);
      FirstIsLeast(le, b, a[0]);
      SameKeySameEntry(a, a[0], b[0]);
      assert a == [a[0]] + a[1..] && b == [b[0]] + b[1..];
      forall e ensures e in a[1..] <==> e in b[1..] {
        TailMembers(a, e);
        TailMembers(b, e);
      }
      SortedUnique(le, a[1..], b[1..]);
    }
  }

  lemma TailMembers(a: seq<Entry>, e: Entry)
    requires a != [] && DistinctKeys(a)
    ensures e in a[1..] <==> e in a && e != a[0]
  {
    if e in a[1..] {
      var k :| 0 <= k < |a[1..]| && a[1..][k] == e;
      assert a[k + 1] == e;
    }
    if e in a && e != a[0] {
      var k :| 0 <= k < |a| && a[k] == e;
      assert a[1..][k - 1] == e;
    }
  }

  lemma {:induction false} SameItems(le: (string, string) -> bool, items: seq<Json>, others: seq<Json>)
    requires |items| == |others| && forall i :: 0 <= i < |items| ==> Canonical(le, items[i]) == Canonical(le, others[i])
    ensures PrintItems(le, items) == PrintItems(le, others)
  {
    if |items| > 1 {
      SameItems(le, items[1..], others[1..]);
    }
  }

  lemma MatchingField(v: Json, w: Json, i: nat) returns (j: nat)
    requires v.Obj? && Equivalent(v, w) && i < |v.fields| && !v.fields[i].value.Undefined?
    ensures j < |w.fields| && !w.fields[j].value.Undefined? && w.fields[j].key == v.fields[i].key
    ensures Equivalent(v.fields[i].value, w.fields[j].value)
  {
    assert HasMatch(v.fields[i], w.fields);
    j :| 0 <= j < |w.fields| && !w.fields[j].value.Undefined? && w.fields[j].key == v.fields[i].key
         && Equivalent(v.fields[i].value, w.fields[j].value);
  }

  lemma MatchedField(v: Json, w: Json, j: nat) returns (i: nat)
    requires v.Obj? && Equivalent(v, w) && j < |w.fields| && !w.fields[j].value.Undefined?
    ensures i < |v.fields| && !v.fields[i].value.Undefined? && w.fields[j].key == v.fields[i].key
    ensures Equivalent(v.fields[i].value, w.fields[j].value)
  {
    assert IsMatched(v.fields, w.fields[j]);
    i :| 0 <= i < |v.fields| && !v.fields[i].value.Undefined? && v.fields[i].key == w.fields[j].key
         && Equivalent(v.fields[i].value, w.fields[j].value);
  }

  lemma {:induction false} SameEntries(le: (string, string) -> bool, v: Json, w: Json, e: Entry)
    requires TotalPreorder(le) && NoTies(le) && WellFormed(v) && WellFormed(w) && v.Obj? && Equivalent(v, w)
    ensures e in Entries(le, v.fields) <==> e in Entries(le, w.fields)
    decreases v, 0
  {
    EntriesMembers(le, v.fields, e);
    EntriesMembers(le, w.fields, e);
    if FromField(le, e, v.fields) {
      var i :| 0 <= i < |v.fields| && !v.fields[i].value.Undefined?
          && e == Entry(v.fields[i].key, Canonical(le, v.fields[i].value));
      var j := MatchingField(v, w, i);
      EquivalentSameText(le, v.fields[i].value, w.fields[j].value);
    }
    if FromField(le, e, w.fields) {
      var j :| 0 <= j < |w.fields| && !w.fields[j].value.Undefined?
          && e == Entry(w.fields[j].key, Canonical(le, w.fields[j].value));
      var i := MatchedField(v, w, j);
      EquivalentSameText(le, v.fields[i].value, w.fields[j].value);
    }
  }

  lemma {:induction false} EquivalentSameText(le: (string, string) -> bool, v: Json, w: Json)
    requires TotalPreorder(le) && NoTies(le) && WellFormed(v) && WellFormed(w) && Equivalent(v, w)
    ensures Canonical(le, v) == Canonical(le, w)
    decreases v, 1
  {
    if v.Arr? {
      forall i | 0 <= i < |v.items| ensures Canonical(le, v.items[i]) == Canonical(le, w.items[i]) {
        EquivalentSameText(le, v.items[i], w.items[i]);
      }
      SameItems(le, v.items, w.items);
    } else if v.Obj? {
      var a, b := Entries(le, v.fields), Entries(le, w.fields);
      forall e ensures e in Sort(le, a) <==> e in Sort(le, b) {
        SameEntries(le, v, w, e);
        SortMembers(le, a, e);
        SortMembers(le, b, e);
      }
      EntriesDistinct(le, v.fields);
      EntriesDistinct(le, w.fields);
      SortDistinct(le, a);
      SortDistinct(le, b);
      SortSorted(le, a);
      SortSorted(le, b);
      SortedUnique(le, Sort(le, a), Sort(le, b));
    }
  }

  // ----- Main results

  /** The text determines the value, whatever the comparator does. */
  lemma TextDeterminesValue(le: (string, string) -> bool, v: Json, w: Json)
    requires Canonical(le, v) == Canonical(le, w)
    ensures Equivalent(v, w)
  {
    assert Canonical(le, v) + "" == Canonical(le, w) + "";
    Reads(le, v, w, "", "");
  }

  /** Two values have the same canonical text if and only if they are equivalent. */
  lemma SameTextIffEquivalent(le: (string, string) -> bool, v: Json, w: Json)
    requires TotalPreorder(le) && NoTies(le) && WellFormed(v) && WellFormed(w)
    ensures Canonical(le, v) == Canonical(le, w) <==> Equivalent(v, w)
  {
    if Canonical(le, v) == Canonical(le, w) {
      TextDeterminesValue(le, v, w);
    }
    if Equivalent(v, w) {
      EquivalentSameText(le, v, w);
    }
  }

  ghost predicate OrderIndependent(le: (string, string) -> bool) {
    forall v, w :: WellFormed(v) && WellFormed(w) && Equivalent(v, w) ==> Canonical(le, v) == Canonical(le, w)
  }

  /** Two keys that compare equal keep their object's order, and two orders give two texts. */
  lemma {:induction false} TiedKeysKeepTheirOrder(le: (string, string) -> bool, a: string, b: string)
    returns (v: Json, w: Json)
    requires a != b && le(a, b) && le(b, a)
    ensures WellFormed(v) && WellFormed(w) && Equivalent(v, w) && Canonical(le, v) != Canonical(le, w)
  {
    v := Obj([Field(a, Null), Field(b, Null)]);
    w := Obj([Field(b, Null), Field(a, Null)]);
    assert v.fields[0].value == v.fields[1].value == w.fields[0].value == w.fields[1].value == Null;
    assert Equivalent(Null, Null);
    assert v.fields[0].key == w.fields[1].key && v.fields[1].key == w.fields[0].key;
    assert Equivalent(v.fields[0].value, w.fields[1].value) && Equivalent(v.fields[1].value, w.fields[0].value);
    var x, y := Entry(a, "null"), Entry(b, "null");
    TwoEntries(le, a, b);
    TwoEntries(le, b, a);
    if Canonical(le, v) == Canonical(le, w) {
      assert Canonical(le, v) + "" == Canonical(le, w) + "";
      Bracketed("{", PrintEntries([x, y]), "}", "", PrintEntries([y, x]), "");
      KeyReads([x, y], [y, x], "}" + "", "}" + "");
    }
  }

  lemma TwoEntries(le: (string, string) -> bool, a: string, b: string)
    requires le(a, b)
    ensures Sort(le, Entries(le, [Field(a, Null), Field(b, Null)])) == [Entry(a, "null"), Entry(b, "null")]
  {
    var fields := [Field(a, Null), Field(b, Null)];
    assert fields[1..] == [Field(b, Null)] && fields[1..][1..] == [];
    var es := [Entry(a, "null"), Entry(b, "null")];
    assert Canonical(le, Null) == "null";
    assert Entries(le, fields[1..]) == [Entry(b, "null")] + Entries(le, fields[1..][1..]);
    assert Entries(le, fields) == [Entry(a, "null")] + Entries(le, fields[1..]);
    assert Entries(le, fields) == es;
    assert es[1..] == [Entry(b, "null")] && es[1..][1..] == [];
    assert Sort(le, es[1..]) == [Entry(b, "null")];
  }

  /** The text ignores the order of entries, for all values, exactly when no two keys compare equal. */
  lemma OrderIndependentIffNoTies(le: (string, string) -> bool)
    requires TotalPreorder(le)
    ensures OrderIndependent(le) <==> NoTies(le)
  {
    if NoTies(le) {
      forall v, w | WellFormed(v) && WellFormed(w) && Equivalent(v, w) ensures Canonical(le, v) == Canonical(le, w) {
        EquivalentSameText(le, v, w);
      }
    } else {
      var a, b :| le(a, b) && le(b, a) && a != b;
      var v, w := TiedKeysKeepTheirOrder(le, a, b);
    }
  }
}
