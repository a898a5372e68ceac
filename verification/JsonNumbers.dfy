/** The texts of JSON numbers (section 6 of RFC 8259), as an automaton over their characters. */
module JsonNumbers {
  import opened Wrappers

  /** What of the number has been read; a number can end behind Zero, Whole, Fraction and Exponent. */
  datatype Place = Begin | Minus | Zero | Whole | Point | Fraction | Letter | Sign | Exponent

  predicate IsDigit(c: char) {
    '0' <= c <= '9'
  }

  predicate IsNumberChar(c: char) {
    IsDigit(c) || c == '-' || c == '+' || c == '.' || c == 'e' || c == 'E'
  }

  function Next(place: Place, c: char): (next: Option<Place>)
    ensures next.Some? ==> IsNumberChar(c)
  {
    match place
    case Begin => if c == '-' then Some(Minus) else FirstDigit(c)
    case Minus => FirstDigit(c)
    case Zero => Behind(c)
    case Whole => if IsDigit(c) then Some(Whole) else Behind(c)
    case Point => if IsDigit(c) then Some(Fraction) else None
    case Fraction => if IsDigit(c) then Some(Fraction) else if c == '.' then None else Behind(c)
    case Letter => if c == '+' || c == '-' then Some(Sign) else if IsDigit(c) then Some(Exponent) else None
    case Sign => if IsDigit(c) then Some(Exponent) else None
    case Exponent => if IsDigit(c) then Some(Exponent) else None
  }

  /** A zero stands alone before the point. */
  function FirstDigit(c: char): Option<Place> {
    if c == '0' then Some(Zero) else if IsDigit(c) then Some(Whole) else None
  }

  function Behind(c: char): Option<Place> {
    if c == '.' then Some(Point) else if c == 'e' || c == 'E' then Some(Letter) else None
  }

  predicate Final(place: Place) {
    place.Zero? || place.Whole? || place.Fraction? || place.Exponent?
  }

  /** Goes on as long as the text can be part of a number: the place reached and the characters read. */
  function Walk(place: Place, text: string): (r: (Place, nat))
    ensures r.1 <= |text|
    decreases |text|
  {
    if text == [] || Next(place, text[0]).None? then (place, 0)
    else
      var r := Walk(Next(place, text[0]).value, text[1..]);
      (r.0, r.1 + 1)
  }

  predicate IsNumberText(text: string) {
    var r := Walk(Begin, text);
    r.1 == |text| && Final(r.0)
  }

  type NumberText = s: string | IsNumberText(s) witness "0"

  /** What follows a number: nothing, or a character no number contains. */
  predicate Delimited(rest: string) {
    rest == [] || !IsNumberChar(rest[0])
  }

  /** What follows a number does not belong to it. */
  lemma {:induction false} WalkThen(place: Place, text: string, rest: string)
    requires Delimited(rest)
    ensures Walk(place, text + rest) == Walk(place, text)
    decreases |text|
  {
    if text == [] {
      assert text + rest == rest;
    } else {
      assert (text + rest)[0] == text[0] && (text + rest)[1..] == text[1..] + rest;
      if Next(place, text[0]).Some? {
        WalkThen(Next(place, text[0]).value, text[1..], rest);
      }
    }
  }

  /** What was read can be read alone, and has the characters of numbers. */
  lemma {:induction false} WalkWithin(place: Place, text: string)
    ensures var r := Walk(place, text);
            Walk(place, text[..r.1]) == r && forall k :: 0 <= k < r.1 ==> IsNumberChar(text[k])
    decreases |text|
  {
    if text != [] && Next(place, text[0]).Some? {
      WalkWithin(Next(place, text[0]).value, text[1..]);
      var n := Walk(place, text).1;
      assert text[..n][1..] == text[1..][..n - 1];
      assert forall k :: 1 <= k < n ==> text[k] == text[1..][k - 1];
    }
  }

  lemma NumberTextChars(text: NumberText)
    ensures forall c :: c in text ==> IsNumberChar(c)
    ensures text != [] && (text[0] == '-' || IsDigit(text[0]))
  {
    WalkWithin(Begin, text);
  }
}
