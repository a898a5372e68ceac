/**
 Slug normalization.  Trimming, lower-casing, compatibility decomposition and dropping the
 combining marks are one parameter, `fold`, of which only this is used: it leaves text over
 a-z, 0-9 and the hyphen alone.
 */
module Slug {
  import opened Decimals
  import opened Wrappers

  const MAX_LENGTH: nat := 240

  predicate Alphanumeric(c: char) {
    'a' <= c <= 'z' || '0' <= c <= '9'
  }

  predicate SlugChars(s: string) {
    forall c :: c in s ==> Alphanumeric(c) || c == '-'
  }

  function DropRun(s: string): (rest: string)
    ensures |rest| <= |s|
    ensures rest != [] ==> Alphanumeric(rest[0])
  {
    if s == [] || Alphanumeric(s[0]) then s else DropRun(s[1..])
  }

  /** Every run of other characters becomes one hyphen. */
  function Collapse(s: string): string
    decreases |s|
  {
    if s == [] then ""
    else if Alphanumeric(s[0]) then [s[0]] + Collapse(s[1..])
    else "-" + Collapse(DropRun(s[1..]))
  }

  function TrimLeft(s: string): string {
    if s != [] && s[0] == '-' then TrimLeft(s[1..]) else s
  }

  function TrimRight(s: string): string {
    if s != [] && s[|s| - 1] == '-' then TrimRight(s[..|s| - 1]) else s
  }

  function Cut(s: string): string {
    if |s| <= MAX_LENGTH then s else s[..MAX_LENGTH]
  }

  /** The slug before the cut. */
  function Uncut(fold: string -> string, value: string): string {
    TrimRight(TrimLeft(Collapse(fold(value))))
  }

  /** None is the validation error for a value without alphanumeric characters. */
  function NormalizeSlug(fold: string -> string, value: string): Option<string> {
    var slug := Cut(Uncut(fold, value));
    if slug == [] then None else Some(slug)
  }

  ghost predicate LeavesSlugsAlone(fold: string -> string) {
    forall s :: SlugChars(s) ==> fold(s) == s
  }

  ghost predicate NoDoubleHyphen(s: string) {
    forall i :: 0 <= i < |s| - 1 ==> !(s[i] == '-' && s[i + 1] == '-')
  }

  ghost predicate SlugShape(s: string) {
    0 < |s| <= MAX_LENGTH && SlugChars(s) && NoDoubleHyphen(s) && s[0] != '-'
  }

  lemma {:induction false} CollapseMeaning(s: string)
    ensures SlugChars(Collapse(s)) && NoDoubleHyphen(Collapse(s))
    ensures s != [] && Alphanumeric(s[0]) ==> Collapse(s) != [] && Collapse(s)[0] != '-'
    ensures s == [] ==> Collapse(s) == []
    decreases |s|
  {
    if s != [] {
      if Alphanumeric(s[0]) {
        CollapseMeaning(s[1..]);
        assert Collapse(s)[1..] == Collapse(s[1..]);
        ConsShape(s[0], Collapse(s[1..]));
      } else {
        CollapseMeaning(DropRun(s[1..]));
        ConsShape('-', Collapse(DropRun(s[1..])));
      }
    }
  }

  lemma ConsShape(c: char, s: string)
    requires SlugChars(s) && NoDoubleHyphen(s) && (Alphanumeric(c) || (c == '-' && (s == [] || s[0] != '-')))
    ensures SlugChars([c] + s) && NoDoubleHyphen([c] + s)
  {
    forall i | 0 <= i < |[c] + s| - 1 ensures !(([c] + s)[i] == '-' && ([c] + s)[i + 1] == '-') {
      assert i > 0 ==> ([c] + s)[i] == s[i - 1] && ([c] + s)[i + 1] == s[i - 1 + 1];
    }
  }

  lemma TailShape(s: string)
    requires s != [] && SlugChars(s) && NoDoubleHyphen(s)
    ensures SlugChars(s[1..]) && NoDoubleHyphen(s[1..])
  {
    forall i | 0 <= i < |s[1..]| - 1 ensures !(s[1..][i] == '-' && s[1..][i + 1] == '-') {
      var j := i + 1;
      assert !(s[j] == '-' && s[j + 1] == '-');
    }
  }

  lemma {:induction false} TrimLeftMeaning(s: string)
    requires SlugChars(s) && NoDoubleHyphen(s)
    ensures SlugChars(TrimLeft(s)) && NoDoubleHyphen(TrimLeft(s))
    ensures TrimLeft(s) != [] ==> TrimLeft(s)[0] != '-'
  {
    if s != [] && s[0] == '-' {
      TailShape(s);
      TrimLeftMeaning(s[1..]);
    }
  }

  lemma {:induction false} TrimRightMeaning(s: string)
    requires SlugChars(s) && NoDoubleHyphen(s) && (s != [] ==> s[0] != '-')
    ensures var t := TrimRight(s);
            SlugChars(t) && NoDoubleHyphen(t) && (t != [] ==> t[0] != '-' && t[|t| - 1] != '-')
  {
    if s != [] && s[|s| - 1] == '-' {
      TrimRightMeaning(s[..|s| - 1]);
    }
  }

  lemma UncutMeaning(fold: string -> string, value: string)
    ensures var t := Uncut(fold, value);
            SlugChars(t) && NoDoubleHyphen(t) && (t != [] ==> t[0] != '-' && t[|t| - 1] != '-')
  {
    CollapseMeaning(fold(value));
    TrimLeftMeaning(Collapse(fold(value)));
    TrimRightMeaning(TrimLeft(Collapse(fold(value))));
  }

  /** 1 to 240 characters over a-z, 0-9 and hyphen, no leading and no doubled hyphen. */
  lemma NormalizedShape(fold: string -> string, value: string)
    requires NormalizeSlug(fold, value).Some?
    ensures SlugShape(NormalizeSlug(fold, value).value)
  {
    UncutMeaning(fold, value);
  }

  lemma {:induction false} CollapseKeeps(s: string)
    requires SlugChars(s) && NoDoubleHyphen(s)
    ensures Collapse(s) == s
  {
    if s != [] {
      TailShape(s);
      CollapseKeeps(s[1..]);
      if !Alphanumeric(s[0]) {
        assert s[0] in s;
        assert s[1..] != [] ==> s[0 + 1] in s;
        assert DropRun(s[1..]) == s[1..];
      }
      assert s == [s[0]] + s[1..];
    }
  }

  /**
   Normalizing a slug again drops its last character when that is a hyphen, which only the cut
   can leave, and changes nothing otherwise.
   */
  lemma NormalizingAgain(fold: string -> string, value: string)
    requires LeavesSlugsAlone(fold) && NormalizeSlug(fold, value).Some?
    ensures var slug := NormalizeSlug(fold, value).value;
            && (NormalizeSlug(fold, slug) == Some(slug) <==> slug[|slug| - 1] != '-')
            && (slug[|slug| - 1] == '-' ==>
                  |Uncut(fold, value)| > MAX_LENGTH && NormalizeSlug(fold, slug) == Some(slug[..|slug| - 1]))
  {
    var slug := NormalizeSlug(fold, value).value;
    NormalizedShape(fold, value);
    UncutMeaning(fold, value);
    CollapseKeeps(slug);
    assert TrimLeft(slug) == slug;
    if slug[|slug| - 1] == '-' {
      assert slug == slug[..|slug| - 1] + ['-'];
      assert |slug| > 1;
      assert slug[|slug| - 2] != '-';
      assert TrimRight(slug) == slug[..|slug| - 1];
    }
  }

  /** The public lookup normalizes the slug it is given, so it finds every slug stored uncut. */
  lemma UncutSlugIsFound(fold: string -> string, value: string)
    requires LeavesSlugsAlone(fold) && NormalizeSlug(fold, value).Some? && |Uncut(fold, value)| <= MAX_LENGTH
    ensures NormalizeSlug(fold, NormalizeSlug(fold, value).value) == NormalizeSlug(fold, value)
  {
    NormalizingAgain(fold, value);
  }

  // ----- The slug of a duplicated article

  /** Text that has the shape of a slug, but for its length, is only cut. */
  lemma SlugTextIsCut(fold: string -> string, text: string)
    requires LeavesSlugsAlone(fold) && SlugChars(text) && NoDoubleHyphen(text)
    requires text != [] && text[0] != '-' && text[|text| - 1] != '-'
    ensures Uncut(fold, text) == text && NormalizeSlug(fold, text) == Some(Cut(text))
  {
    CollapseKeeps(text);
    assert TrimLeft(text) == text;
    assert TrimRight(text) == text;
  }

  lemma {:induction false} DecimalIsAlphanumeric(n: nat)
    ensures forall c :: c in Decimal(n) ==> Alphanumeric(c)
  {
    if n >= 10 {
      DecimalIsAlphanumeric(n / 10);
    }
  }

  function CopyText(slug: string, now: nat): string {
    slug + "-copy-" + Decimal(now)
  }

  lemma CopyTextShape(slug: string, now: nat)
    requires SlugShape(slug) && slug[|slug| - 1] != '-'
    ensures var text := CopyText(slug, now);
            && SlugChars(text) && NoDoubleHyphen(text) && |text| > |slug| + 6
            && text[0] != '-' && text[|text| - 1] != '-'
            && text[..|slug|] == slug && text[|slug|..|slug| + 6] == "-copy-"
            && forall i :: |slug| + 6 <= i < |text| ==> Alphanumeric(text[i])
  {
    var text, digits := CopyText(slug, now), Decimal(now);
    DecimalIsAlphanumeric(now);
    forall i | |slug| + 6 <= i < |text| ensures Alphanumeric(text[i]) {
      assert text[i] == digits[i - |slug| - 6];
      assert text[i] in digits;
    }
    assert forall i :: 0 <= i < |slug| ==> text[i] == slug[i];
    var copy := "-copy-";
    assert forall i :: 0 <= i < 6 ==> text[|slug| + i] == copy[i];
    forall i | 0 <= i < |text| - 1 ensures !(text[i] == '-' && text[i + 1] == '-') {
      if |slug| <= i < |slug| + 6 {
        assert text[i] == copy[i - |slug|];
      }
    }
  }

  /** A stored slug without the hyphen the cut can leave. */
  function Base(slug: string): string {
    if slug != [] && slug[|slug| - 1] == '-' then slug[..|slug| - 1] else slug
  }

  lemma BaseShape(slug: string)
    requires SlugShape(slug)
    ensures SlugShape(Base(slug)) && Base(slug)[|Base(slug)| - 1] != '-'
  {
    if slug[|slug| - 1] == '-' {
      assert |slug| > 1;
      assert slug[|slug| - 2] != '-';
      assert forall i :: 0 <= i < |Base(slug)| ==> Base(slug)[i] == slug[i];
    }
  }

  lemma SecondHyphen(y: string)
    requires SlugChars("-" + y) && NoDoubleHyphen("-" + y)
    ensures Collapse("--" + y) == "-" + y
  {
    var one := "-" + y;
    CollapseKeeps(one);
    assert ("--" + y)[1..] == one && one[1..] == y;
    assert y != [] ==> one[0 + 1] != '-' && y[0] in one;
    assert DropRun(one) == y == DropRun(y);
  }

  /** A doubled hyphen becomes one. */
  lemma {:induction false} CollapseDouble(x: string, y: string)
    requires SlugChars(x + ("-" + y)) && NoDoubleHyphen(x + ("-" + y))
    ensures Collapse(x + ("--" + y)) == x + ("-" + y)
    decreases |x|
  {
    var one, two := x + ("-" + y), x + ("--" + y);
    if x == [] {
      assert one == "-" + y && two == "--" + y;
      SecondHyphen(y);
    } else {
      TailShape(one);
      assert one[1..] == x[1..] + ("-" + y) && two[1..] == x[1..] + ("--" + y);
      CollapseDouble(x[1..], y);
      assert x[0] == one[0] && one[0] in one;
      if !Alphanumeric(x[0]) {
        assert one[0 + 1] in one && two[1] == one[1];
        assert DropRun(two[1..]) == two[1..];
      }
      assert one == [x[0]] + one[1..];
    }
  }

  /** The suffix starts with a hyphen, so one the cut left makes no difference. */
  lemma CopyOfBase(fold: string -> string, slug: string, now: nat)
    requires LeavesSlugsAlone(fold) && SlugShape(slug)
    ensures NormalizeSlug(fold, CopyText(slug, now)) == Some(Cut(CopyText(Base(slug), now)))
  {
    BaseShape(slug);
    CopyTextShape(Base(slug), now);
    SlugTextIsCut(fold, CopyText(Base(slug), now));
    if slug != Base(slug) {
      var x, y, text := Base(slug), "copy-" + Decimal(now), CopyText(slug, now);
      assert CopyText(x, now) == x + ("-" + y);
      assert text == x + ("--" + y);
      assert forall c :: c in text ==> c == '-' || c in CopyText(x, now);
      CollapseDouble(x, y);
      CollapseKeeps(CopyText(x, now));
      assert fold(text) == text && fold(CopyText(x, now)) == CopyText(x, now);
    }
  }

  /**
   Duplicating an article normalizes its slug with a suffix.  The public lookup asks for the slug
   the copy is given if and only if the cut does not fall behind one of the suffix's hyphens, that
   is, if the original's slug, without a last hyphen, is not 234 or 239 characters long.
   */
  lemma CopyIsFoundIff(fold: string -> string, slug: string, now: nat)
    requires LeavesSlugsAlone(fold) && SlugShape(slug)
    ensures var stored := NormalizeSlug(fold, CopyText(slug, now));
            && stored.Some?
            && (NormalizeSlug(fold, stored.value) == stored <==> |Base(slug)| != 234 && |Base(slug)| != 239)
  {
    var base, text := Base(slug), CopyText(Base(slug), now);
    CopyOfBase(fold, slug, now);
    BaseShape(slug);
    CopyTextShape(base, now);
    SlugTextIsCut(fold, text);
    NormalizingAgain(fold, text);
    var stored, copy := Cut(text), "-copy-";
    var last := |stored| - 1;
    assert stored[last] == text[last];
    if last < |base| {
      assert text[last] == base[last] && last == |base| - 1;
    } else if last < |base| + 6 {
      assert text[last] == text[|base|..|base| + 6][last - |base|] == copy[last - |base|];
    }
  }

  /** Slugs are unique, so the copy of an article can be stored only if its slug is shorter than the limit. */
  lemma CopyDiffersIff(fold: string -> string, slug: string, now: nat)
    requires LeavesSlugsAlone(fold) && SlugShape(slug)
    ensures NormalizeSlug(fold, CopyText(slug, now)) != Some(slug) <==> |slug| < MAX_LENGTH
  {
    var base, text := Base(slug), CopyText(Base(slug), now);
    CopyOfBase(fold, slug, now);
    BaseShape(slug);
    CopyTextShape(base, now);
    if |slug| == MAX_LENGTH {
      var copy := "-copy-";
      assert text[|base|] == text[|base|..|base| + 6][0] == copy[0];
      assert forall i :: 0 <= i < |base| ==> text[i] == base[i];
      assert Cut(text) == slug;
    }
  }

  /** How many digits of the time the cut leaves. */
  function Room(slug: string): nat {
    if |Base(slug)| + 6 < MAX_LENGTH then MAX_LENGTH - |Base(slug)| - 6 else 0
  }

  function First(digits: string, count: nat): string {
    if |digits| <= count then digits else digits[..count]
  }

  lemma CutOfCopy(slug: string, now: nat)
    requires SlugShape(slug)
    ensures |Base(slug)| + 6 < MAX_LENGTH ==>
              Cut(CopyText(Base(slug), now)) == Base(slug) + "-copy-" + First(Decimal(now), Room(slug))
    ensures |Base(slug)| + 6 >= MAX_LENGTH ==> Cut(CopyText(Base(slug), now)) == (Base(slug) + "-copy-")[..MAX_LENGTH]
  {
    var front, digits := Base(slug) + "-copy-", Decimal(now);
    BaseShape(slug);
    assert CopyText(Base(slug), now) == front + digits && |front| == |Base(slug)| + 6;
    if |front| < MAX_LENGTH {
      if |front + digits| > MAX_LENGTH {
        assert (front + digits)[..MAX_LENGTH] == front + digits[..MAX_LENGTH - |front|];
      }
    } else {
      assert (front + digits)[..MAX_LENGTH] == front[..MAX_LENGTH];
    }
  }

  /** Two copies of an article get the same slug if and only if the cut leaves the same digits of their times. */
  lemma CopiesCollideIff(fold: string -> string, slug: string, m: nat, n: nat)
    requires LeavesSlugsAlone(fold) && SlugShape(slug)
    ensures NormalizeSlug(fold, CopyText(slug, m)) == NormalizeSlug(fold, CopyText(slug, n)) <==>
            First(Decimal(m), Room(slug)) == First(Decimal(n), Room(slug))
  {
    CopyOfBase(fold, slug, m);
    CopyOfBase(fold, slug, n);
    CutOfCopy(slug, m);
    CutOfCopy(slug, n);
    if |Base(slug)| + 6 < MAX_LENGTH {
      var front := Base(slug) + "-copy-";
      assert (front + First(Decimal(m), Room(slug)))[|front|..] == First(Decimal(m), Room(slug));
      assert (front + First(Decimal(n), Room(slug)))[|front|..] == First(Decimal(n), Room(slug));
    }
  }

  /** The copy of an article with a slug of 239 characters is looked up under the original's slug. */
  lemma CopyAnswersForOriginal(fold: string -> string, slug: string, now: nat)
    requires LeavesSlugsAlone(fold) && SlugShape(slug) && slug[|slug| - 1] != '-' && |slug| == 239
    ensures NormalizeSlug(fold, CopyText(slug, now)) == Some(slug + "-")
    ensures NormalizeSlug(fold, slug + "-") == Some(slug)
  {
    var text := CopyText(slug, now);
    CopyTextShape(slug, now);
    SlugTextIsCut(fold, text);
    var copy := "-copy-";
    assert text[239] == text[239..245][0] == copy[0];
    assert Cut(text) == slug + "-";
    NormalizingAgain(fold, text);
    assert (slug + "-")[..239] == slug;
  }

  // ----- Words and separators

  predicate Word(s: string) {
    s != [] && forall c :: c in s ==> Alphanumeric(c)
  }

  predicate Separator(s: string) {
    forall c :: c in s ==> !Alphanumeric(c)
  }

  /** The words with the separators between them. */
  function Woven(words: seq<string>, gaps: seq<string>): string
    requires |gaps| + 1 == |words|
  {
    if gaps == [] then words[0] else words[0] + gaps[0] + Woven(words[1..], gaps[1..])
  }

  function Hyphenated(words: seq<string>): string
    requires words != []
  {
    if |words| == 1 then words[0] else words[0] + "-" + Hyphenated(words[1..])
  }

  lemma {:induction false} CollapseWord(word: string, rest: string)
    requires forall c :: c in word ==> Alphanumeric(c)
    ensures Collapse(word + rest) == word + Collapse(rest)
  {
    if word == [] {
      assert word + rest == rest;
    } else {
      assert word[0] in word;
      assert (word + rest)[0] == word[0] && (word + rest)[1..] == word[1..] + rest;
      CollapseWord(word[1..], rest);
    }
  }

  lemma {:induction false} DropSeparator(gap: string, rest: string)
    requires Separator(gap) && (rest != [] ==> Alphanumeric(rest[0]))
    ensures DropRun(gap + rest) == rest
  {
    if gap == [] {
      assert gap + rest == rest;
    } else {
      assert gap[0] in gap;
      assert (gap + rest)[0] == gap[0] && (gap + rest)[1..] == gap[1..] + rest;
      DropSeparator(gap[1..], rest);
    }
  }

  lemma CollapseSeparator(gap: string, rest: string)
    requires Separator(gap) && (rest != [] ==> Alphanumeric(rest[0]))
    ensures Collapse(gap + rest) == (if gap == [] then "" else "-") + Collapse(rest)
  {
    if gap == [] {
      assert gap + rest == rest;
    } else {
      assert gap[0] in gap;
      assert (gap + rest)[0] == gap[0] && (gap + rest)[1..] == gap[1..] + rest;
      DropSeparator(gap[1..], rest);
    }
  }

  ghost predicate Wordy(words: seq<string>, gaps: seq<string>) {
    && |gaps| + 1 == |words|
    && (forall i :: 0 <= i < |words| ==> Word(words[i]))
    && forall i :: 0 <= i < |gaps| ==> Separator(gaps[i]) && gaps[i] != []
  }

  lemma {:induction false} CollapseWoven(words: seq<string>, gaps: seq<string>, trail: string)
    requires Wordy(words, gaps) && Separator(trail)
    ensures Collapse(Woven(words, gaps) + trail) == Hyphenated(words) + if trail == [] then "" else "-"
    ensures Alphanumeric((Woven(words, gaps) + trail)[0])
  {
    assert words[0][0] in words[0] && words[0] != [];
    if gaps == [] {
      CollapseWord(words[0], trail);
      assert trail + [] == trail;
      CollapseSeparator(trail, []);
    } else {
      var rest := Woven(words[1..], gaps[1..]) + trail;
      CollapseWoven(words[1..], gaps[1..], trail);
      assert Woven(words, gaps) + trail == words[0] + (gaps[0] + rest);
      CollapseWord(words[0], gaps[0] + rest);
      CollapseSeparator(gaps[0], rest);
      assert words[0] + ("-" + Collapse(rest)) == Hyphenated(words) + if trail == [] then "" else "-";
    }
  }

  lemma {:induction false} HyphenatedEnds(words: seq<string>)
    requires words != [] && forall i :: 0 <= i < |words| ==> Word(words[i])
    ensures var s := Hyphenated(words); s != [] && s[0] != '-' && s[|s| - 1] != '-'
  {
    var word := words[0];
    assert word[0] in word && word[|word| - 1] in word;
    if |words| > 1 {
      HyphenatedEnds(words[1..]);
      var s, rest := Hyphenated(words), Hyphenated(words[1..]);
      assert s[|s| - 1] == rest[|rest| - 1];
    }
  }

  /**
   The slug of a text with words is the words, hyphens between them: each run of other characters
   between two words leaves one hyphen, and those before and behind the words leave nothing.
   */
  lemma WordsAreHyphenated(fold: string -> string, value: string, lead: string, words: seq<string>, gaps: seq<string>,
                           trail: string)
    requires Wordy(words, gaps) && Separator(lead) && Separator(trail)
    requires fold(value) == lead + (Woven(words, gaps) + trail)
    ensures var slug := Hyphenated(words);
            NormalizeSlug(fold, value) == Some(if |slug| <= 240 then slug else slug[..240])
  {
    var slug := Hyphenated(words);
    CollapseWoven(words, gaps, trail);
    CollapseSeparator(lead, Woven(words, gaps) + trail);
    HyphenatedEnds(words);
    var tail := if trail == [] then "" else "-";
    TrimmedBefore(if lead == [] then "" else "-", slug + tail);
    TrimmedBehind(slug, tail);
    assert Uncut(fold, value) == slug;
  }

  lemma TrimmedBefore(head: string, s: string)
    requires (head == "" || head == "-") && s != [] && s[0] != '-'
    ensures TrimLeft(head + s) == s
  {
    assert head == "" ==> head + s == s;
    assert head == "-" ==> (head + s)[1..] == s;
  }

  lemma TrimmedBehind(s: string, tail: string)
    requires (tail == "" || tail == "-") && s != [] && s[|s| - 1] != '-'
    ensures TrimRight(s + tail) == s
  {
    assert tail == "" ==> s + tail == s;
    assert tail == "-" ==> (s + tail)[..|s|] == s;
  }

  /** Without a word there is no slug. */
  lemma NoWordNoSlug(fold: string -> string, value: string)
    requires Separator(fold(value))
    ensures NormalizeSlug(fold, value) == None
  {
    assert fold(value) + [] == fold(value);
    CollapseSeparator(fold(value), []);
    assert "-"[1..] == "" && TrimLeft("-") == TrimLeft("") && TrimRight("") == "";
    assert TrimLeft(Collapse(fold(value))) == "";
  }
}
