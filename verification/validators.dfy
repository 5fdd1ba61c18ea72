/** The five field rules of the entry form (index.js:33-70).  Each maps the raw value
    of one field to "" when the value is acceptable and to one fixed message otherwise. */
module Validators {
  import opened Text

  const NameMissing := "Please enter your full name."
  const NameIncomplete := "Include both first and last name."
  const NameTooShort := "Each name must have at least 2 characters."
  const EmailMissing := "Please enter your email."
  const EmailInvalid := "Please enter a valid email address."
  const PhoneMissing := "Please enter your phone number."
  const PhoneInvalid := "Use Finnish format (+358… or 0…)."
  const BirthMissing := "Please select your birth date."
  const BirthInFuture := "Birth date cannot be in the future."
  const BirthTooYoung := "You must be at least 13 years old."
  const TermsNotAccepted := "You must accept the terms to continue."

  /** The youngest age, in whole years, the form accepts. */
  const MinimumAge := 13

  // ----- Full name -----

  /** `validateFullName`: a name is the trimmed value cut at whitespace runs; it needs two
      or more parts, each of JavaScript length two or more (UTF-16 code units). */
  function ValidateFullName(value: string): (r: string)
    ensures r in {"", NameMissing, NameIncomplete, NameTooShort}
  {
    var t := Trim(value);
    if t == [] then NameMissing
    else
      var parts := SplitWhitespace(t);
      if |parts| < 2 then NameIncomplete
      else if HasShortPiece(parts) then NameTooShort
      else ""
  }

  /** Some part has JavaScript length below two. */
  predicate HasShortPiece(parts: seq<string>) {
    exists k :: 0 <= k < |parts| && Utf16Length(parts[k]) < 2
  }

  /** The full-name rule in terms of the value itself: blank, a single word, a word of
      one UTF-16 unit, or accepted, checked in that order. */
  lemma FullNameRules(value: string)
    ensures ValidateFullName(value) == NameMissing <==> AllWhitespace(value)
    ensures ValidateFullName(value) == NameIncomplete
        <==> !AllWhitespace(value) && NoWhitespace(Trim(value))
    ensures ValidateFullName(value) == NameTooShort
        <==> !NoWhitespace(Trim(value)) && HasOneUnitWord(value)
    ensures ValidateFullName(value) == ""
        <==> !NoWhitespace(Trim(value)) && !HasOneUnitWord(value)
  {
    var t := Trim(value);
    TrimOneUnitWord(value);
    if t != [] {
      SplitCount(t);
      ShortPieceIffOneUnitWord(t);
    }
  }

  /** In a trimmed non-empty string, a piece of the split shorter than two UTF-16 units
      is exactly a one-unit word. */
  lemma ShortPieceIffOneUnitWord(t: string)
    requires t != [] && !IsWhitespace(t[0]) && !IsWhitespace(t[|t| - 1])
    ensures HasShortPiece(SplitWhitespace(t)) <==> HasOneUnitWord(t)
  {
    var parts := SplitWhitespace(t);
    SplitTrimmedNonEmpty(t);
    ShortPieceIsOneUnit(parts);
    if HasOneUnitPiece(parts) {
      OneUnitPieceIsWord(t);
    }
    if HasOneUnitWord(t) {
      OneUnitWordIsPiece(t);
    }
  }

  /** Among non-empty pieces, one shorter than two units is one of exactly one unit. */
  lemma ShortPieceIsOneUnit(parts: seq<string>)
    requires forall k :: 0 <= k < |parts| ==> parts[k] != []
    ensures HasShortPiece(parts) <==> HasOneUnitPiece(parts)
  {
    if HasShortPiece(parts) {
      var k :| 0 <= k < |parts| && Utf16Length(parts[k]) < 2;
      Utf16LengthBelowTwo(parts[k]);
      assert IsOneUnit(parts[k]);
    }
    if HasOneUnitPiece(parts) {
      var k :| 0 <= k < |parts| && IsOneUnit(parts[k]);
      Utf16LengthBelowTwo(parts[k]);
      assert Utf16Length(parts[k]) < 2;
    }
  }

  lemma TrimKeeps(s: string)
    requires s != [] && !IsWhitespace(s[0]) && !IsWhitespace(s[|s| - 1])
    ensures Trim(s) == s
  {
    assert LeadingWhitespace(s) == 0 && TrailingWhitespace(s) == 0;
    assert s[0..|s|] == s;
  }

  lemma SplitTwoWords(first: string, last: string)
    requires first != [] && last != [] && NoWhitespace(first) && NoWhitespace(last)
    ensures SplitWhitespace(first + " " + last) == [first, last]
  {
    var s := first + " " + last;
    assert forall k :: 0 <= k < |first| ==> s[k] == first[k];
    assert IsWhitespace(s[|first|]);
    assert FirstWhitespace(s) == |first|;
    assert s[|first| + 1] == last[0];
    assert GapEnd(s) == |first| + 1;
    assert s[..|first|] == first && s[|first| + 1..] == last;
    assert FirstWhitespace(last) == |last|;
  }

  /** An accepted name, once trimmed, splits into at least two words of at least two
      UTF-16 units each. */
  lemma NameAcceptedWords(value: string)
    requires ValidateFullName(value) == ""
    ensures |SplitWhitespace(Trim(value))| >= 2
    ensures forall k :: 0 <= k < |SplitWhitespace(Trim(value))| ==>
      Utf16Length(SplitWhitespace(Trim(value))[k]) >= 2
  {
  }

  /** A name of two words joined by one space is accepted iff both words have JavaScript
      length at least two. */
  lemma TwoWordName(first: string, last: string)
    requires first != [] && last != [] && NoWhitespace(first) && NoWhitespace(last)
    ensures ValidateFullName(first + " " + last)
        == if Utf16Length(first) < 2 || Utf16Length(last) < 2 then NameTooShort else ""
  {
    TwoWordsTrimmed(first, last);
    SplitTwoWords(first, last);
    NameOfTwoPieces(first + " " + last, first, last);
  }

  lemma NameOfTwoPieces(t: string, first: string, last: string)
    requires Trim(t) == t != [] && SplitWhitespace(t) == [first, last]
    ensures ValidateFullName(t)
        == if Utf16Length(first) < 2 || Utf16Length(last) < 2 then NameTooShort else ""
  {
    var parts := [first, last];
    assert HasShortPiece(parts) <==> Utf16Length(first) < 2 || Utf16Length(last) < 2 by {
      if Utf16Length(first) < 2 { assert Utf16Length(parts[0]) < 2; }
      if Utf16Length(last) < 2 { assert Utf16Length(parts[1]) < 2; }
    }
  }

  lemma TwoWordsTrimmed(first: string, last: string)
    requires first != [] && last != [] && NoWhitespace(first) && NoWhitespace(last)
    ensures Trim(first + " " + last) == first + " " + last
  {
    var s := first + " " + last;
    assert s[0] == first[0] && s[|s| - 1] == last[|last| - 1];
    TrimKeeps(s);
  }

  /** "Jo An" (two two-letter names) passes. */
  lemma TwoLetterNamesAccepted()
    ensures ValidateFullName("Jo An") == ""
  {
    var first, last := "Jo", "An";
    assert !IsWhitespace(first[0]) && !IsWhitespace(first[1]);
    assert !IsWhitespace(last[0]) && !IsWhitespace(last[1]);
    assert first + " " + last == "Jo An";
    TwoWordName(first, last);
  }

  /** "J An" (a one-letter first name) does not. */
  lemma OneLetterNameRejected()
    ensures ValidateFullName("J An") == NameTooShort
  {
    var first, last := "J", "An";
    assert !IsWhitespace(first[0]) && InBmp(first[0]);
    assert !IsWhitespace(last[0]) && !IsWhitespace(last[1]);
    assert first + " " + last == "J An";
    TwoWordName(first, last);
  }

  /** A first name of one emoji passes: outside the Basic Multilingual Plane it is two
      UTF-16 units long. */
  lemma AstralFirstNameAccepted()
    ensures ValidateFullName("\U{1F600} Smith") == ""
  {
    var first, last := "\U{1F600}", "Smith";
    assert !IsWhitespace(first[0]) && !InBmp(first[0]);
    assert !IsWhitespace(last[0]) && !IsWhitespace(last[1]) && !IsWhitespace(last[2]);
    assert !IsWhitespace(last[3]) && !IsWhitespace(last[4]);
    assert first + " " + last == "\U{1F600} Smith";
    TwoWordName(first, last);
  }

  // ----- Email -----

  /** A character of the class `[^@\s]`. */
  predicate IsAddressChar(c: char) {
    c != '@' && !IsWhitespace(c)
  }

  predicate AllAddressChars(s: string) {
    forall i :: 0 <= i < |s| ==> IsAddressChar(s[i])
  }

  /** `s` matches `^[^@\s]+@[^@\s]+\.[^@\s]{2,}$` with its `@` at index `at` and the
      literal `.` at index `dot`.  The expression has no `u` flag, so `{2,}` counts
      UTF-16 code units: the ending needs JavaScript length two or more. */
  predicate EmailMatchAt(s: string, at: int, dot: int) {
    0 < at && at + 1 < dot < |s| &&
    s[at] == '@' && s[dot] == '.' &&
    AllAddressChars(s[..at]) && AllAddressChars(s[at + 1..dot]) && AllAddressChars(s[dot + 1..]) &&
    Utf16Length(s[dot + 1..]) >= 2
  }

  /** `s` matches the email regular expression. */
  ghost predicate MatchesEmailPattern(s: string) {
    exists at, dot :: EmailMatchAt(s, at, dot)
  }

  /** The email shape decided directly: no whitespace, a first `@` after at least one
      character, no `@` after it, and a first `.` at least two characters after the `@`
      that is followed by two or more UTF-16 units. */
  predicate EmailShape(s: string) {
    var at := IndexOf(s, '@');
    NoWhitespace(s) && 0 < at && at + 2 < |s| && '@' !in s[at + 1..] &&
    var dot := at + 2 + IndexOf(s[at + 2..], '.');
    dot < |s| && Utf16Length(s[dot + 1..]) >= 2
  }

  /** The direct decision agrees with the regular expression on every string. */
  lemma EmailShapeMatchesPattern(s: string)
    ensures EmailShape(s) <==> MatchesEmailPattern(s)
  {
    if EmailShape(s) {
      ShapeMatches(s);
    }
    if MatchesEmailPattern(s) {
      var at, dot :| EmailMatchAt(s, at, dot);
      MatchHasShape(s, at, dot);
    }
  }

  /** The first `@` and the first `.` after it that the direct decision finds are a match. */
  lemma ShapeMatches(s: string)
    requires EmailShape(s)
    ensures MatchesEmailPattern(s)
  {
    var at := IndexOf(s, '@');
    var dot := at + 2 + IndexOf(s[at + 2..], '.');
    assert s[dot] == s[at + 2..][dot - at - 2];
    forall i | 0 <= i < |s| && i != at ensures IsAddressChar(s[i]) {
      if i > at { assert s[i] == s[at + 1..][i - at - 1]; }
    }
    assert EmailMatchAt(s, at, dot);
  }

  /** Any match passes the direct decision: its `@` is the first one, and the first `.`
      after it leaves at least as long an ending as the matched `.` does. */
  lemma MatchHasShape(s: string, at: int, dot: int)
    requires EmailMatchAt(s, at, dot)
    ensures EmailShape(s)
  {
    EmailPatternParts(s, at, dot);
    assert IndexOf(s, '@') == at;
    assert s[at + 2..][dot - at - 2] == '.';
    var first := at + 2 + IndexOf(s[at + 2..], '.');
    assert first <= dot;
    Utf16LengthSuffix(s, first + 1, dot + 1);
  }

  /** What a match says character by character: every character but the one `@` is an
      address character. */
  lemma EmailPatternParts(s: string, at: int, dot: int)
    requires EmailMatchAt(s, at, dot)
    ensures forall i :: 0 <= i < |s| && i != at ==> IsAddressChar(s[i])
  {
    forall i | 0 <= i < |s| && i != at ensures IsAddressChar(s[i]) {
      if i < at { assert s[i] == s[..at][i]; }
      else if i < dot { assert s[i] == s[at + 1..dot][i - at - 1]; }
      else if i > dot { assert s[i] == s[dot + 1..][i - dot - 1]; }
    }
  }

  /** An address that matches has exactly one `@` and no whitespace. */
  lemma EmailPatternSingleAt(s: string, at: int, dot: int)
    requires EmailMatchAt(s, at, dot)
    ensures NoWhitespace(s)
    ensures forall i :: 0 <= i < |s| ==> (s[i] == '@' <==> i == at)
  {
    EmailPatternParts(s, at, dot);
  }

  /** `validateEmail`: blank, then the regular expression on the value as given. */
  function ValidateEmail(value: string): (r: string)
    ensures r in {"", EmailMissing, EmailInvalid}
  {
    if Trim(value) == [] then EmailMissing
    else if EmailShape(value) then ""
    else EmailInvalid
  }

  lemma EmailRules(value: string)
    ensures ValidateEmail(value) == EmailMissing <==> AllWhitespace(value)
    ensures ValidateEmail(value) == "" <==> MatchesEmailPattern(value)
    ensures ValidateEmail(value) == EmailInvalid
        <==> !AllWhitespace(value) && !MatchesEmailPattern(value)
  {
    EmailShapeMatchesPattern(value);
    if MatchesEmailPattern(value) {
      var at, dot :| EmailMatchAt(value, at, dot);
      EmailPatternSingleAt(value, at, dot);
      assert !IsWhitespace(value[0]);
    }
  }

  /** `local@domain.ending` with non-empty parts of address characters and an ending of
      JavaScript length two or more is accepted. */
  lemma EmailAccepted(local: string, domain: string, ending: string)
    requires local != [] && domain != [] && Utf16Length(ending) >= 2
    requires AllAddressChars(local) && AllAddressChars(domain) && AllAddressChars(ending)
    ensures ValidateEmail(local + "@" + domain + "." + ending) == ""
  {
    var s, at, dot := AddressSlices(local, domain, ending);
    assert AllAddressChars(s[..at]) && AllAddressChars(s[at + 1..dot]);
    assert AllAddressChars(s[dot + 1..]) && Utf16Length(s[dot + 1..]) >= 2;
    assert EmailMatchAt(s, at, dot);
    PatternAccepted(s);
  }

  /** Where the three parts of `local@domain.ending` lie. */
  lemma AddressSlices(local: string, domain: string, ending: string)
      returns (s: string, at: nat, dot: nat)
    ensures s == local + "@" + domain + "." + ending
    ensures at == |local| && dot == |local| + 1 + |domain| < |s|
    ensures s[..at] == local && s[at] == '@' && s[at + 1..dot] == domain
    ensures s[dot] == '.' && s[dot + 1..] == ending
  {
    s := local + "@" + domain + "." + ending;
    at, dot := |local|, |local| + 1 + |domain|;
    assert s[..at] == local;
    assert s[at + 1..dot] == domain;
    assert s[dot + 1..] == ending;
  }

  lemma PatternAccepted(s: string)
    requires MatchesEmailPattern(s)
    ensures ValidateEmail(s) == ""
  {
    EmailRules(s);
  }

  /** `local@domain.c`, with an ending of one unit and no `.` in the domain, is rejected. */
  lemma EmailOneUnitEndingRejected(local: string, domain: string, c: char)
    requires local != [] && AllAddressChars(local) && AllAddressChars(domain)
    requires '.' !in domain && IsAddressChar(c) && InBmp(c)
    ensures ValidateEmail(local + "@" + domain + "." + [c]) == EmailInvalid
  {
    var s := local + "@" + domain + "." + [c];
    assert !IsWhitespace(s[0]);
    assert s[|local|] == '@';
    assert s[|s| - 1..] == [c];
    forall at, dot | EmailMatchAt(s, at, dot) ensures false {
      EmailPatternSingleAt(s, at, dot);
    }
    EmailRules(s);
  }

  /** A value without `@` is rejected. */
  lemma EmailWithoutAtRejected(s: string)
    requires !AllWhitespace(s) && '@' !in s
    ensures ValidateEmail(s) == EmailInvalid
  {
    EmailRules(s);
  }

  /** "a@b.co" passes: a two-letter ending. */
  lemma TwoLetterEndingAccepted()
    ensures ValidateEmail("a@b.co") == ""
  {
    var local, domain, ending := "a", "b", "co";
    assert IsAddressChar(local[0]) && IsAddressChar(domain[0]);
    assert IsAddressChar(ending[0]) && IsAddressChar(ending[1]);
    assert local + "@" + domain + "." + ending == "a@b.co";
    EmailAccepted(local, domain, ending);
  }

  /** "a@b.c.d" passes: the ending may itself hold a dot. */
  lemma DottedEndingAccepted()
    ensures ValidateEmail("a@b.c.d") == ""
  {
    var local, domain, ending := "a", "b", "c.d";
    assert IsAddressChar(local[0]) && IsAddressChar(domain[0]);
    assert IsAddressChar(ending[0]) && IsAddressChar(ending[1]) && IsAddressChar(ending[2]);
    assert local + "@" + domain + "." + ending == "a@b.c.d";
    EmailAccepted(local, domain, ending);
  }

  /** "a@b.c" is rejected: a one-letter ending. */
  lemma OneLetterEndingRejected()
    ensures ValidateEmail("a@b.c") == EmailInvalid
  {
    var local, domain := "a", "b";
    assert IsAddressChar(local[0]) && IsAddressChar(domain[0]) && domain[0] != '.';
    assert local + "@" + domain + "." + ['c'] == "a@b.c";
    EmailOneUnitEndingRejected(local, domain, 'c');
  }

  /** An ending of one emoji passes: it is two UTF-16 units long. */
  lemma AstralEndingAccepted()
    ensures ValidateEmail("a@b.\U{1F600}") == ""
  {
    var local, domain, ending := "a", "b", "\U{1F600}";
    assert IsAddressChar(local[0]) && IsAddressChar(domain[0]);
    assert IsAddressChar(ending[0]) && !InBmp(ending[0]);
    assert local + "@" + domain + "." + ending == "a@b.\U{1F600}";
    EmailAccepted(local, domain, ending);
  }

  /** "a.com" is rejected: no `@`. */
  lemma MissingAtRejected()
    ensures ValidateEmail("a.com") == EmailInvalid
  {
    var s := "a.com";
    assert !IsWhitespace(s[0]);
    assert s[0] != '@' && s[1] != '@' && s[2] != '@' && s[3] != '@' && s[4] != '@';
    EmailWithoutAtRejected(s);
  }

  // ----- Phone -----

  /** A character the phone rule deletes before matching: the class `[\s\-()]`. */
  predicate IsPhoneSeparator(c: char) {
    IsWhitespace(c) || c == '-' || c == '(' || c == ')'
  }

  /** `value.replace(/[\s\-()]/g, "")` */
  function StripSeparators(s: string): (r: string)
    ensures |r| <= |s|
    ensures forall i :: 0 <= i < |r| ==> !IsPhoneSeparator(r[i])
  {
    if s == [] then []
    else (if IsPhoneSeparator(s[0]) then [] else [s[0]]) + StripSeparators(s[1..])
  }

  predicate IsDigit(c: char) {
    '0' <= c <= '9'
  }

  predicate AllDigits(s: string) {
    forall i :: 0 <= i < |s| ==> IsDigit(s[i])
  }

  /** `^\+358\d{6,12}$` */
  predicate InternationalNumber(d: string) {
    10 <= |d| <= 16 && "+358" <= d && AllDigits(d[4..])
  }

  /** `^0\d{5,12}$` */
  predicate DomesticNumber(d: string) {
    6 <= |d| <= 13 && d[0] == '0' && AllDigits(d[1..])
  }

  /** `validatePhone`: blank, then the Finnish formats after deleting separators. */
  function ValidatePhone(value: string): (r: string)
    ensures r in {"", PhoneMissing, PhoneInvalid}
  {
    if Trim(value) == [] then PhoneMissing
    else
      var digits := StripSeparators(value);
      if InternationalNumber(digits) || DomesticNumber(digits) then "" else PhoneInvalid
  }

  lemma {:induction false} StripSeparatorsAppend(a: string, b: string)
    ensures StripSeparators(a + b) == StripSeparators(a) + StripSeparators(b)
  {
    if a == [] {
      assert a + b == b;
    } else {
      var head := if IsPhoneSeparator(a[0]) then [] else [a[0]];
      assert (a + b)[0] == a[0];
      assert (a + b)[1..] == a[1..] + b;
      calc {
        StripSeparators(a + b);
        head + StripSeparators(a[1..] + b);
        { StripSeparatorsAppend(a[1..], b); }
        head + (StripSeparators(a[1..]) + StripSeparators(b));
        (head + StripSeparators(a[1..])) + StripSeparators(b);
      }
    }
  }

  /** Stripping leaves no separator, is idempotent, and empties exactly the strings made
      only of separators.  That every other character is kept, in order, follows from
      `StripSeparatorsAppend` and `StripNoSeparators`. */
  lemma {:induction false} StripSeparatorsClean(s: string)
    ensures forall i :: 0 <= i < |StripSeparators(s)| ==> !IsPhoneSeparator(StripSeparators(s)[i])
    ensures StripSeparators(StripSeparators(s)) == StripSeparators(s)
    ensures StripSeparators(s) == [] <==> forall i :: 0 <= i < |s| ==> IsPhoneSeparator(s[i])
  {
    if s != [] {
      StripSeparatorsClean(s[1..]);
      var head := if IsPhoneSeparator(s[0]) then [] else [s[0]];
      var rest := StripSeparators(s[1..]);
      StripSeparatorsAppend(head, rest);
      if head != [] {
        assert StripSeparators(head) == head;
      }
      if forall i :: 0 <= i < |s| ==> IsPhoneSeparator(s[i]) {
        assert forall i :: 0 <= i < |s[1..]| ==> IsPhoneSeparator(s[1..][i]) by {
          forall i | 0 <= i < |s[1..]| ensures IsPhoneSeparator(s[1..][i]) { assert s[1..][i] == s[i + 1]; }
        }
      }
      if StripSeparators(s) == [] {
        forall i | 0 <= i < |s| ensures IsPhoneSeparator(s[i]) {
          if i > 0 { assert s[i] == s[1..][i - 1]; }
        }
      }
    }
  }

  /** Separators are irrelevant: unless nothing but separators was typed, a number is
      judged exactly as its separator-free form is. */
  lemma PhoneIgnoresSeparators(value: string)
    requires StripSeparators(value) != []
    ensures ValidatePhone(value) == ValidatePhone(StripSeparators(value))
  {
    var d := StripSeparators(value);
    StripSeparatorsClean(value);
    assert !IsWhitespace(d[0]);
    assert Trim(d) != [];
    assert exists i :: 0 <= i < |value| && !IsPhoneSeparator(value[i]);
    assert Trim(value) != [];
  }

  /** The phone rule in terms of the value: blank, one of the two Finnish formats once
      separators are deleted, or invalid. */
  lemma PhoneRules(value: string)
    ensures ValidatePhone(value) == PhoneMissing <==> AllWhitespace(value)
    ensures ValidatePhone(value) == ""
        <==> InternationalNumber(StripSeparators(value)) || DomesticNumber(StripSeparators(value))
    ensures ValidatePhone(value) == PhoneInvalid
        <==> !AllWhitespace(value) && !InternationalNumber(StripSeparators(value))
             && !DomesticNumber(StripSeparators(value))
  {
    StripSeparatorsClean(value);
    if AllWhitespace(value) {
      assert forall i :: 0 <= i < |value| ==> IsPhoneSeparator(value[i]);
    }
  }

  /** Number of decimal digits in `s`. */
  function DigitCount(s: string): nat
  {
    if s == [] then 0 else (if IsDigit(s[0]) then 1 else 0) + DigitCount(s[1..])
  }

  lemma {:induction false} DigitCountStrip(s: string)
    ensures DigitCount(StripSeparators(s)) == DigitCount(s)
  {
    if s != [] {
      DigitCountStrip(s[1..]);
      var head := if IsPhoneSeparator(s[0]) then [] else [s[0]];
      DigitCountAppend(head, StripSeparators(s[1..]));
    }
  }

  lemma {:induction false} DigitCountAppend(a: string, b: string)
    ensures DigitCount(a + b) == DigitCount(a) + DigitCount(b)
  {
    if a == [] {
      assert a + b == b;
    } else {
      assert (a + b)[0] == a[0];
      assert (a + b)[1..] == a[1..] + b;
      DigitCountAppend(a[1..], b);
    }
  }

  lemma {:induction false} DigitCountAll(s: string)
    requires AllDigits(s)
    ensures DigitCount(s) == |s|
  {
    if s != [] {
      assert AllDigits(s[1..]) by {
        forall i | 0 <= i < |s[1..]| ensures IsDigit(s[1..][i]) { assert s[1..][i] == s[i + 1]; }
      }
      DigitCountAll(s[1..]);
    }
  }

  lemma DigitCountSplit(d: string, n: nat)
    requires n <= |d|
    ensures DigitCount(d) == DigitCount(d[..n]) + DigitCount(d[n..])
  {
    assert d == d[..n] + d[n..];
    DigitCountAppend(d[..n], d[n..]);
  }

  lemma {:induction false} PlusPrefixDigits()
    ensures DigitCount("+358") == 3
  {
    var p := "+358";
    assert p[1..][1..][1..][1..] == [];
    assert DigitCount(p[1..][1..][1..]) == 1;
  }

  /** A number of either Finnish format holds between 6 and 15 digits. */
  lemma NumberDigits(d: string)
    requires InternationalNumber(d) || DomesticNumber(d)
    ensures 6 <= DigitCount(d) <= 15
  {
    if InternationalNumber(d) {
      DigitCountSplit(d, 4);
      DigitCountAll(d[4..]);
      assert d[..4] == "+358";
      PlusPrefixDigits();
    } else {
      DigitCountSplit(d, 1);
      DigitCountAll(d[1..]);
      assert d[..1] == "0";
    }
  }

  /** An accepted number, as typed, holds between 6 and 15 digits: 358 and 6 to 12 more,
      or 0 and 5 to 12 more. */
  lemma PhoneAcceptedDigits(value: string)
    requires ValidatePhone(value) == ""
    ensures 6 <= DigitCount(value) <= 15
  {
    DigitCountStrip(value);
    NumberDigits(StripSeparators(value));
  }

  lemma {:induction false} StripNoSeparators(s: string)
    requires forall i :: 0 <= i < |s| ==> !IsPhoneSeparator(s[i])
    ensures StripSeparators(s) == s
  {
    if s != [] {
      var t := s[1..];
      assert forall i :: 0 <= i < |t| ==> t[i] == s[i + 1];
      StripNoSeparators(t);
      assert s == [s[0]] + t;
    }
  }

  /** A value with no separators that does not start with whitespace is checked as typed. */
  lemma CleanPhone(s: string)
    requires s != [] && !IsWhitespace(s[0])
    requires forall i :: 0 <= i < |s| ==> !IsPhoneSeparator(s[i])
    ensures ValidatePhone(s) != PhoneMissing
    ensures ValidatePhone(s) == "" <==> InternationalNumber(s) || DomesticNumber(s)
  {
    StripNoSeparators(s);
    assert LeadingWhitespace(s) == 0;
  }

  /** After +358 the rule wants 6 to 12 digits: "+358" and 5 digits is rejected. */
  lemma InternationalDigitCount(digits: string)
    requires AllDigits(digits)
    ensures ValidatePhone("+358" + digits) != PhoneMissing
    ensures ValidatePhone("+358" + digits) == "" <==> 6 <= |digits| <= 12
  {
    var s := "+358" + digits;
    assert s[..4] == "+358" && s[4..] == digits;
    CleanPhone(s);
  }

  /** After a leading 0 the rule wants 5 to 12 digits. */
  lemma DomesticDigitCount(digits: string)
    requires AllDigits(digits)
    ensures ValidatePhone("0" + digits) == "" <==> 5 <= |digits| <= 12
  {
    var s := "0" + digits;
    assert s[1..] == digits;
    CleanPhone(s);
  }

  /** "+358123456" (six digits after the country code) passes. */
  lemma SixDigitInternationalAccepted()
    ensures ValidatePhone("+358123456") == ""
  {
    var digits := "123456";
    assert IsDigit(digits[0]) && IsDigit(digits[1]) && IsDigit(digits[2]);
    assert IsDigit(digits[3]) && IsDigit(digits[4]) && IsDigit(digits[5]);
    assert "+358" + digits == "+358123456";
    InternationalDigitCount(digits);
  }

  /** "+35812345" (five digits after the country code) is rejected. */
  lemma FiveDigitInternationalRejected()
    ensures ValidatePhone("+35812345") == PhoneInvalid
  {
    var digits := "12345";
    assert IsDigit(digits[0]) && IsDigit(digits[1]) && IsDigit(digits[2]);
    assert IsDigit(digits[3]) && IsDigit(digits[4]);
    assert "+358" + digits == "+35812345";
    InternationalDigitCount(digits);
  }

  // ----- Birth date -----

  /** A calendar date as the date field denotes it. */
  datatype Date = Date(year: int, month: int, day: int)

  /** `a` is an earlier calendar day than `b`. */
  predicate Before(a: Date, b: Date) {
    a.year < b.year ||
    (a.year == b.year && (a.month < b.month || (a.month == b.month && a.day < b.day)))
  }

  /** The same month and day `years` years after `d`. */
  function YearsLater(d: Date, years: int): (r: Date)
  {
    Date(d.year + years, d.month, d.day)
  }

  /** Whole years from `birth` to `today`: the difference of the years, less one while
      today's month and day come before the birth month and day. */
  function AgeInYears(birth: Date, today: Date): (age: int)
    ensures today.year - birth.year - 1 <= age <= today.year - birth.year
  {
    var age := today.year - birth.year;
    var m := today.month - birth.month;
    if m < 0 || (m == 0 && today.day < birth.day) then age - 1 else age
  }

  /** Age reaches `years` exactly on the `years`-th birthday. */
  lemma AgeReached(birth: Date, today: Date, years: int)
    ensures AgeInYears(birth, today) >= years <==> !Before(today, YearsLater(birth, years))
  {
  }

  /** `validateBirth`: `value` is the raw field text, `birth` the date it denotes and
      `today` the current date. */
  function ValidateBirth(value: string, birth: Date, today: Date): (r: string)
    ensures r in {"", BirthMissing, BirthInFuture, BirthTooYoung}
  {
    if value == "" then BirthMissing
    else if Before(today, birth) then BirthInFuture
    else if AgeInYears(birth, today) < MinimumAge then BirthTooYoung
    else ""
  }

  /** The birth rule by calendar: a future date is reported as such even though it is also
      too young; otherwise the date passes iff its 13th anniversary is not after today. */
  lemma BirthRules(value: string, birth: Date, today: Date)
    ensures ValidateBirth(value, birth, today) == BirthMissing <==> value == ""
    ensures ValidateBirth(value, birth, today) == BirthInFuture
        <==> value != "" && Before(today, birth)
    ensures ValidateBirth(value, birth, today) == BirthTooYoung
        <==> value != "" && !Before(today, birth) && Before(today, YearsLater(birth, MinimumAge))
    ensures ValidateBirth(value, birth, today) == ""
        <==> value != "" && !Before(today, YearsLater(birth, MinimumAge))
  {
    AgeReached(birth, today, MinimumAge);
  }

  /** Born exactly 13 years ago today passes; born any later day up to today fails
      with the age message. */
  lemma BirthBoundary(value: string, today: Date, birth: Date)
    requires value != ""
    ensures ValidateBirth(value, YearsLater(today, -MinimumAge), today) == ""
    ensures Before(YearsLater(today, -MinimumAge), birth) && !Before(today, birth)
        ==> ValidateBirth(value, birth, today) == BirthTooYoung
  {
    BirthRules(value, YearsLater(today, -MinimumAge), today);
    BirthRules(value, birth, today);
  }

  // ----- Terms -----

  /** `validateTerms` */
  function ValidateTerms(checked: bool): (r: string)
    ensures r == "" <==> checked
    ensures r != "" ==> r == TermsNotAccepted
  {
    if checked then "" else TermsNotAccepted
  }
}
