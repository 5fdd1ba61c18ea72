/** The registration page of index.js: the error slots, the timestamp box, the success
    notice and the table of accepted entries, changed by the submit and clear handlers. */
module Form {
  import opened Text
  import opened Validators

  /** The five fields of the form, which are also the five keys of the error slots. */
  datatype Field = FullName | Email | Phone | Birth | Terms

  /** The order in which the submit handler walks the error object. */
  const FieldOrder: seq<Field> := [FullName, Email, Phone, Birth, Terms]

  const AllFields: set<Field> := {FullName, Email, Phone, Birth, Terms}

  const SuccessText := "✅ Entry added successfully!"

  /** Every field has a slot and a place in the walk. */
  lemma FieldsCovered(f: Field)
    ensures f in AllFields && f in FieldOrder
  {
  }

  /** What the form holds when it is submitted: the text of the four inputs and the state of
      the terms checkbox. */
  datatype Inputs = Inputs(fullName: string, email: string, phone: string, birth: string, terms: bool)

  /** The `values` object: name, email and phone trimmed; the birth text as typed. */
  function Values(input: Inputs): (v: Inputs)
    ensures v.birth == input.birth && v.terms == input.terms
    ensures Trim(v.fullName) == v.fullName && Trim(v.email) == v.email && Trim(v.phone) == v.phone
    ensures v.fullName == [] <==> AllWhitespace(input.fullName)
    ensures v.email == [] <==> AllWhitespace(input.email)
    ensures v.phone == [] <==> AllWhitespace(input.phone)
  {
    TrimIdempotent(input.fullName);
    TrimIdempotent(input.email);
    TrimIdempotent(input.phone);
    Inputs(Trim(input.fullName), Trim(input.email), Trim(input.phone), input.birth, input.terms)
  }

  /** The `errors` object: one message per field, "" where the field passed. */
  datatype Report = Report(fullName: string, email: string, phone: string, birth: string, terms: string)

  /** Every validator run on its own field, none depending on another's outcome;
      `birthDate` is the date the birth text denotes and `today` the current date. */
  function Validate(v: Inputs, birthDate: Date, today: Date): (r: Report)
    ensures r.terms == "" <==> v.terms
  {
    Report(ValidateFullName(v.fullName), ValidateEmail(v.email), ValidatePhone(v.phone),
           ValidateBirth(v.birth, birthDate, today), ValidateTerms(v.terms))
  }

  /** The message the report holds for field `f`. */
  function Message(r: Report, f: Field): string
  {
    match f
    case FullName => r.fullName
    case Email => r.email
    case Phone => r.phone
    case Birth => r.birth
    case Terms => r.terms
  }

  /** The error slots as the report fills them. */
  function Slots(r: Report): map<Field, string>
  {
    map f | f in AllFields :: Message(r, f)
  }

  /** Every validator returned the empty message. */
  predicate Passed(r: Report) {
    r.fullName == "" && r.email == "" && r.phone == "" && r.birth == "" && r.terms == ""
  }

  /** Passing is the same as every field's message being empty. */
  lemma PassedAllMessages(r: Report)
    ensures Passed(r) <==> forall f :: Message(r, f) == ""
  {
    if !Passed(r) {
      if r.fullName != "" {
        assert Message(r, FullName) != "";
      } else if r.email != "" {
        assert Message(r, Email) != "";
      } else if r.phone != "" {
        assert Message(r, Phone) != "";
      } else if r.birth != "" {
        assert Message(r, Birth) != "";
      } else {
        assert Message(r, Terms) != "";
      }
    }
  }

  /** The cells of a table row: timestamp, name, email, phone, birth text, terms label. */
  function Row(stamp: string, v: Inputs): (r: seq<string>)
    ensures |r| == 6 && r[0] == stamp && (r[5] == "Yes" <==> v.terms)
  {
    [stamp, v.fullName, v.email, v.phone, v.birth, if v.terms then "Yes" else "No"]
  }

  /** The shape every row of the table has. */
  predicate RowsWellFormed(rows: seq<seq<string>>) {
    forall i :: 0 <= i < |rows| ==> |rows[i]| == 6 && rows[i][5] == "Yes"
  }

  // ----- Timestamp -----

  /** `s.replace(c, d)` with a one-character pattern: only the first `c` is replaced. */
  function ReplaceFirst(s: string, c: char, d: char): (r: string)
    ensures |r| == |s|
    ensures forall k :: 0 <= k < |s| ==> r[k] == if k == IndexOf(s, c) then d else s[k]
  {
    if s == [] then []
    else if s[0] == c then [d] + s[1..]
    else [s[0]] + ReplaceFirst(s[1..], c, d)
  }

  /** `setTimestamp`'s text for an ISO-8601 instant `iso`: the first `T` becomes a space and
      at most 19 characters are kept. */
  function Stamp(iso: string): (r: string)
    ensures |r| == if |iso| < 19 then |iso| else 19
    ensures forall k :: 0 <= k < |r| ==> r[k] == if k == IndexOf(iso, 'T') then ' ' else iso[k]
  {
    var t := ReplaceFirst(iso, 'T', ' ');
    if |t| <= 19 then t else t[..19]
  }

  /** For `date` `T` `time` followed by fractions and zone, the stamp is `date time`. */
  lemma IsoStamp(date: string, time: string, rest: string)
    requires |date| == 10 && |time| == 8 && 'T' !in date
    ensures Stamp(date + "T" + time + rest) == date + " " + time
  {
    var iso := date + "T" + time + rest;
    assert forall k :: 0 <= k < 10 ==> iso[k] == date[k];
    assert iso[10] == 'T';
    assert IndexOf(iso, 'T') == 10;
    var r := Stamp(iso);
    var want := date + " " + time;
    assert |r| == |want|;
    forall k | 0 <= k < 19 ensures r[k] == want[k] {
      if k > 10 {
        assert iso[k] == time[k - 11] == want[k];
      }
    }
  }

  // ----- Page state -----

  /** Everything the handlers change, as one value. */
  datatype PageState = PageState(
    timestamp: string, errors: map<Field, string>, notice: string, rows: seq<seq<string>>)

  /** All five error slots empty. */
  function NoErrors(): (e: map<Field, string>)
    ensures e.Keys == AllFields
    ensures forall f :: f in e ==> e[f] == ""
  {
    map f | f in AllFields :: ""
  }

  /** The state after the clear button. */
  function Cleared(s: PageState, iso: string): PageState
  {
    s.(timestamp := Stamp(iso), errors := NoErrors())
  }

  /** The state after a submission of the trimmed values `v` with report `r`: `isoBefore`
      is read when the handler starts and `isoAfter` after the form is reset. */
  function Submitted(s: PageState, v: Inputs, r: Report, isoBefore: string, isoAfter: string)
    : PageState
  {
    if Passed(r) then
      PageState(Stamp(isoAfter), Slots(r), SuccessText, s.rows + [Row(Stamp(isoBefore), v)])
    else
      PageState(Stamp(isoBefore), Slots(r), s.notice, s.rows)
  }

  /** Clearing twice at the same instant is clearing once; clearing keeps the table and
      the notice.  Two real presses read the clock twice, so only the timestamp can differ. */
  lemma ClearIdempotent(s: PageState, iso: string)
    ensures Cleared(Cleared(s, iso), iso) == Cleared(s, iso)
    ensures Cleared(s, iso).rows == s.rows && Cleared(s, iso).notice == s.notice
    ensures forall f :: f in Cleared(s, iso).errors <==> f in AllFields
    ensures forall f :: f in Cleared(s, iso).errors ==> Cleared(s, iso).errors[f] == ""
  {
  }

  /** A submission adds exactly one row, after the old ones, iff every field passed;
      otherwise the table and the notice are unchanged. */
  lemma SubmitAppendsIffPassed(s: PageState, v: Inputs, r: Report, isoBefore: string,
                               isoAfter: string)
    ensures var t := Submitted(s, v, r, isoBefore, isoAfter);
      |t.rows| == |s.rows| + (if Passed(r) then 1 else 0) &&
      t.rows[..|s.rows|] == s.rows &&
      (Passed(r) ==> t.rows[|s.rows|] == Row(Stamp(isoBefore), v)) &&
      (!Passed(r) ==> t.notice == s.notice)
  {
    var t := Submitted(s, v, r, isoBefore, isoAfter);
    assert t.rows[..|s.rows|] == s.rows;
  }

  /** After a submission every slot holds its own field's message, and the slots are all
      empty iff every field passed. */
  lemma SubmitSlots(s: PageState, v: Inputs, r: Report, isoBefore: string, isoAfter: string)
    ensures var t := Submitted(s, v, r, isoBefore, isoAfter);
      t.errors.Keys == AllFields &&
      t.errors[FullName] == r.fullName && t.errors[Email] == r.email &&
      t.errors[Phone] == r.phone && t.errors[Birth] == r.birth && t.errors[Terms] == r.terms &&
      (t.errors == NoErrors() <==> Passed(r))
  {
    var t := Submitted(s, v, r, isoBefore, isoAfter);
    if t.errors == NoErrors() {
      assert t.errors[FullName] == "" && t.errors[Email] == "" && t.errors[Phone] == "";
      assert t.errors[Birth] == "" && t.errors[Terms] == "";
    }
    if Passed(r) {
      forall f | f in t.errors ensures t.errors[f] == "" {
      }
    }
  }

  /** The messages of a submission: each field's own validator on its trimmed value. */
  lemma ReportOfInputs(input: Inputs, birthDate: Date, today: Date)
    ensures var r := Validate(Values(input), birthDate, today);
      (r.fullName == "" <==> !NoWhitespace(Trim(input.fullName)) && !HasOneUnitWord(input.fullName)) &&
      (r.email == "" <==> MatchesEmailPattern(Trim(input.email))) &&
      (r.phone == "" <==> InternationalNumber(StripSeparators(Trim(input.phone))) ||
                          DomesticNumber(StripSeparators(Trim(input.phone)))) &&
      (r.birth == "" <==> input.birth != "" && !Before(today, YearsLater(birthDate, MinimumAge))) &&
      (r.terms == "" <==> input.terms)
  {
    var v := Values(input);
    FullNameRules(v.fullName);
    TrimIdempotent(input.fullName);
    TrimOneUnitWord(input.fullName);
    EmailRules(v.email);
    BirthRules(v.birth, birthDate, today);
  }

  /** The row an accepted submission adds holds, in order, the stamp, the four values and
      "Yes"; its name has at least two words of JavaScript length two or more, its email
      matches the pattern, its phone number has 6 to 15 digits and its birth date lies at
      least 13 years back. */
  lemma AcceptedRow(v: Inputs, birthDate: Date, today: Date, stamp: string)
    requires Passed(Validate(v, birthDate, today))
    ensures Row(stamp, v) == [stamp, v.fullName, v.email, v.phone, v.birth, "Yes"]
    ensures |SplitWhitespace(Trim(v.fullName))| >= 2
    ensures forall k :: 0 <= k < |SplitWhitespace(Trim(v.fullName))| ==>
      Utf16Length(SplitWhitespace(Trim(v.fullName))[k]) >= 2
    ensures MatchesEmailPattern(v.email)
    ensures 6 <= DigitCount(v.phone) <= 15
    ensures v.birth != "" && !Before(today, YearsLater(birthDate, MinimumAge))
  {
    AcceptedValues(v.fullName, v.email, v.phone, v.birth, birthDate, today);
  }

  lemma AcceptedValues(name: string, email: string, phone: string, birth: string,
                       birthDate: Date, today: Date)
    requires ValidateFullName(name) == "" && ValidateEmail(email) == ""
    requires ValidatePhone(phone) == "" && ValidateBirth(birth, birthDate, today) == ""
    ensures |SplitWhitespace(Trim(name))| >= 2
    ensures forall k :: 0 <= k < |SplitWhitespace(Trim(name))| ==>
      Utf16Length(SplitWhitespace(Trim(name))[k]) >= 2
    ensures MatchesEmailPattern(email)
    ensures 6 <= DigitCount(phone) <= 15
    ensures birth != "" && !Before(today, YearsLater(birthDate, MinimumAge))
  {
    NameAcceptedWords(name);
    EmailRules(email);
    PhoneAcceptedDigits(phone);
    BirthRules(birth, birthDate, today);
  }

  /** A row with the terms accepted keeps the table well formed. */
  lemma AppendRowWellFormed(rows: seq<seq<string>>, stamp: string, v: Inputs)
    requires RowsWellFormed(rows) && v.terms
    ensures RowsWellFormed(rows + [Row(stamp, v)])
  {
  }

  /** A submission keeps every row of the table well formed. */
  lemma SubmitKeepsRowsWellFormed(s: PageState, v: Inputs, birthDate: Date, today: Date,
                                  isoBefore: string, isoAfter: string)
    requires RowsWellFormed(s.rows)
    ensures RowsWellFormed(Submitted(s, v, Validate(v, birthDate, today), isoBefore, isoAfter).rows)
  {
    if Passed(Validate(v, birthDate, today)) {
      AppendRowWellFormed(s.rows, Stamp(isoBefore), v);
    }
  }

  /** The page: the timestamp box, the five error slots, the success notice and the table. */
  class Page {
    var timestamp: string
    var errors: map<Field, string>
    var notice: string
    var rows: seq<seq<string>>

    predicate Valid()
      reads this
    {
      errors.Keys == AllFields && RowsWellFormed(rows)
    }

    function State(): PageState
      reads this
    {
      PageState(timestamp, errors, notice, rows)
    }

    /** The page as loaded: the timestamp set once, the slots and notice empty, no rows. */
    constructor(iso: string)
      ensures Valid()
      ensures State() == PageState(Stamp(iso), NoErrors(), "", [])
    {
      timestamp := Stamp(iso);
      errors := NoErrors();
      notice := "";
      rows := [];
    }

    /** `setTimestamp`, with `iso` the instant read from the clock. */
    method SetTimestamp(iso: string)
      modifies this
      ensures State() == old(State()).(timestamp := Stamp(iso))
    {
      timestamp := Stamp(iso);
    }

    /** `clearErrors`: every slot is emptied, one by one. */
    method ClearErrors()
      requires Valid()
      modifies this
      ensures Valid()
      ensures State() == old(State()).(errors := NoErrors())
    {
      for i := 0 to |FieldOrder|
        invariant errors.Keys == AllFields
        invariant forall k :: 0 <= k < i ==> errors[FieldOrder[k]] == ""
        invariant timestamp == old(timestamp) && notice == old(notice) && rows == old(rows)
      {
        errors := errors[FieldOrder[i] := ""];
      }
      forall f | f in errors ensures errors[f] == "" {
        FieldsCovered(f);
      }
    }

    /** `showSuccessMessage`: the notice text (its fade is not modelled). */
    method ShowSuccess()
      modifies this
      ensures State() == old(State()).(notice := SuccessText)
    {
      notice := SuccessText;
    }

    /** The loop of the submit handler: every non-empty message of `report` is written to its
      slot, and the answer says whether none was. */
    method ShowErrors(report: Report) returns (valid: bool)
      requires Valid() && errors == NoErrors()
      modifies this
      ensures Valid()
      ensures valid == Passed(report)
      ensures State() == old(State()).(errors := Slots(report))
    {
      valid := true;
      for i := 0 to |FieldOrder|
        invariant errors.Keys == AllFields
        invariant forall k :: 0 <= k < i ==> errors[FieldOrder[k]] == Message(report, FieldOrder[k])
        invariant forall k :: i <= k < |FieldOrder| ==> errors[FieldOrder[k]] == ""
        invariant valid <==> forall k :: 0 <= k < i ==> Message(report, FieldOrder[k]) == ""
        invariant timestamp == old(timestamp) && notice == old(notice) && rows == old(rows)
      {
        var message := Message(report, FieldOrder[i]);
        if message != "" {
          errors := errors[FieldOrder[i] := message];
          valid := false;
        }
      }
      forall f | f in AllFields ensures errors[f] == Message(report, f) {
        FieldsCovered(f);
      }
      assert errors == Slots(report);
      PassedAllMessages(report);
      if valid {
        forall f ensures Message(report, f) == "" {
          FieldsCovered(f);
        }
      }
    }

    /** The submit handler. It answers whether a row was added. */
    method Submit(input: Inputs, birthDate: Date, today: Date, isoBefore: string, isoAfter: string)
      returns (added: bool)
      requires Valid()
      modifies this
      ensures Valid()
      ensures added == Passed(Validate(Values(input), birthDate, today))
      ensures State() == Submitted(old(State()), Values(input),
                                   Validate(Values(input), birthDate, today), isoBefore, isoAfter)
    {
      ClearErrors();
      SetTimestamp(isoBefore);
      var v := Values(input);
      var report := Validate(v, birthDate, today);
      var valid := ShowErrors(report);
      if !valid {
        return false;
      }
      AppendRowWellFormed(rows, timestamp, v);
      rows := rows + [Row(timestamp, v)];
      ShowSuccess();
      SetTimestamp(isoAfter);
      added := true;
    }

    /** The clear-button handler. */
    method Clear(iso: string)
      requires Valid()
      modifies this
      ensures Valid()
      ensures State() == Cleared(old(State()), iso)
    {
      ClearErrors();
      SetTimestamp(iso);
    }
  }

  /** Pressing clear a second time, with the clock reading the same instant, changes
      nothing; at a later instant only the timestamp would differ. */
  method ClearTwice(page: Page, iso: string)
    requires page.Valid()
    modifies page
    ensures page.Valid()
    ensures page.State() == Cleared(old(page.State()), iso)
  {
    page.Clear(iso);
    ghost var once := page.State();
    page.Clear(iso);
    ClearIdempotent(old(page.State()), iso);
    assert page.State() == once;
  }
}
