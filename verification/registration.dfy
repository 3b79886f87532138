/** `validate_data` (form_ggs.py:154-175): the checks run on one submitted
    record before it is stored. The record is a dictionary from column
    names to cells; the phone and email cells are replaced by their cleaned
    forms, and a list of complaints is returned. */
module Registration {
  import opened Values
  import opened CharClasses
  import opened Strings
  import opened Phone
  import opened EmailCells

  type Record = map<string, Cell>

  /** The four complaints, in the order the checks run. */
  datatype Complaint = NameHasDigits | CompanyHasSymbols | PhoneInvalid | EmailInvalid

  /** The text shown to the user for each complaint. */
  function Message(c: Complaint): string {
    match c
    case NameHasDigits => "Tên riêng không thể bao gồm số."
    case CompanyHasSymbols => "Tên công ty đang chứa ký hiệu đặc biệt."
    case PhoneInvalid => "Số điện thoại chưa hợp lệ."
    case EmailInvalid => "Địa chỉ email chưa hợp lệ."
  }

  /** The four texts differ, so the list of texts names the failed checks
      just as the list of complaints does. */
  lemma MessagesDistinct(c1: Complaint, c2: Complaint)
    ensures Message(c1) == Message(c2) <==> c1 == c2
  {
    if c1 != c2 && |Message(c1)| == |Message(c2)| {
      assert {c1, c2} == {PhoneInvalid, EmailInvalid};
      assert Message(PhoneInvalid)[0] != Message(EmailInvalid)[0];
    }
  }

  /** Position of each check in `validate_data`. */
  function Rank(c: Complaint): nat {
    match c
    case NameHasDigits => 0
    case CompanyHasSymbols => 1
    case PhoneInvalid => 2
    case EmailInvalid => 3
  }

  /** Either the list of complaints and the updated record, or the column
      whose non-text value made a string operation raise. */
  datatype Verdict = Checked(errors: seq<Complaint>, record: Record) | Raised(field: string)

  /** A member of the name pattern's class: `\w`, `\s` or one of the listed
      Vietnamese capitals. */
  predicate IsNameChar(c: char) {
    IsWordChar(c) || IsSpace(c) || IsVietUpper(c)
  }

  /** `re.match` of `^[...]+$`: a non-empty run of class characters from the
      start, followed by the end of the text or by a final newline. The
      pattern accepts exactly the non-empty texts made of class characters;
      the allowance for a final newline adds nothing, since a newline is in
      the class. */
  predicate NameMatches(name: string)
    ensures NameMatches(name) <==> |name| > 0 && forall i :: 0 <= i < |name| ==> IsNameChar(name[i])
  {
    NameRun(name);
    var e := Span(name, 0, IsNameChar);
    e > 0 && (e == |name| || (e == |name| - 1 && name[e] == '\n'))
  }

  /** Where the run of class characters stops short of the end, it stops
      at a character outside the class, so not at a newline. */
  lemma NameRun(name: string)
    ensures var e := Span(name, 0, IsNameChar);
      e < |name| ==> !IsNameChar(name[e]) && name[e] != '\n'
  {
    assert IsSpace('\n');
  }

  /** `company.replace(" ", "").isalnum()`: without its spaces the name is
      non-empty and alphanumeric. Stated on the name itself: some character
      is not a space, and every character that is not a space is a letter
      or a digit. */
  predicate CompanyOk(company: string)
    ensures CompanyOk(company) <==>
      && (exists i :: 0 <= i < |company| && company[i] != ' ')
      && (forall i :: 0 <= i < |company| && company[i] != ' ' ==> IsAlnum(company[i]))
  {
    BlanksRemoved(company);
    var r := ReplaceAll(company, " ", "");
    |r| > 0 && forall i :: 0 <= i < |r| ==> IsAlnum(r[i])
  }

  /** Removing the spaces of a company name keeps its other characters. */
  lemma WithoutSpaces(company: string)
    ensures ReplaceAll(company, " ", "") == Remove(company, IsBlank)
  {
    assert " " == [' '];
    DeleteChar(company, ' ', IsBlank);
  }

  /** With its spaces gone, a name is non-empty exactly when it held a
      non-space, and alphanumeric exactly when its non-spaces were. */
  lemma BlanksRemoved(company: string)
    ensures var r := ReplaceAll(company, " ", "");
      && (|r| > 0 <==> exists i :: 0 <= i < |company| && company[i] != ' ')
      && ((forall i :: 0 <= i < |r| ==> IsAlnum(r[i])) <==>
          (forall i :: 0 <= i < |company| && company[i] != ' ' ==> IsAlnum(company[i])))
  {
    WithoutSpaces(company);
    var r := Remove(company, IsBlank);
    RemoveChars(company, IsBlank);
    RemoveKeeps(company, IsBlank);
    if exists i :: 0 <= i < |company| && company[i] != ' ' {
      var i :| 0 <= i < |company| && company[i] != ' ';
      assert company[i] in r;
    }
    if |r| > 0 {
      assert r[0] in company;
    }
    if forall i :: 0 <= i < |r| ==> IsAlnum(r[i]) {
      forall i | 0 <= i < |company| && company[i] != ' '
        ensures IsAlnum(company[i])
      {
        assert company[i] in r;
      }
    }
  }

  /** The cleaned phone has ten or eleven digits, whatever else it holds;
      for text that is all digits, that is its length. */
  predicate PhoneOk(cleaned: string)
    ensures PhoneOk(cleaned) ==> |cleaned| >= 10
    ensures (forall i :: 0 <= i < |cleaned| ==> IsDigit(cleaned[i])) ==>
      (PhoneOk(cleaned) <==> |cleaned| == 10 || |cleaned| == 11)
  {
    assert (forall i :: 0 <= i < |cleaned| ==> IsDigit(cleaned[i])) ==> KeepDigits(cleaned) == cleaned by {
      if forall i :: 0 <= i < |cleaned| ==> IsDigit(cleaned[i]) {
        KeepAllDigits(cleaned);
      }
    }
    |KeepDigits(cleaned)| == 10 || |KeepDigits(cleaned)| == 11
  }

  /** A string operation raises on a non-text name, company or phone:
      `re.match`, `.replace` and `re.sub` each expect text. */
  predicate Raises(data: Record) {
    || ("name" in data && data["name"].NotText?)
    || ("company" in data && data["company"].NotText?)
    || ("phoneNo" in data && data["phoneNo"].NotText?)
  }

  /** What `clean_emails` leaves in the email column: the joined text, or
      `None` for a non-text cell. */
  function EmailCell(cleaned: Option<string>): (c: Cell)
    ensures c.Text? <==> cleaned.Some?
    ensures c.Text? ==> c.text == cleaned.value
  {
    match cleaned
    case Some(s) => Text(s)
    case None => NotText
  }

  /** The complaints of the checks that failed, each once, in the order
      the checks run. */
  function Complaints(nameBad: bool, companyBad: bool, phoneBad: bool, emailBad: bool): (r: seq<Complaint>)
    ensures NameHasDigits in r <==> nameBad
    ensures CompanyHasSymbols in r <==> companyBad
    ensures PhoneInvalid in r <==> phoneBad
    ensures EmailInvalid in r <==> emailBad
    ensures forall i, j :: 0 <= i < j < |r| ==> Rank(r[i]) < Rank(r[j])
  {
    (if nameBad then [NameHasDigits] else [])
    + (if companyBad then [CompanyHasSymbols] else [])
    + (if phoneBad then [PhoneInvalid] else [])
    + (if emailBad then [EmailInvalid] else [])
  }

  /** The record after the phone and email columns, where present, are
      replaced by their cleaned forms; every other column is untouched. */
  function Cleaned(data: Record): (r: Record)
    requires "phoneNo" in data ==> data["phoneNo"].Text?
    ensures r.Keys == data.Keys
    ensures forall k :: k in data && k != "phoneNo" && k != "email" ==> r[k] == data[k]
    ensures "phoneNo" in data ==> r["phoneNo"] == Text(CleanPhone(data["phoneNo"].text))
    ensures "email" in data ==> r["email"] == EmailCell(CleanEmails(data["email"]).0)
  {
    var phone := if "phoneNo" in data then Text(CleanPhone(data["phoneNo"].text)) else NotText;
    var email := if "email" in data then EmailCell(CleanEmails(data["email"]).0) else NotText;
    Overwrite(data, phone, email)
  }

  /** The phone and email columns, where present, take the given cells. */
  function Overwrite(data: Record, phone: Cell, email: Cell): (r: Record)
    ensures r.Keys == data.Keys
    ensures forall k :: k in data && k != "phoneNo" && k != "email" ==> r[k] == data[k]
    ensures "phoneNo" in data ==> r["phoneNo"] == phone
    ensures "email" in data ==> r["email"] == email
  {
    ColumnsDistinct();
    var afterPhone := if "phoneNo" in data then data["phoneNo" := phone] else data;
    if "email" in data then afterPhone["email" := email] else afterPhone
  }

  /** The failures of the four checks; each needs its column to be text. */
  predicate NameBad(data: Record)
    requires !Raises(data)
  {
    "name" in data && !NameMatches(data["name"].text)
  }

  predicate CompanyBad(data: Record)
    requires !Raises(data)
  {
    "company" in data && !CompanyOk(data["company"].text)
  }

  predicate PhoneBad(data: Record)
    requires !Raises(data)
  {
    "phoneNo" in data && !PhoneOk(CleanPhone(data["phoneNo"].text))
  }

  predicate EmailBad(data: Record) {
    "email" in data && !CleanEmails(data["email"]).1
  }

  /** Lines 154-175: a non-text name, company or phone raises before
      anything is returned; otherwise each check adds its complaint when it
      fails, and the phone and email columns are rewritten. */
  function Validate(data: Record): (v: Verdict)
    ensures v.Raised? <==> Raises(data)
    ensures v.Raised? ==> v.field == (if "name" in data && data["name"].NotText? then "name"
                                      else if "company" in data && data["company"].NotText? then "company"
                                      else "phoneNo")
  {
    if "name" in data && data["name"].NotText? then Raised("name")
    else if "company" in data && data["company"].NotText? then Raised("company")
    else if "phoneNo" in data && data["phoneNo"].NotText? then Raised("phoneNo")
    else
      Checked(Complaints(NameBad(data), CompanyBad(data), PhoneBad(data), EmailBad(data)), Cleaned(data))
  }

  /** Each complaint is made exactly when its check fails, and at most
      once, in the order name, company, phone, email. */
  lemma ValidateComplaints(data: Record)
    ensures var v := Validate(data);
      v.Checked? ==>
      && (NameHasDigits in v.errors <==> "name" in data && !NameMatches(data["name"].text))
      && (CompanyHasSymbols in v.errors <==> "company" in data && !CompanyOk(data["company"].text))
      && (PhoneInvalid in v.errors <==> "phoneNo" in data && !PhoneOk(CleanPhone(data["phoneNo"].text)))
      && (EmailInvalid in v.errors <==> "email" in data && !CleanEmails(data["email"]).1)
      && (forall i, j :: 0 <= i < j < |v.errors| ==> Rank(v.errors[i]) < Rank(v.errors[j]))
  {
    if !Raises(data) {
      ValidateErrors(data);
      NameComplaint(data);
      CompanyComplaint(data);
      PhoneComplaint(data);
      EmailComplaint(data);
    }
  }

  lemma NameComplaint(data: Record)
    requires !Raises(data)
    ensures NameHasDigits in Validate(data).errors <==> "name" in data && !NameMatches(data["name"].text)
  {
    ValidateErrors(data);
  }

  lemma CompanyComplaint(data: Record)
    requires !Raises(data)
    ensures CompanyHasSymbols in Validate(data).errors <==> "company" in data && !CompanyOk(data["company"].text)
  {
    ValidateErrors(data);
  }

  lemma PhoneComplaint(data: Record)
    requires !Raises(data)
    ensures PhoneInvalid in Validate(data).errors <==> "phoneNo" in data && !PhoneOk(CleanPhone(data["phoneNo"].text))
  {
    ValidateErrors(data);
  }

  lemma EmailComplaint(data: Record)
    requires !Raises(data)
    ensures EmailInvalid in Validate(data).errors <==> "email" in data && !CleanEmails(data["email"]).1
  {
    ValidateErrors(data);
  }

  /** Past the raising checks, the verdict is the complaints of the failed
      checks and the cleaned record. */
  lemma ValidateErrors(data: Record)
    requires !Raises(data)
    ensures Validate(data) == Checked(Complaints(NameBad(data), CompanyBad(data), PhoneBad(data), EmailBad(data)), Cleaned(data))
  {
  }

  /** The record keeps its columns; only the phone and email columns
      change, to their cleaned forms. */
  lemma ValidateRecord(data: Record)
    ensures var v := Validate(data);
      v.Checked? ==>
      && v.record.Keys == data.Keys
      && (forall k :: k in data && k != "phoneNo" && k != "email" ==> v.record[k] == data[k])
      && ("phoneNo" in data ==> v.record["phoneNo"] == Text(CleanPhone(data["phoneNo"].text)))
      && ("email" in data ==> v.record["email"] == EmailCell(CleanEmails(data["email"]).0))
  {
    if !Raises(data) {
      assert Validate(data).record == Cleaned(data);
    }
  }

  /** The four column names are different texts. */
  lemma ColumnsDistinct()
    ensures "name" != "company" && "name" != "phoneNo" && "name" != "email"
    ensures "company" != "phoneNo" && "company" != "email" && "phoneNo" != "email"
  {
  }
}
