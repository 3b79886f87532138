/** What the checks of `validate_data` (form_ggs.py:154-175) accept and
    reject. */
module RegistrationProps {
  import opened Values
  import opened CharClasses
  import opened Strings
  import opened Phone
  import opened PhoneExamples
  import opened EmailCells
  import opened Registration

  /** The name check lets digits through, although its complaint says a
      name may not contain them: `\w` includes the digits. */
  lemma DigitsPassNameCheck(name: string)
    requires |name| > 0 && forall i :: 0 <= i < |name| ==> IsAlnum(name[i]) || name[i] == ' '
    ensures NameMatches(name)
  {
    assert IsSpace(' ');
  }

  /** A Vietnamese name ending in a digit passes. */
  lemma NameWithDigit(name: string)
    requires name == "Nguyễn Văn A1"
    ensures NameMatches(name) && IsDigit(name[|name| - 1])
  {
    DigitsPassNameCheck(name);
  }

  /** A blank company name is flagged: nothing is left once its spaces
      go. */
  lemma BlankCompany(company: string)
    requires forall i :: 0 <= i < |company| ==> company[i] == ' '
    ensures !CompanyOk(company)
  {
  }

  /** `a - b` keeps the digits of `a` and then of `b`. */
  lemma JoinedDigits(a: string, b: string)
    requires forall i :: 0 <= i < |a| ==> IsDigit(a[i])
    requires forall i :: 0 <= i < |b| ==> IsDigit(b[i])
    ensures KeepDigits(a + " - " + b) == a + b
  {
    assert a + " - " + b == a + (" " + ("-" + (" " + b)));
    KeepDigitsSpace(a, "-" + (" " + b));
    RemoveAppend("-", " " + b, IsNonDigit);
    assert Remove("-", IsNonDigit) == "" by { assert "-"[1..] == ""; }
    KeepDigitsSpace("", b);
    assert "" + (" " + b) == " " + b;
    KeepAllDigits(b);
  }

  /** Two grouped numbers have at least twenty digits, too many for the
      phone check. */
  lemma TwoGroupsRejected(d1: string, d2: string)
    requires |d1| == 10 || |d1| == 11
    requires |d2| == 10 || |d2| == 11
    requires forall i :: 0 <= i < |d1| ==> IsDigit(d1[i])
    requires forall i :: 0 <= i < |d2| ==> IsDigit(d2[i])
    ensures !PhoneOk(Group(d1) + " - " + Group(d2))
  {
    GroupShape(d1);
    GroupShape(d2);
    var g1, g2 := Group(d1), Group(d2);
    assert g1 + " - " + g2 == g1 + (" - " + g2);
    RemoveAppend(g1, " - " + g2, IsNonDigit);
    RemoveAppend(" - ", g2, IsNonDigit);
    SeparatorNoDigits(" - ");
  }

  lemma SeparatorNoDigits(sep: string)
    requires sep == " - "
    ensures KeepDigits(sep) == ""
  {
    assert forall i :: 0 <= i < |sep| ==> IsNonDigit(sep[i]);
    RemoveEvery(sep, IsNonDigit);
  }

  /** A field with two local numbers separated by `/` is cleaned into two
      groups and then rejected, and the cleaned text is stored. */
  lemma TwoLocalNumbersRejected(data: Record, a: string, b: string)
    requires IsLocalTen(a) && IsLocalTen(b)
    requires "phoneNo" in data && data["phoneNo"] == Text(a + "/" + b)
    ensures Validate(data).Checked? ==>
      && PhoneInvalid in Validate(data).errors
      && Validate(data).record["phoneNo"] == Text(Group(a) + " - " + Group(b))
  {
    TwoLocal(a, b);
    TwoGroupsRejected(a, b);
  }

  /** A single local number is grouped and accepted. */
  lemma LocalNumberAccepted(data: Record, a: string)
    requires IsLocalTen(a)
    requires "phoneNo" in data && data["phoneNo"] == Text(a)
    ensures Validate(data).Checked? ==>
      && PhoneInvalid !in Validate(data).errors
      && Validate(data).record["phoneNo"] == Text(Group(a))
  {
    LocalTen(a);
    GroupShape(a);
  }

  /** Two short numbers separated by `/` stay apart, yet their digits
      together number ten or eleven, so the phone check accepts them. */
  lemma ShortPairAccepted(data: Record, a: string, b: string)
    requires 1 <= |a| <= 8 && a[0] != '8' && forall i :: 0 <= i < |a| ==> IsDigit(a[i])
    requires 1 <= |b| <= 8 && b[0] != '8' && forall i :: 0 <= i < |b| ==> IsDigit(b[i])
    requires |a| + |b| == 10 || |a| + |b| == 11
    requires "phoneNo" in data && data["phoneNo"] == Text(a + "/" + b)
    ensures Validate(data).Checked? ==>
      && PhoneInvalid !in Validate(data).errors
      && Validate(data).record["phoneNo"] == Text(a + " - " + b)
  {
    ShortPair(a, b);
    JoinedDigits(a, b);
  }

  /** Two short numbers are each left as they are and joined. */
  lemma ShortPair(a: string, b: string)
    requires 1 <= |a| <= 8 && a[0] != '8' && forall i :: 0 <= i < |a| ==> IsDigit(a[i])
    requires 1 <= |b| <= 8 && b[0] != '8' && forall i :: 0 <= i < |b| ==> IsDigit(b[i])
    ensures CleanPhone(a + "/" + b) == a + " - " + b
  {
    var p := a + "/" + b;
    PrepareSlash(a, b);
    CleanPhoneSeveral(p);
    CleanEachPair(a, b, |p|);
    ShortNumber(a);
    ShortNumber(b);
  }

  /** A blank email cell is cleaned to the empty text and not flagged. */
  lemma BlankEmailAccepted(data: Record)
    requires "email" in data && data["email"].Text?
    requires forall k :: 0 <= k < |data["email"].text| ==> IsSpace(data["email"].text[k])
    ensures Validate(data).Checked? ==>
      && EmailInvalid !in Validate(data).errors
      && Validate(data).record["email"] == Text("")
  {
    BlankCell(data["email"].text);
    ValidateComplaints(data);
    ValidateRecord(data);
  }
}
