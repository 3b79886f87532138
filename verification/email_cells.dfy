/** `validate_email` and `clean_emails` (form_ggs.py:131-151): the email
    column of a record may hold several addresses joined by `' - '`. */
module EmailCells {
  import opened Values
  import opened CharClasses
  import opened Strings
  import opened EmailPattern
  import opened Email

  /** Some prefix of `s` matches `email_pattern`: what `re.match` asks. */
  ghost predicate StartsWithAddress(s: string) {
    exists j :: 0 <= j <= |s| && IsAddress(s[0..j])
  }

  /** `re.match(email_pattern, s)` succeeds: exactly when some prefix of
      `s` is an address. */
  predicate Matches(s: string)
    ensures Matches(s) <==> StartsWithAddress(s)
  {
    MatchAtIff(s, 0);
    MatchAt(s, 0).Some?
  }

  /** `validate_email(email)`: a missing or non-text value is `(None,
      False)`; text is cleaned and the flag says whether the cleaned text
      begins with an address. */
  function ValidateEmail(email: Cell): (r: (Option<string>, bool))
    ensures email.NotText? <==> r.0.None?
    ensures email.NotText? ==> !r.1
    ensures email.Text? ==> r.0 == Some(FixTypos(email.text))
    ensures r.1 <==> r.0.Some? && StartsWithAddress(r.0.value)
  {
    match email
    case NotText => (None, false)
    case Text(s) =>
      var c := FixTypos(s);
      (Some(c), Matches(c))
  }

  /** `[e.strip() for e in parts if e.strip()]`: the stripped parts that
      are not blank, in order. */
  function Entries(parts: seq<string>): (es: seq<string>)
    ensures |es| <= |parts|
    ensures forall i :: 0 <= i < |es| ==> IsEntry(es[i])
  {
    if |parts| == 0 then []
    else
      var e := Strip(parts[0], IsSpace);
      var rest := Entries(parts[1..]);
      if e == "" then rest
      else
        assert IsEntry(e);
        assert forall i :: 1 <= i < |rest| + 1 ==> ([e] + rest)[i] == rest[i - 1];
        [e] + rest
  }

  /** A kept entry: non-empty, with no whitespace at either end. */
  predicate IsEntry(e: string) {
    |e| > 0 && !IsSpace(e[0]) && !IsSpace(e[|e| - 1])
  }

  /** Parts that are already stripped and non-blank are all kept. */
  lemma {:induction false} EntriesKeep(parts: seq<string>)
    requires forall i :: 0 <= i < |parts| ==> |parts[i]| > 0 && forall k :: 0 <= k < |parts[i]| ==> !IsSpace(parts[i][k])
    ensures Entries(parts) == parts
  {
    if |parts| > 0 {
      EntriesKeep(parts[1..]);
      assert parts == [parts[0]] + parts[1..];
    }
  }

  /** Parts made only of whitespace all drop out. */
  lemma {:induction false} EntriesBlank(parts: seq<string>)
    requires forall i, k :: 0 <= i < |parts| && 0 <= k < |parts[i]| ==> IsSpace(parts[i][k])
    ensures Entries(parts) == []
  {
    if |parts| > 0 {
      assert All(parts[0], IsSpace);
      EntriesBlank(parts[1..]);
    }
  }

  /** A part padded with whitespace is kept with the padding gone. */
  lemma EntriesPadded(u: string, x: string, v: string)
    requires All(u, IsSpace) && All(v, IsSpace)
    requires |x| > 0 && !IsSpace(x[0]) && !IsSpace(x[|x| - 1])
    ensures Entries([u + x + v]) == [x]
  {
    StripPadded(u, x, v, IsSpace);
    assert [u + x + v][1..] == [];
  }

  /** Each part is kept or dropped on its own, so the entries of two runs
      of parts are the entries of the first, then those of the second. */
  lemma {:induction false} EntriesAppend(a: seq<string>, b: seq<string>)
    ensures Entries(a + b) == Entries(a) + Entries(b)
  {
    if |a| > 0 {
      assert (a + b)[0] == a[0];
      assert (a + b)[1..] == a[1..] + b;
      EntriesAppend(a[1..], b);
    } else {
      assert a + b == b;
    }
  }

  /** `[f(x) for x in xs]`. */
  function MapAll(xs: seq<string>, f: string -> string): (r: seq<string>)
    ensures |r| == |xs|
    ensures forall i :: 0 <= i < |xs| ==> r[i] == f(xs[i])
  {
    if |xs| == 0 then [] else [f(xs[0])] + MapAll(xs[1..], f)
  }

  /** The loop of `clean_emails`: every entry cleaned, in order. */
  function CleanAll(es: seq<string>): (cleaned: seq<string>)
    ensures |cleaned| == |es|
    ensures forall i :: 0 <= i < |es| ==> cleaned[i] == FixTypos(es[i])
  {
    MapAll(es, FixTypos)
  }

  /** The flag of the loop: it stays true only while every cleaned entry
      matches. */
  predicate AllMatch(cleaned: seq<string>) {
    forall i :: 0 <= i < |cleaned| ==> Matches(cleaned[i])
  }

  /** The flag is the conjunction of the flags `validate_email` gives each
      entry, and the list holds what it gives each entry. */
  lemma CleanAllIff(es: seq<string>)
    ensures AllMatch(CleanAll(es)) <==> forall i :: 0 <= i < |es| ==> ValidateEmail(Text(es[i])).1
    ensures forall i :: 0 <= i < |es| ==> Some(CleanAll(es)[i]) == ValidateEmail(Text(es[i])).0
  {
    var cs := CleanAll(es);
    forall i | 0 <= i < |es|
      ensures ValidateEmail(Text(es[i])) == (Some(cs[i]), Matches(cs[i]))
    {
    }
  }

  /** `clean_emails(cell)`: text is split on `' - '`, each non-blank part
      is cleaned, and the cleaned parts are joined again; the flag holds
      when every part is valid. Anything else is `(None, False)`. */
  function CleanEmails(cell: Cell): (r: (Option<string>, bool))
    ensures cell.NotText? <==> r.0.None?
    ensures cell.NotText? ==> !r.1
    ensures cell.Text? ==>
      var es := Entries(Split(cell.text, " - "));
      && r.0 == Some(Join(CleanAll(es), " - "))
      && (r.1 <==> forall i :: 0 <= i < |es| ==> ValidateEmail(Text(es[i])).1)
  {
    match cell
    case NotText => (None, false)
    case Text(s) =>
      var es := Entries(Split(s, " - "));
      CleanAllIff(es);
      var cleaned := CleanAll(es);
      (Some(Join(cleaned, " - ")), AllMatch(cleaned))
  }

  /** A blank cell cleans to the empty string and counts as valid: there
      is no address in it to fail. */
  lemma BlankCell(s: string)
    requires forall k :: 0 <= k < |s| ==> IsSpace(s[k])
    ensures CleanEmails(Text(s)) == (Some(""), true)
  {
    var parts := Split(s, " - ");
    SplitPieces(s, " - ");
    forall i, k | 0 <= i < |parts| && 0 <= k < |parts[i]|
      ensures IsSpace(parts[i][k])
    {
      var n :| 0 <= n < |s| && s[n] == parts[i][k];
    }
    EntriesBlank(parts);
  }

  /** Addresses with no whitespace, joined by `' - '`, come back one
      cleaned address per address, and the cell is valid exactly when each
      address is. */
  lemma JoinedCell(xs: seq<string>)
    requires |xs| > 0
    requires forall i :: 0 <= i < |xs| ==> |xs[i]| > 0 && forall k :: 0 <= k < |xs[i]| ==> !IsSpace(xs[i][k])
    ensures CleanEmails(Text(Join(xs, " - "))).0 == Some(Join(CleanAll(xs), " - "))
    ensures CleanEmails(Text(Join(xs, " - "))).1 <==> forall i :: 0 <= i < |xs| ==> ValidateEmail(Text(xs[i])).1
  {
    assert forall i :: 0 <= i < |xs| ==> " - "[0] !in xs[i];
    SplitJoin(xs, " - ");
    EntriesKeep(xs);
    CleanAllIff(xs);
  }
}
