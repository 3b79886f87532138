/** `clean_phone_numbers` (form_ggs.py:51-76): canonicalises a phone field to
    groups of `dddd ddd ddd[d]`, several numbers joined by `" - "`. */
module Phone {
  import opened Values
  import opened CharClasses
  import opened Strings

  /** The pattern of line 54 under `re.match`: its `( - ...)*` tail may
      match nothing, so only a leading `dddd ddd ddd` is required. That is,
      the first twelve characters are the grouped form of ten digits. */
  predicate IsCanonicalStart(s: string)
    ensures IsCanonicalStart(s) <==>
      |s| >= 12 && var d := s[..4] + s[5..8] + s[9..12]; All(d, IsDigit) && s[..12] == Group(d)
  {
    if |s| < 12 then false
    else
      CanonicalGrouped(s);
      && IsDigit(s[0]) && IsDigit(s[1]) && IsDigit(s[2]) && IsDigit(s[3])
      && s[4] == ' '
      && IsDigit(s[5]) && IsDigit(s[6]) && IsDigit(s[7])
      && s[8] == ' '
      && IsDigit(s[9]) && IsDigit(s[10]) && IsDigit(s[11])
  }

  /** Twelve characters are the grouped form of the ten outside positions
      4 and 8 exactly when those two positions hold spaces. */
  lemma CanonicalGrouped(s: string)
    requires |s| >= 12
    ensures var d := s[..4] + s[5..8] + s[9..12];
      && (All(d, IsDigit) <==> forall i :: 0 <= i < 12 && i != 4 && i != 8 ==> IsDigit(s[i]))
      && (s[..12] == Group(d) <==> s[4] == ' ' && s[8] == ' ')
  {
    var d := s[..4] + s[5..8] + s[9..12];
    GroupTen(d, s[..4], s[5..8], s[9..12]);
    var g := s[..4] + " " + s[5..8] + " " + s[9..12];
    assert forall i :: 0 <= i < 12 && i != 4 && i != 8 ==> g[i] == s[i];
    assert g[4] == ' ' && g[8] == ' ';
    assert forall i :: 0 <= i < 10 ==> d[i] == s[if i < 4 then i else if i < 7 then i + 1 else i + 2];
  }

  /** The class `[.\s()]` that line 57 deletes. */
  predicate IsPhoneJunk(c: char) {
    c == '.' || IsSpace(c) || c == '(' || c == ')'
  }

  /** `\D`. */
  predicate IsNonDigit(c: char) {
    !IsDigit(c)
  }

  /** No separator or bracket is left: what lines 56-57 guarantee. */
  predicate IsStripped(s: string) {
    forall i :: 0 <= i < |s| ==> !IsPhoneJunk(s[i]) && s[i] != '|'
  }

  /** Stripped apart from plain spaces, which grouping and joining add. */
  predicate IsTidy(s: string) {
    forall i :: 0 <= i < |s| ==> s[i] == ' ' || (!IsPhoneJunk(s[i]) && s[i] != '|')
  }

  /** Lines 58-61: a leading `+84` or `84` becomes the trunk prefix `0`. */
  function StripCountryCode(s: string): (r: string)
    ensures |r| <= |s|
    ensures StartsWith(s, "+84") || StartsWith(s, "84") ==> StartsWith(r, "0")
    ensures StartsWith(s, "+84") ==> |r| == |s| - 2 && r[1..] == s[3..]
    ensures StartsWith(s, "84") ==> |r| == |s| - 1 && r[1..] == s[2..]
    ensures !StartsWith(s, "+84") && !StartsWith(s, "84") ==> r == s
  {
    if StartsWith(s, "+84") then
      assert !StartsWith(s, "84") by { assert s[..2][0] == s[..3][0]; }
      "0" + s[3..]
    else if StartsWith(s, "84") then "0" + s[2..]
    else s
  }

  /** Lines 56-61: `|` turned into `-`, separators and brackets deleted,
      country code replaced. */
  function Prepare(phone: string): (s: string)
    ensures |s| <= |phone|
    ensures IsStripped(s)
  {
    var dashed := ReplaceAll(phone, "|", "-");
    ReplaceAllLength(phone, "|", "-");
    var bare := Remove(dashed, IsPhoneJunk);
    ReplaceAllChars(phone, "|", "-");
    RemoveChars(dashed, IsPhoneJunk);
    assert IsStripped(bare) by {
      forall i | 0 <= i < |bare|
        ensures bare[i] != '|'
      {
        assert bare[i] in dashed;
      }
    }
    StripCountryCode(bare)
  }

  /** Line 64's argument: one `/`-separated piece, trimmed, dashes deleted.
      Every other character of the trimmed piece is kept, in order. */
  function CleanPart(part: string): (r: string)
    ensures |r| <= |part|
    ensures '-' !in r
    ensures IsStripped(part) ==> IsStripped(r)
    ensures r == Remove(Strip(part, IsSpace), IsDash)
  {
    var trimmed := Strip(part, IsSpace);
    assert "-" == ['-'];
    DeleteChar(trimmed, '-', IsDash);
    ReplaceAllLength(trimmed, "-", "");
    ReplaceAllChars(trimmed, "-", "");
    var r := ReplaceAll(trimmed, "-", "");
    assert IsStripped(part) ==> IsStripped(r) by {
      if IsStripped(part) {
        forall i | 0 <= i < |r|
          ensures !IsPhoneJunk(r[i]) && r[i] != '|'
        {
          assert r[i] in trimmed;
          var j :| 0 <= j < |trimmed| && trimmed[j] == r[i];
          assert trimmed[j] in part;
        }
      }
    }
    r
  }

  /** Line 67: the leading run of digits. */
  function LeadingDigits(s: string): (run: string)
    ensures StartsWith(s, run)
    ensures forall i :: 0 <= i < |run| ==> IsDigit(run[i])
    ensures |run| == |s| || !IsDigit(s[|run|])
  {
    s[..Span(s, 0, IsDigit)]
  }

  /** Lines 70-71: the run with the trunk prefix `0` in front. */
  function WithTrunkZero(run: string): (d: string)
    requires |run| > 0
    ensures |d| > 0 && d[0] == '0'
    ensures d == run || d == "0" + run
    ensures d == run <==> run[0] == '0'
  {
    if run[0] == '0' then run else "0" + run
  }

  /** The grouped form of ten digits, split `4 3 3`. */
  lemma GroupTen(d: string, x: string, y: string, z: string)
    requires |x| == 4 && |y| == 3 && |z| == 3 && d == x + y + z
    ensures Group(d) == x + " " + y + " " + z
  {
    assert d[..4] == x && d[4..7] == y && d[7..] == z;
  }

  /** Lines 72-75: `dddd ddd ddd[d]`. */
  function Group(d: string): string
    requires |d| >= 7
  {
    d[..4] + " " + d[4..7] + " " + d[7..]
  }

  /** True when the leading run, once it has its `0`, can be grouped. */
  predicate Groupable(t: string) {
    var run := LeadingDigits(t);
    |run| > 0 && (|WithTrunkZero(run)| == 10 || |WithTrunkZero(run)| == 11)
  }

  /** `re.sub(r'\D', '', s)`: the digits of `s`, in order. */
  function KeepDigits(s: string): (r: string)
    ensures forall i :: 0 <= i < |r| ==> IsDigit(r[i])
  {
    Remove(s, IsNonDigit)
  }

  /** Lines 51-76. A field that already starts `dddd ddd ddd` is kept as
      is; otherwise it is prepared, split at `/` into numbers cleaned one
      by one, or, for a single number, its leading digits are grouped. */
  function CleanPhone(phone: string): (r: string)
    ensures IsCanonicalStart(phone) ==> r == phone
    ensures IsCanonicalStart(phone) || IsTidy(r)
    decreases |phone|, 1, 0
  {
    if IsCanonicalStart(phone) then phone
    else
      var s := Prepare(phone);
      if Contains(s, "/") then
        var parts := Split(s, "/");
        SplitPieces(s, "/");
        assert AllStripped(parts) by {
          forall i | 0 <= i < |parts|
            ensures IsStripped(parts[i])
          {
            StrippedSubset(parts[i], s);
          }
        }
        var groups := CleanEach(parts, |phone|);
        JoinTidy(groups);
        Join(groups, " - ")
      else
        var t := ReplaceAll(s, "-", "");
        if Groupable(t) then
          var d := WithTrunkZero(LeadingDigits(t));
          GroupShape(d);
          Group(d)
        else
          ReplaceAllChars(s, "-", "");
          StrippedSubset(t, s);
          StrippedIsTidy(t);
          t
  }

  /** Line 64: each `/`-separated piece, trimmed, without dashes, and
      cleaned again; `bound` exceeds every piece's length. */
  function CleanEach(parts: seq<string>, bound: nat): (groups: seq<string>)
    requires forall i :: 0 <= i < |parts| ==> |parts[i]| < bound
    ensures |groups| == |parts|
    ensures forall i :: 0 <= i < |parts| ==> groups[i] == CleanPhone(CleanPart(parts[i]))
    ensures AllStripped(parts) ==> AllTidy(groups)
    decreases bound, 0
  {
    seq(|parts|, i requires 0 <= i < |parts| => CleanPhone(CleanPart(parts[i])))
  }

  predicate AllStripped(parts: seq<string>) {
    forall i :: 0 <= i < |parts| ==> IsStripped(parts[i])
  }

  predicate AllTidy(groups: seq<string>) {
    forall i :: 0 <= i < |groups| ==> IsTidy(groups[i])
  }

  /** A string whose characters all come from a stripped string is stripped. */
  lemma StrippedSubset(r: string, s: string)
    requires IsStripped(s)
    requires forall i :: 0 <= i < |r| ==> r[i] in s
    ensures IsStripped(r)
  {
  }

  lemma StrippedIsTidy(s: string)
    ensures IsStripped(s) ==> IsTidy(s)
  {
  }

  /** Numbers joined by `" - "` stay tidy. */
  lemma {:induction false} JoinTidy(groups: seq<string>)
    requires AllTidy(groups)
    ensures IsTidy(Join(groups, " - "))
    decreases |groups|
  {
    if |groups| > 1 {
      JoinTidy(groups[1..]);
      var rest := Join(groups[1..], " - ");
      assert Join(groups, " - ") == groups[0] + " - " + rest;
      assert IsTidy(groups[0]);
    }
  }

  /** The grouped form of a 10- or 11-digit number: it passes line 54's
      check, has two more characters than digits, and keeps exactly the
      digits it was built from. */
  lemma GroupShape(d: string)
    requires |d| == 10 || |d| == 11
    requires forall i :: 0 <= i < |d| ==> IsDigit(d[i])
    ensures IsCanonicalStart(Group(d))
    ensures |Group(d)| == |d| + 2
    ensures KeepDigits(Group(d)) == d
    ensures IsTidy(Group(d))
    ensures forall i :: 0 <= i < |Group(d)| ==> IsDigit(Group(d)[i]) || Group(d)[i] == ' '
  {
    GroupDigits(d);
    GroupChars(d);
    DigitsAndSpacesTidy(Group(d));
  }

  /** Group characters sit where line 54's pattern wants them. */
  lemma GroupChars(d: string)
    requires |d| >= 8
    requires forall i :: 0 <= i < |d| ==> IsDigit(d[i])
    ensures |Group(d)| == |d| + 2
    ensures forall i :: 0 <= i < |Group(d)| ==>
      if i == 4 || i == 8 then Group(d)[i] == ' ' else IsDigit(Group(d)[i])
  {
    var g := Group(d);
    forall i | 0 <= i < |g|
      ensures if i == 4 || i == 8 then g[i] == ' ' else IsDigit(g[i])
    {
      if i < 4 {
        assert g[i] == d[i];
      } else if 4 < i < 8 {
        assert g[i] == d[i - 1];
      } else if 8 < i {
        assert g[i] == d[i - 2];
      }
    }
  }

  lemma DigitsAndSpacesTidy(s: string)
    requires forall i :: 0 <= i < |s| ==> IsDigit(s[i]) || s[i] == ' '
    ensures IsTidy(s)
  {
  }

  lemma GroupDigits(d: string)
    requires |d| >= 7
    requires forall i :: 0 <= i < |d| ==> IsDigit(d[i])
    ensures KeepDigits(Group(d)) == d
  {
    var a, b, c := d[..4], d[4..7], d[7..];
    assert Group(d) == a + (" " + (b + (" " + c)));
    KeepAllDigits(c);
    KeepDigitsSpace(b, c);
    KeepDigitsSpace(a, b + (" " + c));
    assert a + (b + c) == d;
  }

  /** Digits, a space, then anything: the space is dropped. */
  lemma KeepDigitsSpace(a: string, b: string)
    requires forall i :: 0 <= i < |a| ==> IsDigit(a[i])
    ensures KeepDigits(a + (" " + b)) == a + KeepDigits(b)
  {
    KeepAllDigits(a);
    RemoveAppend(a, " " + b, IsNonDigit);
    RemoveAppend(" ", b, IsNonDigit);
  }

  /** A string of digits keeps all of them. */
  lemma {:induction false} KeepAllDigits(d: string)
    requires forall i :: 0 <= i < |d| ==> IsDigit(d[i])
    ensures KeepDigits(d) == d
    decreases |d|
  {
    if |d| > 0 {
      KeepAllDigits(d[1..]);
      assert d == [d[0]] + d[1..];
    }
  }

  /** Preparation only adds the `-` that replaces `|` and the trunk `0`. */
  lemma PrepareChars(phone: string)
    ensures forall i :: 0 <= i < |Prepare(phone)| ==>
      Prepare(phone)[i] in phone || Prepare(phone)[i] == '-' || Prepare(phone)[i] == '0'
  {
    ReplaceAllChars(phone, "|", "-");
    var bare := Remove(ReplaceAll(phone, "|", "-"), IsPhoneJunk);
    RemoveChars(ReplaceAll(phone, "|", "-"), IsPhoneJunk);
    assert forall i :: 0 <= i < |bare| ==> bare[i] in phone || bare[i] == '-';
  }

  /** A single number (no `/` once prepared) comes out without any `-`:
      either grouped from its leading digits, which then survive a second
      pass unchanged, or with its dashes deleted. */
  lemma CleanPhoneSingle(phone: string)
    requires !IsCanonicalStart(phone) && !Contains(Prepare(phone), "/")
    ensures '-' !in CleanPhone(phone)
    ensures var t := ReplaceAll(Prepare(phone), "-", "");
      Groupable(t) ==>
        var d := WithTrunkZero(LeadingDigits(t));
        && CleanPhone(phone) == Group(d)
        && IsCanonicalStart(CleanPhone(phone))
        && CleanPhone(phone)[0] == '0'
        && (|CleanPhone(phone)| == 12 || |CleanPhone(phone)| == 13)
        && KeepDigits(CleanPhone(phone)) == d
        && CleanPhone(CleanPhone(phone)) == CleanPhone(phone)
    ensures var t := ReplaceAll(Prepare(phone), "-", "");
      !Groupable(t) ==> CleanPhone(phone) == t && IsStripped(t)
  {
    var t := ReplaceAll(Prepare(phone), "-", "");
    ReplaceAllChars(Prepare(phone), "-", "");
    if Groupable(t) {
      var d := WithTrunkZero(LeadingDigits(t));
      GroupShape(d);
      assert '-' !in Group(d) by {
        forall i | 0 <= i < |Group(d)|
          ensures Group(d)[i] != '-'
        {
        }
      }
    } else {
      StrippedSubset(t, Prepare(phone));
    }
  }

  /** A string with neither `/` nor `-` cleans to a string without `-`. */
  lemma NoDashIn(x: string)
    requires '/' !in x && '-' !in x
    ensures '-' !in CleanPhone(x)
  {
    if !IsCanonicalStart(x) {
      PrepareChars(x);
      ContainsChar(Prepare(x), '/');
      assert "/" == ['/'];
      CleanPhoneSingle(x);
    }
  }

  /** Several numbers: the prepared field is split at every `/`, each piece
      is cleaned on its own, and the results are joined so that there is
      exactly one `-` in the output per `/` in the prepared field. */
  lemma CleanPhoneSeveral(phone: string)
    requires !IsCanonicalStart(phone) && Contains(Prepare(phone), "/")
    ensures var parts := Split(Prepare(phone), "/");
      && |parts| == Count(Prepare(phone), '/') + 1
      && CleanPhone(phone) == Join(CleanEach(parts, |phone|), " - ")
      && Count(CleanPhone(phone), '-') == Count(Prepare(phone), '/')
  {
    var s := Prepare(phone);
    var parts := Split(s, "/");
    assert "/" == ['/'];
    SplitOnChar(s, '/');
    SeveralPieces(phone);
    GroupsDashFree(parts, |phone|);
    DashesInJoin(CleanEach(parts, |phone|));
  }

  /** The pieces of a prepared field holding `/` are shorter than the
      field, have no `/`, and are what the field is cleaned from. */
  lemma SeveralPieces(phone: string)
    requires !IsCanonicalStart(phone) && Contains(Prepare(phone), "/")
    ensures var parts := Split(Prepare(phone), "/");
      && (forall i :: 0 <= i < |parts| ==> |parts[i]| < |phone| && !Contains(parts[i], "/"))
      && CleanPhone(phone) == Join(CleanEach(parts, |phone|), " - ")
  {
    SplitPieces(Prepare(phone), "/");
  }

  /** Pieces without `/` are cleaned into numbers without `-`. */
  lemma GroupsDashFree(parts: seq<string>, bound: nat)
    requires forall i :: 0 <= i < |parts| ==> |parts[i]| < bound && !Contains(parts[i], "/")
    ensures forall i :: 0 <= i < |parts| ==> '-' !in CleanEach(parts, bound)[i]
  {
    assert "/" == ['/'];
    forall i | 0 <= i < |parts|
      ensures '-' !in CleanPhone(CleanPart(parts[i]))
    {
      ContainsChar(parts[i], '/');
      assert '/' !in CleanPart(parts[i]) by {
        ReplaceAllChars(Strip(parts[i], IsSpace), "-", "");
      }
      NoDashIn(CleanPart(parts[i]));
    }
  }

  /** Joining `n` dash-free strings with `" - "` puts `n - 1` dashes in. */
  lemma {:induction false} DashesInJoin(groups: seq<string>)
    requires |groups| > 0
    requires forall i :: 0 <= i < |groups| ==> '-' !in groups[i]
    ensures Count(Join(groups, " - "), '-') == |groups| - 1
    decreases |groups|
  {
    if |groups| > 1 {
      DashesInJoin(groups[1..]);
      var rest := Join(groups[1..], " - ");
      assert Join(groups, " - ") == groups[0] + " - " + rest;
      CountAppend(groups[0] + " - ", rest, '-');
      CountAppend(groups[0], " - ", '-');
      assert Count(" - ", '-') == 1;
      assert Count(groups[0], '-') == 0;
    } else {
      assert Count(groups[0], '-') == 0;
    }
  }

  /** Without `|`, preparation is deleting separators and replacing the
      country code. */
  lemma PrepareWithoutBar(phone: string)
    requires '|' !in phone
    ensures Prepare(phone) == StripCountryCode(Remove(phone, IsPhoneJunk))
  {
    assert "|" == ['|'];
    ContainsChar(phone, '|');
    ReplaceAllLength(phone, "|", "-");
  }

  /** A field starting with neither `+` nor `8` has no country code. */
  lemma NoCountryCode(s: string)
    requires |s| > 0 && s[0] != '+' && s[0] != '8'
    ensures !StartsWith(s, "+84") && !StartsWith(s, "84")
  {
    assert |s| >= 2 ==> s[..2][0] == s[0];
    assert |s| >= 3 ==> s[..3][0] == s[0];
  }

  /** Tidy strings put together stay tidy and hold no `|`. */
  lemma TidyAppend(a: string, b: string)
    requires IsTidy(a) && IsTidy(b)
    ensures IsTidy(a + b) && '|' !in a + b
  {
    var s := a + b;
    forall i | 0 <= i < |s|
      ensures s[i] == ' ' || (!IsPhoneJunk(s[i]) && s[i] != '|')
    {
      if i < |a| {
        assert s[i] == a[i];
      } else {
        assert s[i] == b[i - |a|];
      }
    }
  }

  /** Digits only are stripped. */
  lemma DigitsStripped(s: string)
    requires forall i :: 0 <= i < |s| ==> IsDigit(s[i])
    ensures IsStripped(s)
  {
  }

  /** A stripped field without a country code is already prepared. */
  lemma PrepareStripped(d: string)
    requires IsStripped(d)
    requires !StartsWith(d, "+84") && !StartsWith(d, "84")
    ensures Prepare(d) == d
  {
    StrippedUntouched(d);
  }

  /** `+84` in front of digits becomes `0`. */
  lemma PrepareCountryCode(d: string)
    requires forall i :: 0 <= i < |d| ==> IsDigit(d[i])
    ensures Prepare("+84" + d) == "0" + d
  {
    var p := "+84" + d;
    assert IsStripped(p);
    StrippedUntouched(p);
    assert p[3..] == d;
  }

  /** `84` in front of digits becomes `0`, as `+84` does. */
  lemma PrepareTrunkCode(d: string)
    requires forall i :: 0 <= i < |d| ==> IsDigit(d[i])
    ensures Prepare("84" + d) == "0" + d
  {
    var p := "84" + d;
    assert IsStripped(p);
    StrippedUntouched(p);
    assert p[2..] == d;
  }

  /** Line 56: a `|` becomes `-`, the dash that may sit inside one number,
      and not the `/` that separates numbers. */
  lemma PrepareBar(a: string, b: string)
    requires IsStripped(a) && IsStripped(b)
    requires !StartsWith(a, "+84") && !StartsWith(a, "84")
    ensures Prepare(a + "|" + b) == a + "-" + b
  {
    var q := a + "-" + b;
    BarReplaced(a, b);
    assert IsStripped(q) by {
      forall i | 0 <= i < |q|
        ensures !IsPhoneJunk(q[i]) && q[i] != '|'
      {
        if i < |a| {
          assert q[i] == a[i];
        } else if i > |a| {
          assert q[i] == b[i - |a| - 1];
        }
      }
    }
    StrippedUntouched(q);
    NoCodeAfter(a, b);
  }

  lemma BarReplaced(a: string, b: string)
    requires IsStripped(a) && IsStripped(b)
    ensures ReplaceAll(a + "|" + b, "|", "-") == a + "-" + b
  {
    assert [a, b][1..] == [b];
    assert Join([a, b], "|") == a + "|" + b;
    assert Join([a, b], "-") == a + "-" + b;
    ReplaceJoined([a, b], "|", "-");
  }

  /** A dash after a prefix without a country code does not make one. */
  lemma NoCodeAfter(a: string, b: string)
    requires !StartsWith(a, "+84") && !StartsWith(a, "84")
    ensures !StartsWith(a + "-" + b, "+84") && !StartsWith(a + "-" + b, "84")
  {
    var q := a + "-" + b;
    if |a| >= 3 {
      assert q[..3] == a[..3] && q[..2] == a[..2];
    } else if |a| == 2 {
      assert q[..2] == a && q[2] == '-';
    } else if |a| == 1 {
      assert q[1] == '-';
    } else {
      assert q[0] == '-';
    }
  }

  /** Stripping and `|`-replacement leave a stripped string alone. */
  lemma {:induction false} StrippedUntouched(d: string)
    requires IsStripped(d)
    ensures ReplaceAll(d, "|", "-") == d
    ensures Remove(d, IsPhoneJunk) == d
    decreases |d|
  {
    assert "|" == ['|'];
    ContainsChar(d, '|');
    ReplaceAllLength(d, "|", "-");
    if |d| > 0 {
      StrippedUntouched(d[1..]);
      assert d == [d[0]] + d[1..];
    }
  }

  /** A digit run is its own leading run. */
  lemma LeadingAllDigits(t: string)
    requires forall i :: 0 <= i < |t| ==> IsDigit(t[i])
    ensures LeadingDigits(t) == t
  {
  }

  /** A piece of digits needs no trimming. */
  lemma CleanPartDigits(x: string)
    requires |x| > 0 && forall i :: 0 <= i < |x| ==> IsDigit(x[i])
    ensures CleanPart(x) == x
  {
    assert "-" == ['-'];
    ContainsChar(x, '-');
    ReplaceAllLength(x, "-", "");
  }

  /** A piece without whitespace needs no trimming and only loses its
      dashes. */
  lemma CleanPartNoSpace(part: string)
    requires forall i :: 0 <= i < |part| ==> !IsSpace(part[i])
    ensures CleanPart(part) == Remove(part, IsDash)
  {
    assert Strip(part, IsSpace) == part;
  }

  /** The dash inside a number is deleted and both sides are kept. */
  lemma CleanPartDash(x: string, y: string)
    requires forall i :: 0 <= i < |x| ==> !IsSpace(x[i]) && x[i] != '-'
    requires forall i :: 0 <= i < |y| ==> !IsSpace(y[i]) && y[i] != '-'
    ensures CleanPart(x + "-" + y) == x + y
  {
    var p := x + "-" + y;
    DashPieces(x, y, p);
    CleanPartNoSpace(p);
  }

  lemma DashPieces(x: string, y: string, p: string)
    requires forall i :: 0 <= i < |x| ==> !IsSpace(x[i]) && x[i] != '-'
    requires forall i :: 0 <= i < |y| ==> !IsSpace(y[i]) && y[i] != '-'
    requires p == x + "-" + y
    ensures forall i :: 0 <= i < |p| ==> !IsSpace(p[i])
    ensures Remove(p, IsDash) == x + y
  {
    forall i | 0 <= i < |p|
      ensures !IsSpace(p[i])
    {
      if i < |x| {
        assert p[i] == x[i];
      } else if i > |x| {
        assert p[i] == y[i - |x| - 1];
      }
    }
    DashRemoved(x, y);
    DashlessKept(x);
    DashlessKept(y);
  }

  /** Deleting dashes drops the dash between two texts and works on each. */
  lemma DashRemoved(u: string, v: string)
    ensures Remove(u + "-" + v, IsDash) == Remove(u, IsDash) + Remove(v, IsDash)
  {
    RemoveAppend(u, "-", IsDash);
    assert Remove("-", IsDash) == "";
    assert Remove(u + "-", IsDash) == Remove(u, IsDash);
    RemoveAppend(u + "-", v, IsDash);
  }

  lemma DashlessKept(x: string)
    requires forall i :: 0 <= i < |x| ==> x[i] != '-'
    ensures Remove(x, IsDash) == x
  {
    RemoveNone(x, IsDash);
  }

  /** For a single number whose dash-free form `t` is all digits, the
      result is the grouped number when `t` has 10 or 11 digits with its
      `0`, and `t` itself otherwise. */
  lemma CleanToRun(phone: string, t: string)
    requires !IsCanonicalStart(phone) && '/' !in Prepare(phone)
    requires ReplaceAll(Prepare(phone), "-", "") == t
    requires |t| > 0 && forall i :: 0 <= i < |t| ==> IsDigit(t[i])
    ensures var d := WithTrunkZero(t);
      CleanPhone(phone) == if |d| == 10 || |d| == 11 then Group(d) else t
  {
    assert "/" == ['/'];
    ContainsChar(Prepare(phone), '/');
    LeadingAllDigits(t);
  }

  /** A field that prepares to digits only. */
  lemma CleanDigits(phone: string)
    requires !IsCanonicalStart(phone)
    requires forall i :: 0 <= i < |Prepare(phone)| ==> IsDigit(Prepare(phone)[i])
    requires |Prepare(phone)| > 0
    ensures var d := WithTrunkZero(Prepare(phone));
      CleanPhone(phone) == if |d| == 10 || |d| == 11 then Group(d) else Prepare(phone)
  {
    var s := Prepare(phone);
    assert "/" == ['/'] && "-" == ['-'];
    ContainsChar(s, '/');
    ContainsChar(s, '-');
    ReplaceAllLength(s, "-", "");
    CleanToRun(phone, s);
  }
}
