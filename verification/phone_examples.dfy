/** Worked inputs for `clean_phone_numbers`, including two where a second
    pass changes the result. Each input is a parameter fixed by the
    precondition, which keeps the verifier from unfolding the cleaning
    functions on the literal eagerly. */
module PhoneExamples {
  import opened CharClasses
  import opened Strings
  import opened Phone

  /** Ten digits starting with `0`: a local number. */
  predicate IsLocalTen(p: string) {
    |p| == 10 && p[0] == '0' && forall i :: 0 <= i < |p| ==> IsDigit(p[i])
  }

  /** A local number without separators is grouped. */
  lemma LocalTen(p: string)
    requires IsLocalTen(p)
    ensures CleanPhone(p) == Group(p)
  {
    assert p[..2][0] == '0';
    PrepareStripped(p);
    CleanDigits(p);
  }

  /** Two local numbers separated by `/` are grouped one by one and
      joined by `" - "`. */
  lemma TwoLocal(a: string, b: string)
    requires IsLocalTen(a) && IsLocalTen(b)
    ensures CleanPhone(a + "/" + b) == Group(a) + " - " + Group(b)
  {
    var p := a + "/" + b;
    PrepareSlash(a, b);
    CleanPhoneSeveral(p);
    TwoGroups(a, b, |p|);
  }

  /** Each of two local numbers is grouped on its own. */
  lemma TwoGroups(a: string, b: string, bound: nat)
    requires IsLocalTen(a) && IsLocalTen(b) && bound > 10
    ensures CleanEach([a, b], bound) == [Group(a), Group(b)]
    ensures Join([Group(a), Group(b)], " - ") == Group(a) + " - " + Group(b)
  {
    CleanEachPair(a, b, bound);
    CleanPartDigits(a);
    CleanPartDigits(b);
    LocalTen(a);
    LocalTen(b);
  }

  /** A local ten-digit number is grouped. */
  lemma LocalNumber(p: string)
    requires p == "0987123456"
    ensures CleanPhone(p) == "0987 123 456"
  {
    LocalNumberShape(p);
    LocalTen(p);
  }

  lemma LocalNumberShape(p: string)
    requires p == "0987123456"
    ensures IsLocalTen(p) && Group(p) == "0987 123 456"
  {
    GroupTen(p, "0987", "123", "456");
  }

  /** The country code `+84` is replaced by the trunk prefix `0`. */
  lemma CountryCodeNumber(p: string)
    requires p == "+84987123456"
    ensures CleanPhone(p) == "0987 123 456"
  {
    var d := p[3..];
    CountryCodeShape(p);
    PrepareCountryCode(d);
    CleanDigits(p);
  }

  lemma CountryCodeShape(p: string)
    requires p == "+84987123456"
    ensures p == "+84" + p[3..] && !IsCanonicalStart(p)
    ensures forall i :: 0 <= i < |p[3..]| ==> IsDigit(p[3..][i])
    ensures |p[3..]| == 9 && Group("0" + p[3..]) == "0987 123 456"
  {
    GroupTen("0" + p[3..], "0987", "123", "456");
  }

  /** `84` in front of nine or ten digits is a country code, as `+84` is:
      the number is grouped with `0` in its place. */
  lemma CodeNumbers(d: string)
    requires |d| == 9 || |d| == 10
    requires forall i :: 0 <= i < |d| ==> IsDigit(d[i])
    ensures CleanPhone("84" + d) == Group("0" + d)
    ensures CleanPhone("+84" + d) == Group("0" + d)
  {
    CodeShape(d);
    PrepareTrunkCode(d);
    PrepareCountryCode(d);
    CleanDigits("84" + d);
    CleanDigits("+84" + d);
  }

  lemma CodeShape(d: string)
    requires |d| == 9 || |d| == 10
    requires forall i :: 0 <= i < |d| ==> IsDigit(d[i])
    ensures !IsCanonicalStart("84" + d) && !IsCanonicalStart("+84" + d)
    ensures forall i :: 0 <= i < |"0" + d| ==> IsDigit(("0" + d)[i])
    ensures WithTrunkZero("0" + d) == "0" + d
  {
    assert ("84" + d)[4] == d[2];
    assert ("+84" + d)[4] == d[1];
  }

  /** Dashes inside a number are deleted before it is grouped: `x-y-z/d`
      gives the grouped `xyz`, then the grouped `d`. */
  lemma DashedSlashLocal(x: string, y: string, z: string, d: string)
    requires |x| > 0 && IsLocalTen(x + y + z) && IsLocalTen(d)
    ensures CleanPhone(x + "-" + y + "-" + z + "/" + d) == Group(x + y + z) + " - " + Group(d)
  {
    var a := x + "-" + y + "-" + z;
    var p := a + "/" + d;
    DashedPiece(x, y, z, a);
    PrepareSlash(a, d);
    CleanPhoneSeveral(p);
    DashedGroups(x, y, z, a, d, |p|);
  }

  /** A number written with dashes between its groups loses them. */
  lemma DashedPiece(x: string, y: string, z: string, a: string)
    requires |x| > 0 && IsLocalTen(x + y + z) && a == x + "-" + y + "-" + z
    ensures a[0] == '0' && forall i :: 0 <= i < |a| ==> IsDigit(a[i]) || a[i] == '-'
    ensures CleanPart(a) == x + y + z
  {
    ThreeDigits(x, y, z);
    DashedChars(x, y, z, a);
    CleanPartNoSpace(a);
    DashRemoved(x + "-" + y, z);
    DashRemoved(x, y);
    DashlessKept(x);
    DashlessKept(y);
    DashlessKept(z);
  }

  lemma ThreeDigits(x: string, y: string, z: string)
    requires |x| > 0 && IsLocalTen(x + y + z)
    ensures x[0] == '0'
    ensures forall i :: 0 <= i < |x| ==> IsDigit(x[i])
    ensures forall i :: 0 <= i < |y| ==> IsDigit(y[i])
    ensures forall i :: 0 <= i < |z| ==> IsDigit(z[i])
  {
    var n := x + y + z;
    assert forall i :: 0 <= i < |x| ==> x[i] == n[i];
    assert forall i :: 0 <= i < |y| ==> y[i] == n[|x| + i];
    assert forall i :: 0 <= i < |z| ==> z[i] == n[|x| + |y| + i];
  }

  lemma DashedChars(x: string, y: string, z: string, a: string)
    requires |x| > 0 && x[0] == '0' && a == x + "-" + y + "-" + z
    requires forall i :: 0 <= i < |x| ==> IsDigit(x[i])
    requires forall i :: 0 <= i < |y| ==> IsDigit(y[i])
    requires forall i :: 0 <= i < |z| ==> IsDigit(z[i])
    ensures a[0] == '0'
    ensures forall i :: 0 <= i < |a| ==> IsDigit(a[i]) || a[i] == '-'
  {
    assert a[0] == x[0];
    forall i | 0 <= i < |a|
      ensures IsDigit(a[i]) || a[i] == '-'
    {
      if i < |x| {
        assert a[i] == x[i];
      } else if |x| < i < |x| + 1 + |y| {
        assert a[i] == y[i - |x| - 1];
      } else if |x| + 1 + |y| < i {
        assert a[i] == z[i - |x| - |y| - 2];
      }
    }
  }

  lemma DashedGroups(x: string, y: string, z: string, a: string, d: string, bound: nat)
    requires |x| > 0 && IsLocalTen(x + y + z) && a == x + "-" + y + "-" + z
    requires IsLocalTen(d) && |a| < bound && |d| < bound
    ensures Join(CleanEach([a, d], bound), " - ") == Group(x + y + z) + " - " + Group(d)
  {
    var n := x + y + z;
    DashedPiece(x, y, z, a);
    CleanEachPair(a, d, bound);
    CleanPartDigits(d);
    LocalTen(n);
    LocalTen(d);
    assert [Group(n), Group(d)][1..] == [Group(d)];
  }

  /** `0123-456-789/0987654321` gives `0123 456 789 - 0987 654 321`. */
  lemma DashedNumbers(p: string)
    requires p == "0123-456-789/0987654321"
    ensures CleanPhone(p) == "0123 456 789 - 0987 654 321"
  {
    var x, y, z, d := "0123", "456", "789", "0987654321";
    assert p == x + "-" + y + "-" + z + "/" + d;
    FirstOfTwo(x + y + z);
    SecondOfTwo(d);
    DashedSlashLocal(x, y, z, d);
    JoinedPair(Group(x + y + z), Group(d));
  }

  /** Line 56 makes `|` a dash, not a separator: two local numbers written
      `a|b` are glued into one twenty-digit run, too long to group. */
  lemma BarJoinsNumbers(a: string, b: string)
    requires IsLocalTen(a) && IsLocalTen(b)
    ensures CleanPhone(a + "|" + b) == a + b
  {
    var p := a + "|" + b;
    BarFacts(a, b);
    PrepareBar(a, b);
    DropOneDash(a, b);
    CleanToRun(p, a + b);
  }

  lemma BarFacts(a: string, b: string)
    requires IsLocalTen(a) && IsLocalTen(b)
    ensures !IsCanonicalStart(a + "|" + b)
    ensures IsStripped(a) && IsStripped(b) && !StartsWith(a, "+84") && !StartsWith(a, "84")
    ensures '/' !in a + "-" + b && '-' !in a && '-' !in b
    ensures forall i :: 0 <= i < |a + b| ==> IsDigit((a + b)[i])
    ensures WithTrunkZero(a + b) == a + b && |a + b| == 20
  {
    assert (a + "|" + b)[4] == a[4];
    assert a[..2][0] == a[0] && a[..3][0] == a[0];
    DigitsStripped(a);
    DigitsStripped(b);
    AllDigitsAppend(a, b);
    assert forall i :: 0 <= i < |a + "-" + b| ==> IsDigit((a + "-" + b)[i]) || (a + "-" + b)[i] == '-';
  }

  /** A `|` in front of `c` = `84` + `d` hides the country code, since the
      dash it becomes is deleted only after the country-code check; without
      the bar, `84` becomes `0`. */
  lemma BarHidesCountryCode(d: string, c: string)
    requires |d| <= 5 && forall i :: 0 <= i < |d| ==> IsDigit(d[i])
    requires c == "84" + d
    ensures CleanPhone("|" + c) == c
    ensures CleanPhone(c) == "0" + d
  {
    BarBeforeCode(d, c);
    ShortCode(d, c);
  }

  lemma BarBeforeCode(d: string, c: string)
    requires |d| <= 5 && forall i :: 0 <= i < |d| ==> IsDigit(d[i])
    requires c == "84" + d
    ensures CleanPhone("|" + c) == c
  {
    var p := "|" + c;
    assert p == "" + "|" + c && "" + "-" + c == "-" + c;
    DigitsStripped(c);
    PrepareBar("", c);
    DropOneDash("", c);
    assert '/' !in "-" + c by {
      assert forall i :: 0 <= i < |"-" + c| ==> IsDigit(("-" + c)[i]) || ("-" + c)[i] == '-';
    }
    CleanToRun(p, c);
    assert WithTrunkZero(c) == "0" + c;
  }

  lemma ShortCode(d: string, c: string)
    requires |d| <= 5 && forall i :: 0 <= i < |d| ==> IsDigit(d[i])
    requires c == "84" + d
    ensures CleanPhone(c) == "0" + d
  {
    PrepareTrunkCode(d);
    assert forall i :: 0 <= i < |"0" + d| ==> IsDigit(("0" + d)[i]);
    CleanDigits(c);
  }

  /** Two numbers separated by `/` are cleaned one by one and joined. */
  lemma TwoNumbers(p: string)
    requires p == "0123456789/0987654321"
    ensures CleanPhone(p) == "0123 456 789 - 0987 654 321"
  {
    var a, b := "0123456789", "0987654321";
    assert p == a + "/" + b;
    FirstOfTwo(a);
    SecondOfTwo(b);
    TwoLocal(a, b);
    JoinedPair(Group(a), Group(b));
  }

  lemma JoinedPair(x: string, y: string)
    requires x == "0123 456 789" && y == "0987 654 321"
    ensures x + " - " + y == "0123 456 789 - 0987 654 321"
  {
  }

  lemma FirstOfTwo(a: string)
    requires a == "0123456789"
    ensures IsLocalTen(a) && Group(a) == "0123 456 789"
  {
    GroupTen(a, "0123", "456", "789");
  }

  lemma SecondOfTwo(b: string)
    requires b == "0987654321"
    ensures IsLocalTen(b) && Group(b) == "0987 654 321"
  {
    GroupTen(b, "0987", "654", "321");
  }

  /** Deleting the only `-` joins the two sides. */
  lemma DropOneDash(x: string, y: string)
    requires '-' !in x && '-' !in y
    ensures ReplaceAll(x + "-" + y, "-", "") == x + y
  {
    assert x + "-" + y == Join([x, y], "-");
    SplitJoin([x, y], "-");
    assert Join([x, y], "") == x + y;
  }

  /** Spaces between stripped pieces are deleted by preparation. */
  lemma RemoveSpace(a: string, b: string)
    requires IsStripped(a)
    ensures Remove(a + (" " + b), IsPhoneJunk) == a + Remove(b, IsPhoneJunk)
  {
    StrippedUntouched(a);
    RemoveAppend(a, " " + b, IsPhoneJunk);
    RemoveAppend(" ", b, IsPhoneJunk);
  }

  /** A short number cleans to itself: with its `0` it is too short to group. */
  lemma ShortNumber(x: string)
    requires 1 <= |x| <= 8 && x[0] != '8' && forall i :: 0 <= i < |x| ==> IsDigit(x[i])
    ensures CleanPart(x) == x && CleanPhone(x) == x
  {
    CleanPartDigits(x);
    DigitsStripped(x);
    NoCountryCode(x);
    PrepareStripped(x);
    CleanDigits(x);
    assert |WithTrunkZero(x)| <= 9;
  }

  /** A short number and a local number separated by `/`. */
  lemma ShortSlashLocal(x: string, d: string)
    requires 1 <= |x| <= 8 && x[0] != '8' && forall i :: 0 <= i < |x| ==> IsDigit(x[i])
    requires IsLocalTen(d)
    ensures CleanPhone(x + "/" + d) == x + " - " + Group(d)
  {
    var p := x + "/" + d;
    PrepareSlash(x, d);
    CleanPhoneSeveral(p);
    ShortAndLocal(x, d, |p|);
  }

  lemma ShortAndLocal(x: string, d: string, bound: nat)
    requires 1 <= |x| <= 8 && x[0] != '8' && forall i :: 0 <= i < |x| ==> IsDigit(x[i])
    requires IsLocalTen(d) && bound > 10
    ensures CleanEach([x, d], bound) == [x, Group(d)]
    ensures Join([x, Group(d)], " - ") == x + " - " + Group(d)
  {
    CleanEachPair(x, d, bound);
    ShortNumber(x);
    CleanPartDigits(d);
    LocalTen(d);
  }

  lemma CleanEachPair(a: string, b: string, bound: nat)
    requires |a| < bound && |b| < bound
    ensures CleanEach([a, b], bound) == [CleanPhone(CleanPart(a)), CleanPhone(CleanPart(b))]
  {
    var g := CleanEach([a, b], bound);
    assert [a, b][0] == a && [a, b][1] == b;
    PairOf(g, CleanPhone(CleanPart(a)), CleanPhone(CleanPart(b)));
  }

  lemma PairOf(g: seq<string>, x: string, y: string)
    requires |g| == 2 && g[0] == x && g[1] == y
    ensures g == [x, y]
  {
  }

  /** Two runs of digits with a `/` between them, the first not starting
      with `8` and possibly holding dashes, are already prepared and split back into the two runs. */
  lemma PrepareSlash(x: string, d: string)
    requires |x| > 0 && x[0] != '8' && forall i :: 0 <= i < |x| ==> IsDigit(x[i]) || x[i] == '-'
    requires |d| > 0 && forall i :: 0 <= i < |d| ==> IsDigit(d[i])
    ensures var p := x + "/" + d;
      && !IsCanonicalStart(p) && Prepare(p) == p && Contains(p, "/") && Split(p, "/") == [x, d]
  {
    var p := x + "/" + d;
    assert IsStripped(p);
    NoCountryCode(p);
    PrepareStripped(p);
    assert "/" == ['/'];
    assert p[|x|] == '/';
    ContainsChar(p, '/');
    assert p == Join([x, d], "/");
    SplitJoin([x, d], "/");
  }

  /** Cleaning `x - dddd ddd ddd` again drops the separator and the spaces
      and, the run being too long to group, glues the digits together. */
  lemma RecleanJoined(x: string, d: string)
    requires 1 <= |x| <= 3 && x[0] != '8' && x[0] != '0'
    requires forall i :: 0 <= i < |x| ==> IsDigit(x[i])
    requires IsLocalTen(d)
    ensures CleanPhone(x + " - " + Group(d)) == x + d
  {
    var q := x + " - " + Group(d);
    JoinedFacts(x, d);
    CleanToRun(q, x + d);
  }

  lemma JoinedFacts(x: string, d: string)
    requires 1 <= |x| <= 3 && x[0] != '8' && x[0] != '0'
    requires forall i :: 0 <= i < |x| ==> IsDigit(x[i])
    requires IsLocalTen(d)
    ensures var q := x + " - " + Group(d);
      && !IsCanonicalStart(q) && '/' !in Prepare(q)
      && ReplaceAll(Prepare(q), "-", "") == x + d
      && (forall i :: 0 <= i < |x + d| ==> IsDigit((x + d)[i]))
      && WithTrunkZero(x + d) == "0" + x + d
  {
    var q := x + " - " + Group(d);
    assert q[|x|] == ' ';
    PrepareJoined(x, d);
    DropOneDash(x, d);
    AllDigitsAppend(x, d);
    assert '/' !in x + "-" + d by {
      assert forall i :: 0 <= i < |x + "-" + d| ==> IsDigit((x + "-" + d)[i]) || (x + "-" + d)[i] == '-';
    }
  }

  lemma AllDigitsAppend(x: string, d: string)
    requires forall i :: 0 <= i < |x| ==> IsDigit(x[i])
    requires forall i :: 0 <= i < |d| ==> IsDigit(d[i])
    ensures forall i :: 0 <= i < |x + d| ==> IsDigit((x + d)[i])
  {
  }

  lemma PrepareJoined(x: string, d: string)
    requires 1 <= |x| && x[0] != '8' && forall i :: 0 <= i < |x| ==> IsDigit(x[i])
    requires IsLocalTen(d)
    ensures Prepare(x + " - " + Group(d)) == x + "-" + d
  {
    var q := x + " - " + Group(d);
    NoBarJoined(x, d);
    PrepareWithoutBar(q);
    RemoveJoined(x, d);
    NoCountryCode(x + "-" + d);
  }

  lemma NoBarJoined(x: string, d: string)
    requires forall i :: 0 <= i < |x| ==> IsDigit(x[i])
    requires IsLocalTen(d)
    ensures '|' !in x + " - " + Group(d)
  {
    GroupShape(d);
    DigitsStripped(x);
    StrippedIsTidy(x);
    TidyAppend(x, " - ");
    TidyAppend(x + " - ", Group(d));
  }

  lemma RemoveJoined(x: string, d: string)
    requires forall i :: 0 <= i < |x| ==> IsDigit(x[i])
    requires IsLocalTen(d)
    ensures Remove(x + " - " + Group(d), IsPhoneJunk) == x + "-" + d
  {
    DigitsStripped(x);
    RemoveAroundDash(x, Group(d));
    RemoveGroupJunk(d);
  }

  /** Deleting separators around the `-` between two numbers. */
  lemma RemoveAroundDash(x: string, g: string)
    requires IsStripped(x)
    ensures Remove(x + " - " + g, IsPhoneJunk) == x + "-" + Remove(g, IsPhoneJunk)
  {
    assert x + " - " + g == x + (" - " + g);
    RemoveAppend(x, " - " + g, IsPhoneJunk);
    StrippedUntouched(x);
    RemoveAppend(" - ", g, IsPhoneJunk);
    RemoveSeparator();
  }

  lemma RemoveSeparator()
    ensures Remove(" - ", IsPhoneJunk) == "-"
  {
    RemoveFirst(' ', "- ");
    RemoveFirst('-', " ");
    RemoveFirst(' ', "");
  }

  /** One step of deleting separators. */
  lemma RemoveFirst(c: char, b: string)
    ensures Remove([c] + b, IsPhoneJunk) ==
      if IsPhoneJunk(c) then Remove(b, IsPhoneJunk) else [c] + Remove(b, IsPhoneJunk)
  {
    assert ([c] + b)[1..] == b;
  }

  /** Preparation deletes the spaces grouping put in. */
  lemma RemoveGroupJunk(d: string)
    requires IsLocalTen(d)
    ensures Remove(Group(d), IsPhoneJunk) == d
  {
    var a, b, c := d[..4], d[4..7], d[7..];
    assert Group(d) == a + (" " + (b + (" " + c)));
    DigitsStripped(a);
    DigitsStripped(b);
    DigitsStripped(c);
    RemoveSpace(a, b + (" " + c));
    RemoveSpace(b, c);
    StrippedUntouched(c);
    assert a + (b + c) == d;
  }

  /** A second pass is not the identity: the `" - "` separator and the
      spaces are deleted and the two numbers glued into one digit run. */
  lemma SlashResultNotStable(p: string)
    requires p == "123/0912345678"
    ensures CleanPhone(p) == "123 - 0912 345 678"
    ensures CleanPhone(CleanPhone(p)) == "1230912345678"
  {
    var x, d := p[..3], p[4..];
    SlashShape(p);
    ShortSlashLocal(x, d);
    RecleanJoined(x, d);
  }

  lemma SlashShape(p: string)
    requires p == "123/0912345678"
    ensures p == p[..3] + "/" + p[4..] && IsLocalTen(p[4..])
    ensures p[..3] == "123"
    ensures p[..3] + " - " + Group(p[4..]) == "123 - 0912 345 678"
    ensures p[..3] + p[4..] == "1230912345678"
  {
    GroupTen(p[4..], "0912", "345", "678");
  }

  /** A leading `-` hides the country code `84` from the first pass; the
      dash is deleted afterwards, so a second pass sees `84` and turns it
      into `0`. */
  lemma DashHidesCountryCode(p: string)
    requires p == "-8412"
    ensures CleanPhone(p) == "8412"
    ensures CleanPhone(CleanPhone(p)) == "012"
  {
    DashFirstPass(p);
    TrunkSecondPass(p[1..]);
  }

  lemma DashFirstPass(p: string)
    requires p == "-8412"
    ensures CleanPhone(p) == p[1..] == "8412"
  {
    var t := p[1..];
    DashShape(p);
    NoCountryCode(p);
    PrepareStripped(p);
    DropOneDash("", t);
    assert ReplaceAll(Prepare(p), "-", "") == t;
    CleanToRun(p, t);
    assert WithTrunkZero(t) == "0" + t;
  }

  lemma TrunkSecondPass(t: string)
    requires t == "8412"
    ensures CleanPhone(t) == "012"
  {
    assert Prepare(t) == "0" + t[2..] by {
      assert '|' !in t;
      PrepareWithoutBar(t);
      DigitsStripped(t);
      StrippedUntouched(t);
    }
    assert "0" + t[2..] == "012";
    CleanDigits(t);
  }

  lemma DashShape(p: string)
    requires p == "-8412"
    ensures p == "" + "-" + p[1..] && p[1..] == "8412"
    ensures IsStripped(p) && !IsCanonicalStart(p) && !IsCanonicalStart(p[1..])
    ensures StartsWith(p[1..], "84") && "0" + p[1..][2..] == "012"
    ensures '/' !in p && '-' !in p[1..] && p[1..][0] == '8'
    ensures forall i :: 0 <= i < |p[1..]| ==> IsDigit(p[1..][i])
  {
  }

  /** An empty field stays empty. */
  lemma EmptyPhone()
    ensures CleanPhone("") == ""
  {
    PrepareStripped("");
    ReplaceAllLength("", "-", "");
    assert !Contains("", "/");
    CleanPhoneSingle("");
  }
}
