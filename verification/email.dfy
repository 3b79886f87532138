/** `fix_common_typos` (form_ggs.py:92-129): the email typo fixer, written
    as the chain of stages the function runs one after the other. */
module Email {
  import opened Values
  import opened CharClasses
  import opened Strings
  import opened EmailPattern
  import opened CorrectionTable

  predicate IsAt(c: char) { c == '@' }

  /** `email.strip().strip('-').replace(' ', '')`: outer whitespace, then
      outer dashes, then every plain space goes. Other whitespace inside
      the text (a tab, a newline, a no-break space) stays. */
  function Tidy(email: string): (r: string)
    ensures ' ' !in r
    ensures |r| <= |email|
    ensures r == Remove(Strip(Strip(email, IsSpace), IsDash), IsBlank)
  {
    var s := Strip(Strip(email, IsSpace), IsDash);
    assert " " == [' '];
    DeleteChar(s, ' ', IsBlank);
    ReplaceAllChars(s, " ", "");
    ReplaceAllLength(s, " ", "");
    ReplaceAll(s, " ", "")
  }

  /** An address with no whitespace and no dash at either end is already
      tidy. */
  lemma TidyKeeps(email: string)
    requires forall i :: 0 <= i < |email| ==> !IsSpace(email[i])
    requires |email| == 0 || (email[0] != '-' && email[|email| - 1] != '-')
    ensures Tidy(email) == email
  {
    assert Strip(email, IsSpace) == email;
    assert Strip(email, IsDash) == email;
    ContainsChar(email, ' ');
    ReplaceAllLength(email, " ", "");
  }

  /** Outer whitespace, then the dashes inside it, are taken off: an
      address padded by whitespace `u`, `v` around dashes `d1`, `d2` comes
      back bare. */
  lemma TidyTrims(u: string, d1: string, x: string, d2: string, v: string)
    requires All(u, IsSpace) && All(v, IsSpace) && All(d1, IsDash) && All(d2, IsDash)
    requires |x| > 0 && x[0] != '-' && x[|x| - 1] != '-'
    requires forall i :: 0 <= i < |x| ==> !IsSpace(x[i])
    ensures Tidy(u + d1 + x + d2 + v) == x
  {
    var m := d1 + x + d2;
    assert m[0] == (if |d1| > 0 then d1[0] else x[0]);
    assert m[|m| - 1] == (if |d2| > 0 then d2[|d2| - 1] else x[|x| - 1]);
    assert u + d1 + x + d2 + v == u + m + v;
    StripPadded(u, m, v, IsSpace);
    StripPadded(d1, x, d2, IsDash);
    assert IsSpace(' ');
    ContainsChar(x, ' ');
    ReplaceAllLength(x, " ", "");
  }

  /** Only the plain space is deleted inside the text: a tab between two
      words without whitespace or outer dashes is kept. */
  lemma TidyKeepsTab(x: string, y: string)
    requires |x| > 0 && |y| > 0 && x[0] != '-' && y[|y| - 1] != '-'
    requires forall i :: 0 <= i < |x| ==> !IsSpace(x[i])
    requires forall i :: 0 <= i < |y| ==> !IsSpace(y[i])
    ensures Tidy(x + "\t" + y) == x + "\t" + y
  {
    TabUntouched(x, y, x + "\t" + y);
  }

  lemma TabUntouched(x: string, y: string, s: string)
    requires |x| > 0 && |y| > 0 && x[0] != '-' && y[|y| - 1] != '-'
    requires forall i :: 0 <= i < |x| ==> !IsSpace(x[i])
    requires forall i :: 0 <= i < |y| ==> !IsSpace(y[i])
    requires s == x + "\t" + y
    ensures Strip(Strip(s, IsSpace), IsDash) == s && Remove(s, IsBlank) == s
  {
    assert s[0] == x[0] && s[|s| - 1] == y[|y| - 1];
    assert Strip(s, IsSpace) == s;
    NoBlankIn(x);
    NoBlankIn(y);
    RemoveAppend(x + "\t", y, IsBlank);
    RemoveAppend(x, "\t", IsBlank);
    assert Remove("\t", IsBlank) == "\t";
  }

  /** Text without whitespace has no plain space to delete. */
  lemma NoBlankIn(x: string)
    requires forall i :: 0 <= i < |x| ==> !IsSpace(x[i])
    ensures Remove(x, IsBlank) == x
  {
    RemoveNone(x, IsBlank);
  }

  /** Dashes are stripped before spaces are deleted, so a dash that sat
      behind a space survives: `- -a@b.com` gives `-a@b.com`. */
  lemma TidyDashBeforeSpace(y: string)
    requires |y| > 0 && y[|y| - 1] != '-'
    requires forall i :: 0 <= i < |y| ==> !IsSpace(y[i])
    ensures Tidy("- " + y) == y
  {
    DashThenSpace(y, " " + y, "- " + y);
  }

  lemma DashThenSpace(y: string, m: string, s: string)
    requires |y| > 0 && y[|y| - 1] != '-'
    requires forall i :: 0 <= i < |y| ==> !IsSpace(y[i])
    requires m == " " + y && s == "-" + m
    ensures Strip(Strip(s, IsSpace), IsDash) == m && Remove(m, IsBlank) == y
  {
    assert s[|s| - 1] == y[|y| - 1];
    assert Strip(s, IsSpace) == s;
    assert s == "-" + m + "";
    StripPadded("-", m, "", IsDash);
    NoBlankIn(y);
    assert m[1..] == y;
  }

  predicate KeysNonEmpty(table: Table) {
    forall i :: 0 <= i < |table| ==> |table[i].0| > 0
  }

  /** `for wrong, right in table.items(): s = s.replace(wrong, right)`:
      the rewrites run one after another in table order, each on the
      result of the one before. A string holding none of the keys passes
      the table unchanged. */
  function ApplyTable(s: string, table: Table): (r: string)
    requires KeysNonEmpty(table)
    ensures (forall i :: 0 <= i < |table| ==> !Contains(s, table[i].0)) ==> r == s
    decreases |table|
  {
    if |table| == 0 then s
    else
      ReplaceAllLength(s, table[0].0, table[0].1);
      ApplyTable(ReplaceAll(s, table[0].0, table[0].1), table[1..])
  }

  /** Running a table in two halves is running the whole table. */
  lemma {:induction false} ApplyTableAppend(s: string, t1: Table, t2: Table)
    requires KeysNonEmpty(t1) && KeysNonEmpty(t2)
    ensures KeysNonEmpty(t1 + t2)
    ensures ApplyTable(s, t1 + t2) == ApplyTable(ApplyTable(s, t1), t2)
    decreases |t1|
  {
    assert forall i :: 0 <= i < |t1 + t2| ==> (t1 + t2)[i] == (if i < |t1| then t1[i] else t2[i - |t1|]);
    if |t1| > 0 {
      assert (t1 + t2)[1..] == t1[1..] + t2;
      ApplyTableAppend(ReplaceAll(s, t1[0].0, t1[0].1), t1[1..], t2);
    } else {
      assert t1 + t2 == t2;
    }
  }

  /** When only the last key of a table can occur in the string, the table
      amounts to that last rewrite. */
  lemma ApplyOnlyLast(s: string, table: Table)
    requires KeysNonEmpty(table) && |table| > 0
    requires forall j :: 0 <= j < |table| - 1 ==> !Contains(s, table[j].0)
    ensures ApplyTable(s, table) == ReplaceAll(s, table[|table| - 1].0, table[|table| - 1].1)
  {
    var n := |table| - 1;
    var front, last := table[..n], table[n..];
    assert front + last == table;
    ApplyTableAppend(s, front, last);
    assert last[1..] == [];
  }

  /** A character in neither the string nor any replacement is not in the
      result. */
  lemma {:induction false} ApplyTableAvoids(s: string, table: Table, c: char)
    requires KeysNonEmpty(table)
    requires c !in s && forall i :: 0 <= i < |table| ==> c !in table[i].1
    ensures c !in ApplyTable(s, table)
    decreases |table|
  {
    if |table| > 0 {
      var next := ReplaceAll(s, table[0].0, table[0].1);
      ReplaceAllChars(s, table[0].0, table[0].1);
      assert c !in next;
      ApplyTableAvoids(next, table[1..], c);
    }
  }

  /** Every key of the correction table is non-empty, no replacement holds
      a space, and the last rewrite is `.co` to `.com`. */
  lemma CorrectionFacts()
    ensures KeysNonEmpty(Corrections)
    ensures forall i :: 0 <= i < |Corrections| ==> ' ' !in Corrections[i].1
    ensures |Corrections| == 27 && Corrections[26] == (".co", ".com")
  {
  }

  /** `email_pattern.search(s)` and `match.group(0)`: the first address in
      the string if there is one, the string itself otherwise. */
  function Extract(s: string): (r: string)
    ensures Search(s).Some? ==> IsAddress(r) && r == s[Search(s).value.0..Search(s).value.1]
    ensures Search(s).None? ==> r == s
    ensures ' ' !in s ==> ' ' !in r
  {
    match Search(s)
    case Some((a, b)) =>
      assert forall i :: 0 <= i < b - a ==> s[a..b][i] == s[a + i];
      s[a..b]
    case None => s
  }

  /** A string that is an address comes back whole. */
  lemma ExtractWhole(t: string)
    requires IsAddress(t)
    ensures Extract(t) == t
  {
    SearchWhole(t);
  }

  /** A string with no address anywhere in it comes back unchanged. */
  lemma ExtractNone(s: string)
    requires forall i, j :: 0 <= i <= j <= |s| ==> !IsAddress(s[i..j])
    ensures Extract(s) == s
  {
    SearchNoneIff(s);
  }

  /** Joining the `@`-pieces of a string deletes its `@`s. */
  lemma ConcatSplitAts(s: string)
    ensures Concat(Split(s, "@")) == Remove(s, IsAt)
  {
    assert "@" == ['@'];
    ConcatSplitChar(s, '@', IsAt);
  }

  /** Text with more than one `@` is split at every `@` and rejoined with
      a single `@` after the first piece. The first `@` survives, with
      everything before it; the rest is kept in order with its `@`s
      deleted. */
  function CollapseAts(s: string): (r: string)
    ensures Count(s, '@') <= 1 ==> r == s
    ensures Count(s, '@') > 1 ==>
              (IndexOf(s, "@").Some? &&
               var k := IndexOf(s, "@").value;
               k < |s| && s[k] == '@' && '@' !in s[..k] &&
               r == s[..k] + "@" + Remove(s[k + 1..], IsAt))
    ensures Count(r, '@') <= 1
    ensures ' ' !in s ==> ' ' !in r
  {
    if Count(s, '@') > 1 then
      var parts := Split(s, "@");
      ContainsChar(s, '@');
      var k := IndexOf(s, "@").value;
      CollapseShape(s, k);
      CollapseCount(s[..k], s[k + 1..]);
      assert ' ' !in s ==> ' ' !in s[..k] && ' ' !in s[k + 1..] by {
        assert forall i :: 0 <= i < k ==> s[..k][i] == s[i];
        assert forall i :: k + 1 <= i < |s| ==> s[k + 1..][i - k - 1] == s[i];
      }
      parts[0] + "@" + Concat(parts[1..])
    else s
  }

  /** Line 109's expression is everything before the first `@` (at `k`),
      that `@`, and the rest with every other `@` deleted. */
  lemma CollapseShape(s: string, k: nat)
    requires IndexOf(s, "@") == Some(k)
    ensures k < |s| && s[k] == '@' && '@' !in s[..k]
    ensures Split(s, "@")[0] + "@" + Concat(Split(s, "@")[1..]) == s[..k] + "@" + Remove(s[k + 1..], IsAt)
  {
    FirstAt(s, k);
    var head, rest := s[..k], s[k + 1..];
    SplitStep(s, "@", k);
    ConcatSplitAts(rest);
  }

  /** Of several `@`s the first is kept: `x@y@z` becomes `x@yz`, not
      `xy@z`. */
  lemma CollapseKeepsFirst(x: string, y: string, z: string)
    requires '@' !in x && '@' !in y && '@' !in z
    ensures CollapseAts(x + "@" + y + "@" + z) == x + "@" + (y + z)
  {
    KeepsFirst(x, y, z, x + "@" + y + "@" + z);
  }

  /** `CollapseKeepsFirst` on a named string. */
  lemma KeepsFirst(x: string, y: string, z: string, s: string)
    requires '@' !in x && '@' !in y && '@' !in z
    requires s == x + "@" + y + "@" + z
    ensures CollapseAts(s) == x + "@" + (y + z)
  {
    AtFreeParts(x, y, z, s);
    var u := y + "@" + z;
    assert s == x + "@" + u;
    CollapseAfterHead(x, u, s);
    AtDropped(y, z);
  }

  /** With `x` free of `@`, collapsing `x@u` deletes the `@`s of `u`. */
  lemma CollapseAfterHead(x: string, u: string, s: string)
    requires '@' !in x && s == x + "@" + u && Count(s, '@') > 1
    ensures CollapseAts(s) == x + "@" + Remove(u, IsAt)
  {
    IndexOfAfterHead(x, "@", u);
    assert s[..|x|] == x && s[|x| + 1..] == u;
  }

  /** Deleting the `@` between two `@`-free pieces joins them. */
  lemma AtDropped(y: string, z: string)
    requires '@' !in y && '@' !in z
    ensures Remove(y + "@" + z, IsAt) == y + z
  {
    RemoveAppend(y, "@", IsAt);
    assert Remove("@", IsAt) == "";
    assert Remove(y + "@", IsAt) == Remove(y, IsAt);
    RemoveAppend(y + "@", z, IsAt);
    RemoveNone(y, IsAt);
    RemoveNone(z, IsAt);
  }

  /** `x@y@z` with `@`-free pieces has two `@`s. */
  lemma AtFreeParts(x: string, y: string, z: string, s: string)
    requires '@' !in x && '@' !in y && '@' !in z
    requires s == x + "@" + y + "@" + z
    ensures Count(s, '@') == 2
  {
    NoneCounted(x, '@');
    NoneCounted(y, '@');
    NoneCounted(z, '@');
    CountAppend(x + "@" + y + "@", z, '@');
    CountAppend(x + "@" + y, "@", '@');
    CountAppend(x + "@", y, '@');
    CountAppend(x, "@", '@');
    assert Count("@", '@') == 1 by { assert "@"[1..] == ""; }
  }

  /** The first `@` is at `k`, and there is none before it. */
  lemma FirstAt(s: string, k: nat)
    requires IndexOf(s, "@") == Some(k)
    ensures k < |s| && s[k] == '@' && '@' !in s[..k]
  {
    OccursAtChar(s, "@", k, 0);
    assert "@" == ['@'];
    NoCharBefore(s, '@', k);
    assert forall i :: 0 <= i < k ==> s[..k][i] == s[i];
  }

  /** One `@` followed by a string with every `@` deleted holds exactly one
      `@`, and no space that was not already there. */
  lemma CollapseCount(head: string, rest: string)
    requires '@' !in head
    ensures Count(head + "@" + Remove(rest, IsAt), '@') == 1
    ensures ' ' !in head && ' ' !in rest ==> ' ' !in head + "@" + Remove(rest, IsAt)
  {
    var tail := Remove(rest, IsAt);
    assert forall i :: 0 <= i < |tail| ==> !IsAt(tail[i]);
    CountAppend(head + "@", tail, '@');
    CountAppend(head, "@", '@');
    assert Count("@", '@') == 1 by { assert "@"[1..] == ""; }
    RemoveChars(rest, IsAt);
  }

  /** `if s.isupper(): s = s.lower()`. Afterwards the address is never
      all capitals, and only capitals ever change. */
  function LowerIfUpper(s: string): (r: string)
    ensures |r| == |s| && !IsUpperString(r)
    ensures forall i :: 0 <= i < |s| && !IsUpper(s[i]) ==> r[i] == s[i]
    ensures !IsUpperString(s) ==> r == s
    ensures IsUpperString(s) ==> forall i :: 0 <= i < |s| ==> r[i] == ToLower(s[i])
    ensures ' ' !in s ==> ' ' !in r
  {
    if IsUpperString(s) then
      LowerFacts(s);
      SpaceUncased();
      Lower(s)
    else s
  }

  /** `if s.endswith('.'): s = s[:-1]`. */
  function DropTrailingDot(s: string): (r: string)
    ensures EndsWith(s, ".") ==> r + "." == s
    ensures !EndsWith(s, ".") ==> r == s
    ensures ' ' !in s ==> ' ' !in r
  {
    if EndsWith(s, ".") then s[..|s| - 1] else s
  }

  /** `if s.endswith('gmail'): s = s.replace('gmail', 'gmail.com')`. A
      bare `gmail` ending always gets its `.com`. */
  function CompleteGmail(s: string): (r: string)
    ensures !EndsWith(r, "gmail")
    ensures EndsWith(s, "gmail") ==> EndsWith(r, "gmail.com")
    ensures !EndsWith(s, "gmail") ==> r == s
    ensures ' ' !in s ==> ' ' !in r
  {
    if EndsWith(s, "gmail") then
      var r := ReplaceAll(s, "gmail", "gmail.com");
      ReplaceAllKeepsEnding(s, "gmail", "gmail.com");
      ReplaceAllChars(s, "gmail", "gmail.com");
      assert r[|r| - 1] == 'm' by { assert r[|r| - 9..][8] == 'm'; }
      r
    else s
  }

  /** The final `.com` / `.comm` check: a doubled `m` loses its last
      letter, anything else is returned as it is. */
  function TrimComm(s: string): (r: string)
    ensures !EndsWith(r, ".comm")
    ensures EndsWith(s, ".comm") ==> r + "m" == s && EndsWith(r, ".com")
    ensures !EndsWith(s, ".comm") ==> r == s
    ensures !EndsWith(s, "gmail") ==> !EndsWith(r, "gmail")
    ensures ' ' !in s ==> ' ' !in r
  {
    if EndsWith(s, ".com") then
      assert s[|s| - 2] == 'o' by { assert s[|s| - 4..][2] == 'o'; }
      s
    else if EndsWith(s, ".comm") then
      var r := s[..|s| - 1];
      assert r[|r| - 4..] == s[|s| - 5..|s| - 1];
      assert r[|r| - 2] == 'o' by { assert s[|s| - 5..][3] == 'm'; assert s[|s| - 5..][2] == 'o'; }
      r
    else s
  }

  /** The body of `fix_common_typos` for a string argument. Its result
      has no space, never ends in `.comm`, and never in a bare `gmail`. */
  function FixTypos(email: string): (r: string)
    ensures ' ' !in r
    ensures !EndsWith(r, ".comm") && !EndsWith(r, "gmail")
  {
    CorrectionFacts();
    ApplyTableAvoids(Tidy(email), Corrections, ' ');
    TrimComm(CompleteGmail(DropTrailingDot(LowerIfUpper(CollapseAts(Extract(ApplyTable(Tidy(email), Corrections)))))))
  }

  /** The stages `FixTypos` chains, one after the other. */
  lemma FixTyposStages(email: string) returns (s2: string)
    ensures KeysNonEmpty(Corrections) && s2 == ApplyTable(Tidy(email), Corrections)
    ensures FixTypos(email) == TrimComm(CompleteGmail(DropTrailingDot(LowerIfUpper(CollapseAts(Extract(s2))))))
  {
    CorrectionFacts();
    s2 := ApplyTable(Tidy(email), Corrections);
  }

  /** `fix_common_typos(email)`: `None` passes through; a string is
      cleaned. */
  function FixCommonTypos(email: Option<string>): (r: Option<string>)
    ensures r.None? <==> email.None?
    ensures r.Some? ==> ' ' !in r.value
    ensures r.Some? ==> !EndsWith(r.value, ".comm") && !EndsWith(r.value, "gmail")
  {
    match email
    case None => None
    case Some(s) => Some(FixTypos(s))
  }
}
