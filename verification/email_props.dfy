/** What `fix_common_typos` (form_ggs.py:92-129) does to a well-formed
    `.com` address, to a doubled `@`, and to a `gmail` that is not the
    ending. */
module EmailProps {
  import opened Values
  import opened CharClasses
  import opened Strings
  import opened EmailPattern
  import opened CorrectionTable
  import opened Email

  /** Every character of an address is ASCII and not whitespace. */
  lemma AddressNoSpace(t: string)
    requires IsAddress(t)
    ensures forall i :: 0 <= i < |t| ==> !IsSpace(t[i])
  {
    var a, b :| IsAddressAt(t, a, b);
    forall i | 0 <= i < |t|
      ensures !IsSpace(t[i])
    {
      if i < a {
        assert IsLocalChar(t[i]);
      } else if a < i < b {
        assert IsLabelChar(t[i]);
      } else if b < i {
        assert IsTailChar(t[i]);
      }
    }
  }

  /** One more tail character keeps an address an address. */
  lemma AddressExtend(t: string, c: char)
    requires IsAddress(t) && IsTailChar(c)
    ensures IsAddress(t + [c])
  {
    var a, b :| IsAddressAt(t, a, b);
    assert IsAddressAt(t + [c], a, b);
  }

  /** `.co` is replaced inside `.com` to give `.comm`. */
  lemma CoInCom(com: string)
    requires com == ".com"
    ensures ReplaceAll(com, ".co", ".com") == ".comm"
  {
    assert OccursAt(com, ".co", 0);
    assert IndexOf(com, ".co") == Some(0);
    assert IndexOf("m", ".co") == None;
    SplitStep(com, ".co", 0);
    assert com[3..] == "m";
  }

  /** An occurrence of `.co` in `p + ".com"` that starts inside `p` would
      already be one in `p + ".c"`. */
  lemma NoCoBeforeEnd(p: string)
    requires !Contains(p + ".c", ".co")
    ensures forall j :: 0 <= j < |p| ==> !OccursAt(p + ".com", ".co", j)
  {
    assert p + ".com" == (p + ".c") + "om";
    forall j | 0 <= j < |p|
      ensures !OccursAt(p + ".com", ".co", j)
    {
      OccursAtPrefix(p + ".c", "om", ".co", j);
    }
  }

  /** An occurrence that ends inside the first part is one in it. */
  lemma OccursAtPrefix(a: string, b: string, pat: string, j: int)
    ensures OccursAt(a + b, pat, j) && j + |pat| <= |a| ==> OccursAt(a, pat, j)
  {
    if OccursAt(a + b, pat, j) && j + |pat| <= |a| {
      forall d | 0 <= d < |pat|
        ensures a[j + d] == pat[d]
      {
        assert (a + b)[j + d] == a[j + d];
      }
    }
  }

  /** When the only table key in `p + ".com"` is its final `.co`, the table
      turns the address into `p + ".comm"`. */
  lemma TableOnlyCo(p: string)
    requires !Contains(p + ".c", ".co")
    requires forall j :: 0 <= j < 26 ==> !Contains(p + ".com", Corrections[j].0)
    ensures KeysNonEmpty(Corrections)
    ensures ApplyTable(p + ".com", Corrections) == p + ".comm"
  {
    CorrectionFacts();
    ApplyOnlyLast(p + ".com", Corrections);
    NoCoBeforeEnd(p);
    ReplaceAllSkipsPrefix(p, ".com", ".co", ".com");
    CoInCom(".com");
  }

  /** The last four stages leave `t + "m"` as `t` when `t` ends in `.com`:
      nothing is all capitals, no dot or `gmail` ends it, and the doubled
      `m` is trimmed. */
  lemma FinalStages(t: string, u: string)
    requires EndsWith(t, ".com") && u == t + "m"
    ensures TrimComm(CompleteGmail(DropTrailingDot(LowerIfUpper(u)))) == t
  {
    assert u[|u| - 1] == 'm' && u[|u| - 2] == t[|t| - 1] == 'm';
    assert t[|t| - 2] == 'o' by { assert t[|t| - 4..][2] == 'o'; }
    assert !IsUpperString(u) by { assert IsLower(u[|u| - 1]); }
    assert !EndsWith(u, ".") by { assert u[|u| - 1..][0] == 'm'; }
    assert !EndsWith(u, "gmail") by { assert u[|u| - 5..][4] == 'm'; }
    assert EndsWith(u, ".comm") by {
      assert u[|u| - 5..] == t[|t| - 4..] + "m";
    }
    assert u[..|u| - 1] == t;
  }

  /** `fix_common_typos` gives back a well-formed `.com` address whose
      only table key is the final `.co`: the table makes it `.comm`, and
      the final check trims the extra `m`. */
  lemma CoRoundTrip(p: string)
    requires IsAddress(p + ".com")
    requires |p| > 0 && p[0] != '-'
    requires !Contains(p + ".c", ".co")
    requires forall j :: 0 <= j < 26 ==> !Contains(p + ".com", Corrections[j].0)
    ensures FixTypos(p + ".com") == p + ".com"
  {
    var t := p + ".com";
    var u := CoTableStage(p);
    AddressSettled(u);
    var u' := FixTyposStages(t);
    FinalStages(t, u);
  }

  /** Tidying leaves the address alone and the table appends an `m`. */
  lemma CoTableStage(p: string) returns (u: string)
    requires IsAddress(p + ".com")
    requires |p| > 0 && p[0] != '-'
    requires !Contains(p + ".c", ".co")
    requires forall j :: 0 <= j < 26 ==> !Contains(p + ".com", Corrections[j].0)
    ensures KeysNonEmpty(Corrections)
    ensures u == ApplyTable(Tidy(p + ".com"), Corrections) && u == (p + ".com") + "m" && IsAddress(u)
  {
    var t := p + ".com";
    AddressNoSpace(t);
    assert t[0] == p[0] && t[|t| - 1] == 'm';
    TidyKeeps(t);
    TableOnlyCo(p);
    u := p + ".comm";
    AppendM(p);
    AddressExtend(t, 'm');
  }

  /** An address is its own match and holds one `@`, so the search and the
      collapse leave it alone. */
  lemma AddressSettled(u: string)
    requires IsAddress(u)
    ensures CollapseAts(Extract(u)) == u
  {
    ExtractWhole(u);
    AddressOneAt(u);
  }

  lemma AppendM(p: string)
    ensures p + ".comm" == (p + ".com") + "m"
  {
  }

  /** The doubled `@` of `a@@b.com` belongs to no address, so the search
      leaves the string alone. */
  lemma DoubleAtNoMatch(s: string)
    requires s == "a@@b.comm"
    ensures Search(s).None?
  {
    assert MatchAt(s, 0).None? by { assert Span(s, 0, IsLocalChar) == 1; assert Span(s, 2, IsLabelChar) == 2; }
    assert MatchAt(s, 1).None? by { assert Span(s, 1, IsLocalChar) == 1; }
    assert MatchAt(s, 2).None? by { assert Span(s, 2, IsLocalChar) == 2; }
    forall i | 3 <= i <= |s|
      ensures MatchAt(s, i).None?
    {
      assert forall k :: i <= k < |s| ==> IsLocalChar(s[k]);
      SpanToEnd(s, i, IsLocalChar);
    }
  }

  /** A run of `p`-characters to the end of the string spans to the end. */
  lemma {:induction false} SpanToEnd(s: string, i: nat, p: char -> bool)
    requires i <= |s| && forall k :: i <= k < |s| ==> p(s[k])
    ensures Span(s, i, p) == |s|
    decreases |s| - i
  {
    if i < |s| {
      SpanToEnd(s, i + 1, p);
    }
  }

  /** No key of the table but `.co` occurs in `a@@b.com`. */
  lemma DoubleAtKeys(t: string)
    requires t == "a@@b.com"
    ensures forall j :: 0 <= j < 26 ==> !Contains(t, Corrections[j].0)
  {
    KeysAbsent(t);
  }

  /** One of the seven characters the worked addresses are made of. */
  predicate IsPlainChar(c: char) {
    c == 'a' || c == 'b' || c == 'c' || c == 'm' || c == 'o' || c == '.' || c == '@'
  }

  /** Of the first 26 keys only `.cm` can be spelled in plain characters,
      so a plain text with no `.` two places before an `m` holds none of
      them. */
  lemma KeysAbsent(t: string)
    requires forall i :: 0 <= i < |t| ==> IsPlainChar(t[i])
    requires forall i :: 0 <= i < |t| - 2 && t[i] == '.' ==> t[i + 2] != 'm'
    ensures forall j :: 0 <= j < 26 ==> !Contains(t, Corrections[j].0)
  {
    NoCm(t);
    KeysAbsentFrom(t, 0, 13);
    KeysAbsentFrom(t, 13, 26);
  }

  /** Every key in `Corrections[lo..hi]` other than `.cm` holds a
      character that is not plain. */
  lemma KeysAbsentFrom(t: string, lo: nat, hi: nat)
    requires forall i :: 0 <= i < |t| ==> IsPlainChar(t[i])
    requires (lo, hi) in {(0, 13), (13, 26)}
    ensures forall j :: lo <= j < hi && j != 2 ==> !Contains(t, Corrections[j].0)
  {
    // w[j] is a character of key j that is not plain; position 2, where
    // the key `.cm` is spelled in plain characters, holds a placeholder.
    var w := "dg_gygyghtggyygghngyggggGn";
    forall j | lo <= j < hi && j != 2
      ensures !Contains(t, Corrections[j].0)
    {
      assert !IsPlainChar(w[j]);
      ForeignChar(t, Corrections[j].0, w[j]);
    }
  }

  /** `.cm` needs a `.` two places before an `m`. */
  lemma NoCm(t: string)
    requires forall i :: 0 <= i < |t| - 2 && t[i] == '.' ==> t[i + 2] != 'm'
    ensures !Contains(t, Corrections[2].0)
  {
    assert Corrections[2].0 == ".cm";
    forall i | 0 <= i
      ensures !OccursAt(t, ".cm", i)
    {
      OccursAtChar(t, ".cm", i, 0);
      OccursAtChar(t, ".cm", i, 2);
    }
  }

  /** A pattern holding a character the string lacks does not occur in it. */
  lemma ForeignChar(s: string, pat: string, c: char)
    requires c in pat && c !in s
    ensures !Contains(s, pat)
  {
  }

  /** `a@@b.com` becomes `a@b.com`: `.co` grows it to `a@@b.comm`, no
      address matches, the second `@` is dropped and the extra `m`
      trimmed. */
  lemma DoubleAt(e: string)
    requires e == "a@@b.com"
    ensures FixTypos(e) == "a@b.com"
  {
    var s := DoubleAtTable(e);
    DoubleAtNoMatch(s);
    var c := DoubleAtCollapse(s);
    var s' := FixTyposStages(e);
    SingleAtEndsCom("a@b.com");
    FinalStages("a@b.com", c);
  }

  lemma SingleAtEndsCom(t: string)
    requires t == "a@b.com"
    ensures EndsWith(t, ".com")
  {
    assert t[|t| - 4..] == ".com";
  }

  /** Tidying changes nothing in `a@@b.com`, and the table only turns its
      `.co` into `.com`. */
  lemma DoubleAtTable(e: string) returns (s: string)
    requires e == "a@@b.com"
    ensures KeysNonEmpty(Corrections)
    ensures s == ApplyTable(Tidy(e), Corrections) && s == "a@@b.comm"
  {
    DoubleAtTidy(e);
    DoubleAtKeys(e);
    var p := DoubleAtPrefix(e);
    TableOnlyCo(p);
    s := p + ".comm";
  }

  lemma DoubleAtTidy(e: string)
    requires e == "a@@b.com"
    ensures Tidy(e) == e
  {
    assert forall i :: 0 <= i < |e| ==> !IsSpace(e[i]);
    TidyKeeps(e);
  }

  lemma DoubleAtPrefix(e: string) returns (p: string)
    requires e == "a@@b.com"
    ensures e == p + ".com" && p + ".comm" == "a@@b.comm" && !Contains(p + ".c", ".co")
  {
    p := "a@@b";
    ForeignChar(p + ".c", ".co", 'o');
  }

  /** Collapsing `a@@b.comm` keeps the first `@` and drops the second. */
  lemma DoubleAtCollapse(s: string) returns (c: string)
    requires s == "a@@b.comm"
    ensures c == CollapseAts(s) && c == "a@b.com" + "m"
  {
    DoubleAtCount(s);
    var rest := DoubleAtFirst(s);
    CollapseShape(s, 1);
    DoubleAtRest(rest);
    c := CollapseAts(s);
    DoubleAtJoin(c);
  }

  lemma DoubleAtCount(s: string)
    requires s == "a@@b.comm"
    ensures Count(s, '@') == 2
  {
    assert s == "a" + "@@" + "b.comm";
    assert '@' !in "a" && '@' !in "b.comm";
    CountPair("a", "b.comm", '@');
  }

  /** Two copies of `c` between texts without it count twice. */
  lemma CountPair(x: string, y: string, c: char)
    requires c !in x && c !in y
    ensures Count(x + [c, c] + y, c) == 2
  {
    CountAppend(x + [c, c], y, c);
    CountAppend(x, [c, c], c);
    assert [c, c][1..] == [c];
  }

  lemma DoubleAtFirst(s: string) returns (rest: string)
    requires s == "a@@b.comm"
    ensures IndexOf(s, "@") == Some(1) && s[..1] == "a" && s[2..] == rest && rest == "@b.comm"
  {
    assert OccursAt(s, "@", 1);
    assert s[0 + 0] != "@"[0];
    rest := s[2..];
  }

  lemma DoubleAtRest(rest: string)
    requires rest == "@b.comm"
    ensures Remove(rest, IsAt) == "b.comm"
  {
    assert rest == "@" + "b.comm";
    RemoveAppend("@", "b.comm", IsAt);
    assert Remove("@", IsAt) == "" by { assert "@"[1..] == ""; }
    RemoveNone("b.comm", IsAt);
  }

  lemma DoubleAtJoin(c: string)
    requires c == "a" + "@" + "b.comm"
    ensures c == "a@b.com" + "m"
  {
  }

  /** Line 121 rewrites every `gmail`, not only the bare ending: a text
      whose pieces between the `gmail`s hold no `g` and which ends in
      `gmail` has each of them completed. */
  lemma GmailEverywhere(xs: seq<string>)
    requires |xs| >= 2 && xs[|xs| - 1] == ""
    requires forall i :: 0 <= i < |xs| ==> 'g' !in xs[i]
    ensures CompleteGmail(Join(xs, "gmail")) == Join(xs, "gmail.com")
  {
    SplitJoin(xs, "gmail");
    JoinEndsWithSep(xs, "gmail");
  }

  /** Two `gmail`s, the second at the end: both are completed, so
      `me.gmail@gmail` becomes `me.gmail.com@gmail.com`. */
  lemma GmailTwice(a: string, b: string)
    requires 'g' !in a && 'g' !in b
    ensures CompleteGmail(a + "gmail" + b + "gmail") == a + "gmail.com" + b + "gmail.com"
  {
    var xs := [a, b, ""];
    GmailEverywhere(xs);
    JoinThree(a, b, "", "gmail");
    JoinThree(a, b, "", "gmail.com");
    assert a + "gmail" + b + "gmail" + "" == a + "gmail" + b + "gmail";
    assert a + "gmail.com" + b + "gmail.com" + "" == a + "gmail.com" + b + "gmail.com";
  }

  lemma JoinThree(a: string, b: string, c: string, sep: string)
    ensures Join([a, b, c], sep) == a + sep + b + sep + c
  {
    assert [a, b, c][1..] == [b, c];
    assert [b, c][1..] == [c];
    assert Join([b, c], sep) == b + sep + c;
    assert Join([a, b, c], sep) == a + sep + (b + sep + c);
  }

  /** `fix_common_typos` is not idempotent: `.co` at line 88 is rewritten
      wherever it occurs, so a `.com` inside the local part grows an `m` on
      every pass. With `x` = `a` and `y` = `b`, `a.co@b.com` becomes
      `a.com@b.com`, which becomes `a.comm@b.com`. */
  lemma CoNotIdempotent(x: string, y: string)
    requires Letters(x) && Letters(y)
    ensures FixTypos(x + ".co@" + y + ".com") == x + ".com@" + y + ".com"
    ensures FixTypos(x + ".com@" + y + ".com") == x + ".comm@" + y + ".com"
    ensures FixTypos(FixTypos(x + ".co@" + y + ".com")) != FixTypos(x + ".co@" + y + ".com")
  {
    var e1, e2, e3 := x + ".co@" + y + ".com", x + ".com@" + y + ".com", x + ".comm@" + y + ".com";
    CoSpellings(x, y, e1, e2, e3);
    CoLocal(x, "", y, e1, e2);
    CoLocal(x, "m", y, e2, e3);
  }

  lemma CoSpellings(x: string, y: string, e1: string, e2: string, e3: string)
    requires e1 == x + ".co@" + y + ".com" && e2 == x + ".com@" + y + ".com" && e3 == x + ".comm@" + y + ".com"
    ensures e1 == x + ".co" + "" + "@" + y + ".com" && e2 == x + ".com" + "" + "@" + y + ".com"
    ensures e2 == x + ".co" + "m" + "@" + y + ".com" && e3 == x + ".com" + "m" + "@" + y + ".com"
    ensures forall i :: 0 <= i < |"m"| ==> IsPlainLetter("m"[i])
  {
  }

  /** Letters that spell no key, are no separator, and fit every part of
      an address. */
  predicate IsPlainLetter(c: char) {
    c == 'a' || c == 'b' || c == 'c' || c == 'm' || c == 'o'
  }

  predicate Letters(x: string) {
    |x| > 0 && forall i :: 0 <= i < |x| ==> IsPlainLetter(x[i])
  }

  /** One pass over an address whose local part holds `.co`: both `.co`
      become `.com`, and only the one at the end loses its extra `m`. */
  lemma CoLocal(x: string, w: string, y: string, e: string, t: string)
    requires Letters(x) && Letters(y) && forall i :: 0 <= i < |w| ==> IsPlainLetter(w[i])
    requires e == x + ".co" + w + "@" + y + ".com" && t == x + ".com" + w + "@" + y + ".com"
    ensures FixTypos(e) == t && |t| == |e| + 1
  {
    var u := CoLocalTable(x, w, y, e, t);
    AddressSettled(u);
    var s2 := FixTyposStages(e);
    FinalStages(t, u);
  }

  /** Tidying changes nothing, and of the table only the last rewrite
      applies: it turns both `.co` into `.com`, which gives an address
      ending in `.comm`. */
  lemma CoLocalTable(x: string, w: string, y: string, e: string, t: string) returns (u: string)
    requires Letters(x) && Letters(y) && forall i :: 0 <= i < |w| ==> IsPlainLetter(w[i])
    requires e == x + ".co" + w + "@" + y + ".com" && t == x + ".com" + w + "@" + y + ".com"
    ensures KeysNonEmpty(Corrections)
    ensures u == ApplyTable(Tidy(e), Corrections) && u == t + "m"
    ensures IsAddress(u) && EndsWith(t, ".com")
  {
    var mid := w + "@" + y;
    assert e == x + ".co" + mid + ".co" + "m";
    assert t + "m" == x + ".com" + mid + ".com" + "m";
    CoJoins(e, x, mid, "m");
    CoLocalShape(x, w, y);
    CoWorked(e, t, |x| + 4 + |w|, |x| + 5 + |w| + |y|);
    CorrectionFacts();
    ApplyOnlyLast(e, Corrections);
    u := t + "m";
  }

  /** Where the characters of the two addresses of `CoLocal` sit. */
  lemma CoLocalShape(x: string, w: string, y: string)
    requires Letters(x) && Letters(y) && forall i :: 0 <= i < |w| ==> IsPlainLetter(w[i])
    ensures var e := x + ".co" + w + "@" + y + ".com";
      && (forall i :: 0 <= i < |e| ==> IsPlainChar(e[i]))
      && (forall i :: 0 <= i < |e| - 2 && e[i] == '.' ==> e[i + 2] != 'm')
      && e[0] != '-' && e[|e| - 1] != '-'
    ensures var t := x + ".com" + w + "@" + y + ".com";
      |t| >= 4 && t[|t| - 4..] == ".com" && IsAddressAt(t + "m", |x| + 4 + |w|, |x| + 5 + |w| + |y|)
  {
  }

  /** Three dot-free pieces joined by `.co` have each `.co` rewritten. */
  lemma CoJoins(e: string, x: string, y: string, z: string)
    requires '.' !in x && '.' !in y && '.' !in z && e == x + ".co" + y + ".co" + z
    ensures ReplaceAll(e, ".co", ".com") == x + ".com" + y + ".com" + z
  {
    JoinThree(x, y, z, ".co");
    JoinThree(x, y, z, ".com");
    ReplaceJoined([x, y, z], ".co", ".com");
  }

  /** The facts about a worked plain address that a pass needs: no other
      key, nothing to tidy, and `t + "m"` an address split at `a` and
      `b`. */
  lemma CoWorked(e: string, t: string, a: nat, b: nat)
    requires forall i :: 0 <= i < |e| ==> IsPlainChar(e[i])
    requires forall i :: 0 <= i < |e| - 2 && e[i] == '.' ==> e[i + 2] != 'm'
    requires |e| > 0 && e[0] != '-' && e[|e| - 1] != '-'
    requires |t| >= 4 && t[|t| - 4..] == ".com" && IsAddressAt(t + "m", a, b)
    ensures forall j :: 0 <= j < 26 ==> !Contains(e, Corrections[j].0)
    ensures Tidy(e) == e && EndsWith(t, ".com") && IsAddress(t + "m")
  {
    KeysAbsent(e);
    TidyKeeps(e);
  }
}
