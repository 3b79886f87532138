/** `email_pattern` (form_ggs.py:90), `[a-zA-Z0-9_.+-]+@[a-zA-Z0-9-]+\.[a-zA-Z0-9-.]+`,
    as a hand-written recogniser. No class contains `@` and the middle class
    excludes `.`, so the first two runs are forced to be maximal and the
    backtracking engine has only one way to succeed from a given start. */
module EmailPattern {
  import opened Values
  import opened CharClasses
  import opened Strings

  /** `[a-zA-Z0-9_.+-]`: the part before `@`. */
  predicate IsLocalChar(c: char) {
    IsAsciiAlnum(c) || c == '_' || c == '.' || c == '+' || c == '-'
  }

  /** `[a-zA-Z0-9-]`: the part between `@` and the first `.`. */
  predicate IsLabelChar(c: char) {
    IsAsciiAlnum(c) || c == '-'
  }

  /** `[a-zA-Z0-9-.]`: the part after that `.`. */
  predicate IsTailChar(c: char) {
    IsAsciiAlnum(c) || c == '-' || c == '.'
  }

  /** `t` splits at `@` (index `a`) and `.` (index `b`) into three
      non-empty runs of the three classes. */
  predicate IsAddressAt(t: string, a: int, b: int) {
    && 0 < a && a + 1 < b && b + 1 < |t|
    && t[a] == '@' && t[b] == '.'
    && (forall k :: 0 <= k < a ==> IsLocalChar(t[k]))
    && (forall k :: a < k < b ==> IsLabelChar(t[k]))
    && (forall k :: b < k < |t| ==> IsTailChar(t[k]))
  }

  /** The whole of `t` matches the pattern. */
  ghost predicate IsAddress(t: string) {
    exists a, b :: IsAddressAt(t, a, b)
  }

  /** The end of the match the pattern makes starting at `i`, if any. The
      tail run is greedy, so this is the longest match from `i`. */
  function MatchAt(s: string, i: nat): (m: Option<nat>)
    requires i <= |s|
    ensures m.Some? ==> i < m.value <= |s| && IsAddress(s[i..m.value])
  {
    var e1 := Span(s, i, IsLocalChar);
    if e1 == i || e1 == |s| || s[e1] != '@' then None
    else
      var e2 := Span(s, e1 + 1, IsLabelChar);
      if e2 == e1 + 1 || e2 == |s| || s[e2] != '.' then None
      else
        var e3 := Span(s, e2 + 1, IsTailChar);
        if e3 == e2 + 1 then None
        else
          assert IsAddressAt(s[i..e3], e1 - i, e2 - i);
          Some(e3)
  }

  /** Any match from `i` is found, and the one found is at least as long. */
  lemma MatchAtComplete(s: string, i: nat, j: nat)
    requires i <= j <= |s| && IsAddress(s[i..j])
    ensures MatchAt(s, i).Some? && j <= MatchAt(s, i).value
  {
    var t := s[i..j];
    var a, b :| IsAddressAt(t, a, b);
    SliceRuns(s, i, j, a, b);
    RunsMatch(s, i, j, i + a, i + b);
  }

  /** Runs of the three classes from `i` to `j`, split at `@` (index `at`)
      and `.` (index `dot`), are found by the matcher, which may extend the
      last run further. */
  lemma RunsMatch(s: string, i: nat, j: nat, at: nat, dot: nat)
    requires i < at && at + 1 < dot && dot + 1 < j <= |s|
    requires s[at] == '@' && s[dot] == '.'
    requires forall k :: i <= k < at ==> IsLocalChar(s[k])
    requires forall k :: at + 1 <= k < dot ==> IsLabelChar(s[k])
    requires forall k :: dot + 1 <= k < j ==> IsTailChar(s[k])
    ensures MatchAt(s, i).Some? && j <= MatchAt(s, i).value
  {
    SpanCovers(s, i, at, IsLocalChar);
    SpanCovers(s, at + 1, dot, IsLabelChar);
    SpanCovers(s, dot + 1, j, IsTailChar);
    MatchAtFound(s, i, at, dot, Span(s, dot + 1, IsTailChar));
  }

  /** Three runs of the right classes, separated by `@` and `.`, are the
      match found from `i`. */
  lemma MatchAtFound(s: string, i: nat, e1: nat, e2: nat, e3: nat)
    requires i < e1 < e2 < e3 <= |s| && e1 + 1 < e2 && e2 + 1 < e3
    requires e1 == Span(s, i, IsLocalChar) && s[e1] == '@'
    requires e2 == Span(s, e1 + 1, IsLabelChar) && s[e2] == '.'
    requires e3 == Span(s, e2 + 1, IsTailChar)
    ensures MatchAt(s, i) == Some(e3)
  {
  }

  /** The runs of an address in a slice are runs of the whole text. */
  lemma SliceRuns(s: string, i: nat, j: nat, a: int, b: int)
    requires i <= j <= |s| && IsAddressAt(s[i..j], a, b)
    ensures 0 < a && a + 1 < b && i + b + 1 < j
    ensures s[i + a] == '@' && s[i + b] == '.'
    ensures forall k :: i <= k < i + a ==> IsLocalChar(s[k])
    ensures forall k :: i + a + 1 <= k < i + b ==> IsLabelChar(s[k])
    ensures forall k :: i + b + 1 <= k < j ==> IsTailChar(s[k])
  {
    var t := s[i..j];
    assert forall k :: i <= k < j ==> s[k] == t[k - i];
  }

  /** `re.match`: the pattern matches from `i` exactly when some slice
      starting at `i` is an address. */
  lemma MatchAtIff(s: string, i: nat)
    requires i <= |s|
    ensures MatchAt(s, i).Some? <==> exists j :: i <= j <= |s| && IsAddress(s[i..j])
  {
    if MatchAt(s, i).Some? {
      var j := MatchAt(s, i).value;
      assert i <= j <= |s| && IsAddress(s[i..j]);
    }
    if exists j :: i <= j <= |s| && IsAddress(s[i..j]) {
      var j :| i <= j <= |s| && IsAddress(s[i..j]);
      MatchAtComplete(s, i, j);
    }
  }

  /** `pattern.search(s)` from `from` on: the leftmost start with a match,
      and that match's end. */
  function SearchFrom(s: string, from: nat): (r: Option<(nat, nat)>)
    requires from <= |s|
    ensures r.Some? ==> from <= r.value.0 <= |s| && MatchAt(s, r.value.0) == Some(r.value.1)
    ensures r.Some? ==> forall k :: from <= k < r.value.0 ==> MatchAt(s, k).None?
    ensures r.None? ==> forall k :: from <= k <= |s| ==> MatchAt(s, k).None?
    decreases |s| - from
  {
    match MatchAt(s, from)
    case Some(e) => Some((from, e))
    case None => if from == |s| then None else SearchFrom(s, from + 1)
  }

  /** `email_pattern.search(s)`: start and end of the leftmost match, which
      is the longest match from that start. */
  function Search(s: string): (r: Option<(nat, nat)>)
    ensures r.Some? ==> r.value.0 < r.value.1 <= |s| && IsAddress(s[r.value.0..r.value.1])
    ensures r.Some? ==> MatchAt(s, r.value.0) == Some(r.value.1)
    ensures r.Some? ==> forall k :: 0 <= k < r.value.0 ==> MatchAt(s, k).None?
    ensures r.None? ==> forall k :: 0 <= k <= |s| ==> MatchAt(s, k).None?
  {
    SearchFrom(s, 0)
  }

  /** `search` finds nothing exactly when no slice of `s` is an address. */
  lemma SearchNoneIff(s: string)
    ensures Search(s).None? <==> forall i, j :: 0 <= i <= j <= |s| ==> !IsAddress(s[i..j])
  {
    if Search(s).None? {
      forall i, j | 0 <= i <= j <= |s|
        ensures !IsAddress(s[i..j])
      {
        if IsAddress(s[i..j]) {
          MatchAtComplete(s, i, j);
        }
      }
    }
  }

  /** A string that is an address is found whole. */
  lemma SearchWhole(t: string)
    requires IsAddress(t)
    ensures Search(t) == Some((0, |t|))
  {
    assert t[0..|t|] == t;
    MatchAtComplete(t, 0, |t|);
  }

  /** No address holds `@` except at its split point, so it has one `@`. */
  lemma AddressOneAt(t: string)
    requires IsAddress(t)
    ensures Count(t, '@') == 1
  {
    var a, b :| IsAddressAt(t, a, b);
    SplitOneAt(t, a, b);
  }

  lemma SplitOneAt(t: string, a: int, b: int)
    requires IsAddressAt(t, a, b)
    ensures Count(t, '@') == 1
  {
    NoOtherAt(t, a, b);
    var front, back := t[..a], t[a + 1..];
    assert t == front + ([t[a]] + back);
    CountAppend(front, [t[a]] + back, '@');
    CountAppend([t[a]], back, '@');
    NoneCounted(front, '@');
    NoneCounted(back, '@');
  }

  /** Only the split point holds `@`. */
  lemma NoOtherAt(t: string, a: int, b: int)
    requires IsAddressAt(t, a, b)
    ensures forall k :: 0 <= k < |t| && k != a ==> t[k] != '@'
  {
    forall k | 0 <= k < |t| && k != a
      ensures t[k] != '@'
    {
      if k < a {
        assert IsLocalChar(t[k]);
      } else if k < b {
        assert IsLabelChar(t[k]);
      } else if b < k {
        assert IsTailChar(t[k]);
      }
    }
  }

  lemma NoneCounted(s: string, c: char)
    requires forall k :: 0 <= k < |s| ==> s[k] != c
    ensures Count(s, c) == 0
  {
  }
}
