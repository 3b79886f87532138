/** The handful of Python `str` operations the cleaning pipeline is built
    from, each with the characterisation that pins down what it returns. */
module Strings {
  import opened Values

  /** Every character of `s` satisfies `p`. */
  predicate All(s: string, p: char -> bool) {
    forall i :: 0 <= i < |s| ==> p(s[i])
  }

  predicate StartsWith(s: string, prefix: string) {
    |prefix| <= |s| && s[..|prefix|] == prefix
  }

  predicate EndsWith(s: string, suffix: string) {
    |suffix| <= |s| && s[|s| - |suffix|..] == suffix
  }

  /** `pat` occurs in `s` starting at index `i`. */
  predicate OccursAt(s: string, pat: string, i: int) {
    0 <= i && i + |pat| <= |s| && forall t :: 0 <= t < |pat| ==> s[i + t] == pat[t]
  }

  /** End of the longest run of `p`-characters starting at `i`: the run
      `s[i..e]` is all `p`, and it stops at the end or at a non-`p`. */
  function Span(s: string, i: nat, p: char -> bool): (e: nat)
    requires i <= |s|
    ensures i <= e <= |s|
    ensures forall j :: i <= j < e ==> p(s[j])
    ensures e == |s| || !p(s[e])
    decreases |s| - i
  {
    if i == |s| || !p(s[i]) then i else Span(s, i + 1, p)
  }

  /** A run of `p` from `i` to `j` is covered by the span from `i`, and
      the span stops at `j` when `s[j]` fails `p`. */
  lemma {:induction false} SpanCovers(s: string, i: nat, j: nat, p: char -> bool)
    requires i <= j <= |s|
    requires forall k :: i <= k < j ==> p(s[k])
    ensures j <= Span(s, i, p)
    ensures j < |s| && !p(s[j]) ==> Span(s, i, p) == j
    decreases j - i
  {
    if i < j {
      SpanCovers(s, i + 1, j, p);
    }
  }

  /** First occurrence of `pat` at or after `from` (`str.find`). */
  function IndexFrom(s: string, pat: string, from: nat): (r: Option<nat>)
    requires from <= |s|
    ensures r.Some? ==> from <= r.value && OccursAt(s, pat, r.value)
    ensures r.Some? ==> forall j :: from <= j < r.value ==> !OccursAt(s, pat, j)
    ensures r.None? ==> forall j :: from <= j ==> !OccursAt(s, pat, j)
    decreases |s| - from
  {
    if from + |pat| > |s| then None
    else if OccursAt(s, pat, from) then Some(from)
    else IndexFrom(s, pat, from + 1)
  }

  function IndexOf(s: string, pat: string): (r: Option<nat>)
    ensures r.Some? ==> OccursAt(s, pat, r.value)
    ensures r.Some? ==> forall j :: 0 <= j < r.value ==> !OccursAt(s, pat, j)
    ensures r.None? ==> forall j :: !OccursAt(s, pat, j)
  {
    IndexFrom(s, pat, 0)
  }

  /** Python's `pat in s`. */
  predicate Contains(s: string, pat: string) {
    IndexOf(s, pat).Some?
  }

  /** `sep.join(parts)`. */
  function Join(parts: seq<string>, sep: string): string
  {
    if |parts| == 0 then ""
    else if |parts| == 1 then parts[0]
    else parts[0] + sep + Join(parts[1..], sep)
  }

  /** `''.join(parts)`. */
  function Concat(parts: seq<string>): string
  {
    if |parts| == 0 then "" else parts[0] + Concat(parts[1..])
  }

  /** `s.split(sep)` for a non-empty separator: the pieces between
      left-to-right, non-overlapping occurrences of `sep`. */
  function Split(s: string, sep: string): (parts: seq<string>)
    requires |sep| > 0
    ensures |parts| >= 1
    ensures forall i :: 0 <= i < |parts| ==> |parts[i]| <= |s|
    ensures Contains(s, sep) ==> forall i :: 0 <= i < |parts| ==> |parts[i]| < |s|
    decreases |s|
  {
    match IndexOf(s, sep)
    case None => [s]
    case Some(k) => [s[..k]] + Split(s[k + |sep|..], sep)
  }

  /** No piece of a split holds the separator, and every character of a
      piece is a character of the split string. */
  lemma {:induction false} SplitPieces(s: string, sep: string)
    requires |sep| > 0
    ensures forall i :: 0 <= i < |Split(s, sep)| ==> !Contains(Split(s, sep)[i], sep)
    ensures forall i, j :: 0 <= i < |Split(s, sep)| && 0 <= j < |Split(s, sep)[i]| ==>
      Split(s, sep)[i][j] in s
    decreases |s|
  {
    match IndexOf(s, sep)
    case None =>
    case Some(k) =>
      var head, rest := s[..k], s[k + |sep|..];
      assert Split(s, sep) == [head] + Split(rest, sep);
      SplitPieces(rest, sep);
      assert !Contains(head, sep) by {
        forall j | 0 <= j
          ensures !OccursAt(head, sep, j)
        {
          if OccursAt(head, sep, j) {
            assert OccursAt(s, sep, j);
          }
        }
      }
      var parts := Split(rest, sep);
      forall i, j | 0 <= i < |parts| && 0 <= j < |parts[i]|
        ensures parts[i][j] in s
      {
        var n :| 0 <= n < |rest| && rest[n] == parts[i][j];
        assert s[k + |sep| + n] == parts[i][j];
      }
  }

  /** One step of `s.split(sep)`: the piece before the first separator,
      then the split of the remainder after it. */
  lemma SplitStep(s: string, sep: string, k: nat)
    requires |sep| > 0 && IndexOf(s, sep) == Some(k)
    ensures Split(s, sep) == [s[..k]] + Split(s[k + |sep|..], sep)
  {
  }

  /** `sep.join` of a list with a head and a non-empty rest. */
  lemma JoinCons(x: string, xs: seq<string>, sep: string)
    requires |xs| > 0
    ensures Join([x] + xs, sep) == x + sep + Join(xs, sep)
  {
    assert ([x] + xs)[1..] == xs;
  }

  /** `s.replace(pat, rep)`: every left-to-right, non-overlapping
      occurrence of `pat` is replaced by `rep`; Python's replace is
      `rep.join(s.split(pat))`. */
  function ReplaceAll(s: string, pat: string, rep: string): string
    requires |pat| > 0
  {
    Join(Split(s, pat), rep)
  }

  /** A longer separator makes a longer join. */
  lemma {:induction false} JoinLength(xs: seq<string>, a: string, b: string)
    requires |a| <= |b|
    ensures |Join(xs, a)| <= |Join(xs, b)|
    decreases |xs|
  {
    if |xs| > 1 {
      JoinLength(xs[1..], a, b);
    }
  }

  /** Replacing by something no longer than the pattern never lengthens the
      string, and replacing a pattern that does not occur changes nothing. */
  lemma ReplaceAllLength(s: string, pat: string, rep: string)
    requires |pat| > 0
    ensures !Contains(s, pat) ==> ReplaceAll(s, pat, rep) == s
    ensures |rep| <= |pat| ==> |ReplaceAll(s, pat, rep)| <= |s|
  {
    JoinSplit(s, pat);
    if |rep| <= |pat| {
      JoinLength(Split(s, pat), rep, pat);
    }
  }

  /** Every character of a join comes from a piece or from the separator. */
  lemma {:induction false} JoinChars(xs: seq<string>, sep: string)
    ensures forall i :: 0 <= i < |Join(xs, sep)| ==>
      Join(xs, sep)[i] in sep || exists n :: 0 <= n < |xs| && Join(xs, sep)[i] in xs[n]
    decreases |xs|
  {
    if |xs| > 1 {
      JoinChars(xs[1..], sep);
      var j := Join(xs, sep);
      var rest := Join(xs[1..], sep);
      assert j == xs[0] + sep + rest;
      forall i | 0 <= i < |j| && j[i] !in sep
        ensures exists n :: 0 <= n < |xs| && j[i] in xs[n]
      {
        if i < |xs[0]| {
          assert j[i] in xs[0];
        } else {
          var m := i - |xs[0]| - |sep|;
          assert j[i] == rest[m];
          var n :| 0 <= n < |xs[1..]| && rest[m] in xs[1..][n];
          assert j[i] in xs[n + 1];
        }
      }
    } else if |xs| == 1 {
      assert Join(xs, sep) == xs[0];
    }
  }

  /** Every character of `s.replace(pat, rep)` comes from `s` or from `rep`;
      and a one-character pattern not in `rep` is gone from the result. */
  lemma ReplaceAllChars(s: string, pat: string, rep: string)
    requires |pat| > 0
    ensures forall i :: 0 <= i < |ReplaceAll(s, pat, rep)| ==>
      ReplaceAll(s, pat, rep)[i] in s || ReplaceAll(s, pat, rep)[i] in rep
    ensures |pat| == 1 && pat[0] !in rep ==> pat[0] !in ReplaceAll(s, pat, rep)
  {
    var parts := Split(s, pat);
    var r := ReplaceAll(s, pat, rep);
    SplitPieces(s, pat);
    JoinChars(parts, rep);
    forall i | 0 <= i < |r| && r[i] !in rep
      ensures r[i] in s
    {
      var n :| 0 <= n < |parts| && r[i] in parts[n];
      var j :| 0 <= j < |parts[n]| && parts[n][j] == r[i];
    }
    if |pat| == 1 && pat[0] !in rep && pat[0] in r {
      var i :| 0 <= i < |r| && r[i] == pat[0];
      var n :| 0 <= n < |parts| && r[i] in parts[n];
      var j :| 0 <= j < |parts[n]| && parts[n][j] == pat[0];
      assert OccursAt(parts[n], pat, j);
      assert false;
    }
  }

  /** `re.sub(cls, '', s)` for a one-character class: drop every `p`-character. */
  function Remove(s: string, p: char -> bool): (r: string)
    ensures |r| <= |s|
    ensures forall i :: 0 <= i < |r| ==> !p(r[i])
  {
    if |s| == 0 then ""
    else if p(s[0]) then Remove(s[1..], p)
    else [s[0]] + Remove(s[1..], p)
  }

  /** Nothing to remove leaves the string as it is. */
  lemma {:induction false} RemoveNone(s: string, p: char -> bool)
    requires forall i :: 0 <= i < |s| ==> !p(s[i])
    ensures Remove(s, p) == s
    decreases |s|
  {
    if |s| > 0 {
      RemoveNone(s[1..], p);
      assert s == [s[0]] + s[1..];
    }
  }

  /** A string of removed characters leaves nothing. */
  lemma {:induction false} RemoveEvery(s: string, p: char -> bool)
    requires forall i :: 0 <= i < |s| ==> p(s[i])
    ensures Remove(s, p) == ""
    decreases |s|
  {
    if |s| > 0 {
      RemoveEvery(s[1..], p);
    }
  }

  /** What `Remove` keeps comes from `s`. */
  lemma {:induction false} RemoveChars(s: string, p: char -> bool)
    ensures forall i :: 0 <= i < |Remove(s, p)| ==> Remove(s, p)[i] in s
    decreases |s|
  {
    if |s| > 0 {
      RemoveChars(s[1..], p);
      var r := Remove(s[1..], p);
      assert forall c :: c in r ==> c in s[1..];
      assert forall c :: c in s[1..] ==> c in s;
    }
  }

  /** `s.lstrip(chars)` for the characters satisfying `p`. */
  function TrimStart(s: string, p: char -> bool): (r: string)
  {
    s[Span(s, 0, p)..]
  }

  /** `s.rstrip(chars)` for the characters satisfying `p`. */
  function TrimEnd(s: string, p: char -> bool): (r: string)
    ensures |r| <= |s| && r == s[..|r|]
    ensures forall i :: |r| <= i < |s| ==> p(s[i])
    ensures |r| > 0 ==> !p(r[|r| - 1])
  {
    if |s| > 0 && p(s[|s| - 1]) then TrimEnd(s[..|s| - 1], p) else s
  }

  /** `s.strip(chars)`: the slice of `s` left once every leading and
      trailing `p`-character is gone. */
  function Strip(s: string, p: char -> bool): (r: string)
    ensures |r| <= |s|
    ensures forall i :: 0 <= i < |r| ==> r[i] in s
    ensures |r| > 0 ==> !p(r[0]) && !p(r[|r| - 1])
    ensures |s| > 0 && !p(s[0]) && !p(s[|s| - 1]) ==> r == s
    ensures All(s, p) ==> r == ""
  {
    var e := Span(s, 0, p);
    var r := TrimEnd(TrimStart(s, p), p);
    assert r == s[e..e + |r|];
    r
  }

  /** `strip` removes exactly the outer `p`-characters: when `s[i..j]`
      starts and ends with a non-`p` character and everything outside it
      is `p`, the result is that slice. */
  lemma StripSlice(s: string, p: char -> bool, i: nat, j: nat)
    requires i < j <= |s| && !p(s[i]) && !p(s[j - 1])
    requires forall k :: 0 <= k < i ==> p(s[k])
    requires forall k :: j <= k < |s| ==> p(s[k])
    ensures Strip(s, p) == s[i..j]
  {
    SpanCovers(s, 0, i, p);
    var front := s[i..];
    var r := TrimEnd(front, p);
    assert r == front[..j - i];
  }

  /** Padding of `p`-characters on both sides of a text that neither
      starts nor ends with one is what `strip` takes off. */
  lemma StripPadded(u: string, x: string, v: string, p: char -> bool)
    requires All(u, p) && All(v, p)
    requires |x| > 0 && !p(x[0]) && !p(x[|x| - 1])
    ensures Strip(u + x + v, p) == x
  {
    var s := u + x + v;
    StripSlice(s, p, |u|, |u| + |x|);
    assert s[|u|..|u| + |x|] == x;
  }

  /** `s.count(c)`. */
  function Count(s: string, c: char): (n: nat)
    ensures n == 0 <==> c !in s
    ensures n <= |s|
  {
    if |s| == 0 then 0 else (if s[0] == c then 1 else 0) + Count(s[1..], c)
  }
  /** Splitting and re-joining with the same separator gives back the
      original string. */
  lemma {:induction false} JoinSplit(s: string, sep: string)
    requires |sep| > 0
    ensures Join(Split(s, sep), sep) == s
    decreases |s|
  {
    match IndexOf(s, sep)
    case None =>
    case Some(k) =>
      var rest := s[k + |sep|..];
      JoinSplit(rest, sep);
      assert Split(s, sep) == [s[..k]] + Split(rest, sep);
      assert s == s[..k] + sep + rest by {
        assert s[k..k + |sep|] == sep;
      }
  }

  /** The first occurrence of `sep` in `x + sep + rest` is the joining one
      when `x` has no character that could start `sep`. */
  lemma IndexOfAfterHead(x: string, sep: string, rest: string)
    requires |sep| > 0 && sep[0] !in x
    ensures IndexOf(x + sep + rest, sep) == Some(|x|)
  {
    var s := x + sep + rest;
    assert s[|x|..|x| + |sep|] == sep;
    assert OccursAt(s, sep, |x|);
  }

  /** Joining pieces that cannot start a separator and splitting again
      recovers the pieces: one group per piece. */
  lemma {:induction false} SplitJoin(xs: seq<string>, sep: string)
    requires |xs| > 0 && |sep| > 0
    requires forall i :: 0 <= i < |xs| ==> sep[0] !in xs[i]
    ensures Split(Join(xs, sep), sep) == xs
    decreases |xs|
  {
    if |xs| == 1 {
      assert Join(xs, sep) == xs[0];
    } else {
      var x, rest := xs[0], Join(xs[1..], sep);
      assert Join(xs, sep) == x + sep + rest;
      IndexOfAfterHead(x, sep, rest);
      assert (x + sep + rest)[|x| + |sep|..] == rest;
      assert (x + sep + rest)[..|x|] == x;
      SplitJoin(xs[1..], sep);
    }
  }

  /** Pieces that do not hold the pattern's first character, joined by the
      pattern, have every join rewritten and nothing else. */
  lemma ReplaceJoined(xs: seq<string>, pat: string, rep: string)
    requires |xs| > 0 && |pat| > 0
    requires forall i :: 0 <= i < |xs| ==> pat[0] !in xs[i]
    ensures ReplaceAll(Join(xs, pat), pat, rep) == Join(xs, rep)
  {
    SplitJoin(xs, pat);
  }

  /** An occurrence inside the suffix `q` of `p + q` is an occurrence in `q`. */
  lemma OccursAtShift(p: string, q: string, pat: string, j: nat)
    ensures OccursAt(p + q, pat, |p| + j) <==> OccursAt(q, pat, j)
  {
    if 0 <= j && j + |pat| <= |q| {
      assert (p + q)[|p| + j..|p| + j + |pat|] == q[j..j + |pat|];
    }
  }

  /** Replacing in `p + q`, where no occurrence starts inside `p`, only
      replaces in `q`. */
  lemma ReplaceAllSkipsPrefix(p: string, q: string, pat: string, rep: string)
    requires |pat| > 0
    requires forall j :: 0 <= j < |p| ==> !OccursAt(p + q, pat, j)
    ensures ReplaceAll(p + q, pat, rep) == p + ReplaceAll(q, pat, rep)
  {
    match IndexOf(q, pat)
    case None =>
      FirstAfterPrefix(p, q, pat);
      assert Split(p + q, pat) == [p + q] && Split(q, pat) == [q];
    case Some(k) =>
      FirstAfterPrefix(p, q, pat);
      ReplaceAfterPrefix(p, q, pat, rep, k);
  }

  /** With no occurrence starting inside `p`, the first occurrence in
      `p + q` is the first one in `q`, shifted. */
  lemma FirstAfterPrefix(p: string, q: string, pat: string)
    requires forall j :: 0 <= j < |p| ==> !OccursAt(p + q, pat, j)
    ensures IndexOf(q, pat).None? ==> IndexOf(p + q, pat).None?
    ensures IndexOf(q, pat).Some? ==> IndexOf(p + q, pat) == Some(|p| + IndexOf(q, pat).value)
  {
    var iq := IndexOf(q, pat);
    forall j: nat | |p| <= j && (iq.None? || j < |p| + iq.value)
      ensures !OccursAt(p + q, pat, j)
    {
      OccursAtShift(p, q, pat, j - |p|);
    }
    if iq.Some? {
      OccursAtShift(p, q, pat, iq.value);
    }
  }

  lemma ReplaceAfterPrefix(p: string, q: string, pat: string, rep: string, k: nat)
    requires |pat| > 0 && IndexOf(q, pat) == Some(k)
    requires IndexOf(p + q, pat) == Some(|p| + k)
    ensures ReplaceAll(p + q, pat, rep) == p + ReplaceAll(q, pat, rep)
  {
    var s := p + q;
    var head, rest := q[..k], q[k + |pat|..];
    var tail := Split(rest, pat);
    assert s[|p| + k + |pat|..] == rest;
    assert s[..|p| + k] == p + head;
    SplitStep(s, pat, |p| + k);
    SplitStep(q, pat, k);
    JoinPrefixed(p, head, tail, rep);
  }

  /** A prefix of the first piece is a prefix of the join. */
  lemma JoinPrefixed(p: string, head: string, tail: seq<string>, rep: string)
    requires |tail| > 0
    ensures Join([p + head] + tail, rep) == p + Join([head] + tail, rep)
  {
    JoinCons(p + head, tail, rep);
    JoinCons(head, tail, rep);
    var joined := Join(tail, rep);
    assert p + head + rep + joined == p + (head + rep + joined);
  }

  /** Two occurrences of a pattern whose first character does not recur
      in it cannot overlap. */
  lemma NoOverlap(s: string, pat: string, k: nat, m: nat)
    requires |pat| > 0 && OccursAt(s, pat, k) && OccursAt(s, pat, m) && k < m
    requires forall d :: 0 < d < |pat| ==> pat[d] != pat[0]
    ensures k + |pat| <= m
  {
    if k + |pat| > m {
      OccursAtChar(s, pat, k, m - k);
      OccursAtChar(s, pat, m, 0);
      assert false;
    }
  }

  /** One character of an occurrence. */
  lemma OccursAtChar(s: string, pat: string, i: int, t: int)
    ensures OccursAt(s, pat, i) && 0 <= t < |pat| ==> s[i + t] == pat[t]
  {
  }

  /** At least two pieces, the last one empty. */
  predicate LastEmpty(parts: seq<string>) {
    |parts| >= 2 && parts[|parts| - 1] == ""
  }

  lemma ConsLastEmpty(x: string, rest: seq<string>)
    requires |rest| >= 1 && rest[|rest| - 1] == ""
    ensures LastEmpty([x] + rest)
  {
    assert ([x] + rest)[|rest|] == rest[|rest| - 1];
  }

  /** If `s` ends with `pat`, and `pat` cannot overlap itself, then the last
      piece of `s.split(pat)` is empty. */
  lemma {:induction false} SplitEndsEmpty(s: string, pat: string)
    requires |pat| > 0 && EndsWith(s, pat)
    requires forall d :: 0 < d < |pat| ==> pat[d] != pat[0]
    ensures LastEmpty(Split(s, pat))
    decreases |s|
  {
    var last := |s| - |pat|;
    assert OccursAt(s, pat, last) by {
      assert forall t :: 0 <= t < |pat| ==> s[last + t] == s[last..][t];
    }
    var k := IndexOf(s, pat).value;
    var tail := s[k + |pat|..];
    SplitStep(s, pat, k);
    if k == last {
      assert tail == "";
      assert !OccursAt(tail, pat, 0);
      assert Split(tail, pat) == [""];
      ConsLastEmpty(s[..k], [""]);
    } else {
      NoOverlap(s, pat, k, last);
      assert EndsWith(tail, pat) by {
        assert tail[|tail| - |pat|..] == s[last..];
      }
      SplitEndsEmpty(tail, pat);
      var rest := Split(tail, pat);
      assert LastEmpty(rest);
      ConsLastEmpty(s[..k], rest);
    }
  }

  /** A join whose last piece is empty ends with the separator. */
  lemma {:induction false} JoinEndsWithSep(xs: seq<string>, sep: string)
    requires |xs| >= 2 && xs[|xs| - 1] == ""
    ensures EndsWith(Join(xs, sep), sep)
    decreases |xs|
  {
    var rest := Join(xs[1..], sep);
    assert Join(xs, sep) == xs[0] + sep + rest;
    if |xs| == 2 {
      assert rest == "";
    } else {
      JoinEndsWithSep(xs[1..], sep);
    }
  }

  /** If `s` ends with `pat`, and `pat` cannot overlap itself because its
      first character does not recur in it, then `s.replace(pat, rep)`
      ends with `rep`. */
  lemma ReplaceAllKeepsEnding(s: string, pat: string, rep: string)
    requires |pat| > 0 && EndsWith(s, pat)
    requires forall d :: 0 < d < |pat| ==> pat[d] != pat[0]
    ensures EndsWith(ReplaceAll(s, pat, rep), rep)
  {
    SplitEndsEmpty(s, pat);
    JoinEndsWithSep(Split(s, pat), rep);
  }

  /** Dropping characters distributes over concatenation. */
  lemma {:induction false} RemoveAppend(a: string, b: string, p: char -> bool)
    ensures Remove(a + b, p) == Remove(a, p) + Remove(b, p)
    decreases |a|
  {
    if |a| > 0 {
      assert (a + b)[1..] == a[1..] + b;
      RemoveAppend(a[1..], b, p);
    } else {
      assert a + b == b;
    }
  }

  /** `''.join(parts)` is the join with the empty separator. */
  lemma {:induction false} JoinEmpty(xs: seq<string>)
    ensures Join(xs, "") == Concat(xs)
    decreases |xs|
  {
    if |xs| == 1 {
      assert Concat(xs) == xs[0] + Concat(xs[1..]);
    } else if |xs| > 1 {
      JoinEmpty(xs[1..]);
    }
  }

  /** Joining the pieces of a split on the character `c` deletes every
      `c`; `p` is the test for `c`. */
  lemma {:induction false} ConcatSplitChar(s: string, c: char, p: char -> bool)
    requires forall x :: p(x) <==> x == c
    ensures Concat(Split(s, [c])) == Remove(s, p)
    decreases |s|
  {
    var sep := [c];
    match IndexOf(s, sep)
    case None =>
      NoCharBefore(s, c, |s|);
      RemoveNone(s, p);
      assert Concat([s]) == s + Concat([]);
    case Some(k) =>
      var head, rest := s[..k], s[k + 1..];
      assert s[k] == c by { OccursAtChar(s, sep, k, 0); }
      assert s == head + (sep + rest);
      NoCharBefore(s, c, k);
      assert forall i :: 0 <= i < |head| ==> head[i] == s[i];
      RemoveNone(head, p);
      RemoveAppend(head, sep + rest, p);
      RemoveAppend(sep, rest, p);
      assert Remove(sep, p) == "" by { assert sep[1..] == ""; }
      ConcatSplitChar(rest, c, p);
      SplitStep(s, sep, k);
      assert ([head] + Split(rest, sep))[1..] == Split(rest, sep);
  }

  /** `s.replace(c, '')` for one character `c` deletes exactly the
      characters equal to `c`; `p` is the test for `c`. */
  lemma DeleteChar(s: string, c: char, p: char -> bool)
    requires forall x :: p(x) <==> x == c
    ensures ReplaceAll(s, [c], "") == Remove(s, p)
  {
    JoinEmpty(Split(s, [c]));
    ConcatSplitChar(s, c, p);
  }

  /** What `Remove` keeps is every character of `s` the test rejects. */
  lemma {:induction false} RemoveKeeps(s: string, p: char -> bool)
    ensures forall i :: 0 <= i < |s| && !p(s[i]) ==> s[i] in Remove(s, p)
    decreases |s|
  {
    if |s| > 0 {
      RemoveKeeps(s[1..], p);
      assert forall i :: 1 <= i < |s| ==> s[i] == s[1..][i - 1];
    }
  }

  /** Splitting on one character yields one more piece than it has
      occurrences, and the pieces put back together hold every other
      character of the string and none of that one. */
  lemma {:induction false} SplitOnChar(s: string, c: char)
    ensures |Split(s, [c])| == Count(s, c) + 1
    ensures c !in Concat(Split(s, [c]))
    ensures |Concat(Split(s, [c]))| + Count(s, c) == |s|
    decreases |s|
  {
    var sep := [c];
    match IndexOf(s, sep)
    case None =>
      NoCharBefore(s, c, |s|);
    case Some(k) =>
      var head, rest := s[..k], s[k + 1..];
      assert s[k] == c by {
        assert OccursAt(s, sep, k);
        assert s[k + 0] == sep[0];
      }
      assert s == head + ([c] + rest);
      NoCharBefore(s, c, k);
      assert c !in head by {
        assert forall j :: 0 <= j < |head| ==> head[j] == s[j];
      }
      SplitOnChar(rest, c);
      assert Count(s, c) == Count(head, c) + Count([c] + rest, c) by {
        CountAppend(head, [c] + rest, c);
      }
      CountAppend([c], rest, c);
      assert Count([c], c) == 1 by { assert [c][1..] == []; }
      SplitStep(s, sep, k);
      assert Concat(Split(s, sep)) == head + Concat(Split(rest, sep));
  }

  /** Occurrences of a character add up over concatenation. */
  lemma {:induction false} CountAppend(a: string, b: string, c: char)
    ensures Count(a + b, c) == Count(a, c) + Count(b, c)
    decreases |a|
  {
    if |a| > 0 {
      assert (a + b)[1..] == a[1..] + b;
      CountAppend(a[1..], b, c);
    } else {
      assert a + b == b;
    }
  }

  /** Before the first occurrence of a one-character pattern, that
      character does not appear. */
  lemma NoCharBefore(s: string, c: char, k: nat)
    requires k <= |s| && forall j :: 0 <= j < k ==> !OccursAt(s, [c], j)
    ensures forall j :: 0 <= j < k ==> s[j] != c
  {
    forall j | 0 <= j < k
      ensures s[j] != c
    {
      assert !OccursAt(s, [c], j);
    }
  }

  /** For a one-character pattern, `in` on strings is membership. */
  lemma ContainsChar(s: string, c: char)
    ensures Contains(s, [c]) <==> c in s
  {
    if c in s {
      var k :| 0 <= k < |s| && s[k] == c;
      assert OccursAt(s, [c], k);
    }
    if Contains(s, [c]) {
      OccursAtChar(s, [c], IndexOf(s, [c]).value, 0);
    }
  }
}
