/** The `corrections` dictionary (form_ggs.py:79-89): an insertion-ordered
    table of literal rewrites. */
module CorrectionTable {
  import opened Values

  type Table = seq<(string, string)>

  /** The pairs of the dictionary display, in the order written; the key
      `'gmaill.com'` is written twice. */
  const CorrectionPairs: Table := [
    ("@domain", ".com"), ("gmailcom", "gmail.com"), (".cm", ".com"), ("gamil.com", "gmail.com"),
    ("yahoocom", "yahoo.com"), ("gmai.com", "gmail.com"), ("yahoooo.com", "yahoo.com"),
    ("gmal", "gmail"), ("hanoieduvn", "hanoiedu.vn"), ("tayho,edu,vn", "tayho.edu.vn"),
    ("gmaill.com", "gmail.com"), ("gmil.com", "gmail.com"), ("yahô.com", "yahoo.com"),
    ("yanhoo.com", "yahoo.com"), ("gmailk", "gmail"), ("gmail..com", "gmail.com"),
    ("hanoiưdu", "hanoiedu"), ("gmaill.com", "gmail.com"), ("nocomment.con", "nocomment.com"),
    ("gmaill@com", "gmail.com"), ("yahoocomvn", "yahoo.com.vn"), ("gmail. Com", "gmail.com"),
    ("gmail,com", "gmail.com"), ("@.gmail", "@gmail"), ("\"gmail", "@gmail"), ("Gmail", "gmail"),
    (".con", ".com"), (".co", ".com")
  ]

  /** The dictionary those pairs build: the repeated key keeps its first
      position, so 27 entries remain. */
  const Corrections: Table := [
    ("@domain", ".com"), ("gmailcom", "gmail.com"), (".cm", ".com"), ("gamil.com", "gmail.com"),
    ("yahoocom", "yahoo.com"), ("gmai.com", "gmail.com"), ("yahoooo.com", "yahoo.com"),
    ("gmal", "gmail"), ("hanoieduvn", "hanoiedu.vn"), ("tayho,edu,vn", "tayho.edu.vn"),
    ("gmaill.com", "gmail.com"), ("gmil.com", "gmail.com"), ("yahô.com", "yahoo.com"),
    ("yanhoo.com", "yahoo.com"), ("gmailk", "gmail"), ("gmail..com", "gmail.com"),
    ("hanoiưdu", "hanoiedu"), ("nocomment.con", "nocomment.com"),
    ("gmaill@com", "gmail.com"), ("yahoocomvn", "yahoo.com.vn"), ("gmail. Com", "gmail.com"),
    ("gmail,com", "gmail.com"), ("@.gmail", "@gmail"), ("\"gmail", "@gmail"), ("Gmail", "gmail"),
    (".con", ".com"), (".co", ".com")
  ]

  predicate HasKey(table: Table, k: string) {
    exists i :: 0 <= i < |table| && table[i].0 == k
  }

  predicate DistinctKeys(table: Table) {
    forall i, j :: 0 <= i < j < |table| ==> table[i].0 != table[j].0
  }

  /** Where `k` sits in the table, if it is a key. */
  function KeyIndex(table: Table, k: string): (r: Option<nat>)
    ensures r.Some? ==> r.value < |table| && table[r.value].0 == k
    ensures r.None? ==> !HasKey(table, k)
  {
    if |table| == 0 then None
    else if table[|table| - 1].0 == k then Some(|table| - 1)
    else KeyIndex(table[..|table| - 1], k)
  }

  /** `d[k] = v` on an insertion-ordered dictionary: an existing key keeps
      its position and takes the new value, a new key goes at the end. */
  function Insert(table: Table, k: string, v: string): (r: Table)
    requires DistinctKeys(table)
    ensures DistinctKeys(r)
    ensures HasKey(table, k) ==> |r| == |table|
    ensures !HasKey(table, k) ==> r == table + [(k, v)]
    ensures forall i :: 0 <= i < |table| ==> r[i].0 == table[i].0
    ensures forall i :: 0 <= i < |r| && r[i].0 != k ==> r[i] == table[i]
    ensures HasKey(r, k) && forall i :: 0 <= i < |r| && r[i].0 == k ==> r[i].1 == v
  {
    match KeyIndex(table, k)
    case Some(i) => table[i := (k, v)]
    case None => assert (table + [(k, v)])[|table|].0 == k; table + [(k, v)]
  }

  /** The dictionary a display of key/value pairs builds. */
  function DictFromPairs(pairs: Table): (r: Table)
    ensures DistinctKeys(r)
    ensures |r| <= |pairs|
  {
    if |pairs| == 0 then []
    else Insert(DictFromPairs(pairs[..|pairs| - 1]), pairs[|pairs| - 1].0, pairs[|pairs| - 1].1)
  }

  /** One more pair is one more insertion. */
  lemma DictSnoc(pairs: Table, p: (string, string))
    ensures DictFromPairs(pairs + [p]) == Insert(DictFromPairs(pairs), p.0, p.1)
  {
    assert (pairs + [p])[..|pairs|] == pairs;
  }

  lemma InsertFresh(table: Table, k: string, v: string)
    requires DistinctKeys(table) && !HasKey(table, k)
    ensures Insert(table, k, v) == table + [(k, v)]
  {
  }

  /** Pairs with distinct keys build the dictionary they list. */
  lemma {:induction false} DictExtend(pairs: Table, more: Table)
    requires DistinctKeys(DictFromPairs(pairs) + more)
    ensures DictFromPairs(pairs + more) == DictFromPairs(pairs) + more
    decreases |more|
  {
    if |more| == 0 {
      assert pairs + more == pairs;
    } else {
      var init := more[..|more| - 1];
      var last := more[|more| - 1];
      var t := DictFromPairs(pairs);
      DistinctPrefix(t, more);
      DictExtend(pairs, init);
      DictExtendLast(pairs, init, last, t);
      AppendLast(pairs, more);
      AppendLast(t, more);
    }
  }

  /** Dropping the last entry keeps keys distinct, and that key is fresh. */
  lemma DistinctPrefix(t: Table, more: Table)
    requires |more| > 0 && DistinctKeys(t + more)
    ensures DistinctKeys(t + more[..|more| - 1])
    ensures !HasKey(t + more[..|more| - 1], more[|more| - 1].0)
  {
    var init := more[..|more| - 1];
    var u := t + more;
    assert forall i :: 0 <= i < |t + init| ==> (t + init)[i] == u[i];
    assert more[|more| - 1] == u[|u| - 1];
  }

  lemma AppendLast(a: Table, more: Table)
    requires |more| > 0
    ensures a + more == a + more[..|more| - 1] + [more[|more| - 1]]
  {
    assert more == more[..|more| - 1] + [more[|more| - 1]];
  }

  lemma DictExtendLast(pairs: Table, init: Table, last: (string, string), t: Table)
    requires DistinctKeys(t + init) && !HasKey(t + init, last.0)
    requires DictFromPairs(pairs + init) == t + init
    ensures DictFromPairs(pairs + init + [last]) == t + init + [last]
  {
    DictSnoc(pairs + init, last);
    InsertFresh(t + init, last.0, last.1);
  }

  lemma CorrectionKeysDistinct()
    ensures DistinctKeys(Corrections)
  {
    KeysDistinctFrom(0, 5);
    KeysDistinctFrom(5, 12);
    KeysDistinctFrom(12, 27);
  }

  /** The keys at positions `lo` to `hi` differ from every later key. */
  lemma KeysDistinctFrom(lo: nat, hi: nat)
    requires (lo, hi) in {(0, 5), (5, 12), (12, 27)}
    ensures forall i, j :: lo <= i < hi && i < j < |Corrections| ==> Corrections[i].0 != Corrections[j].0
  {
  }

  /** Inserting a pair the table already holds changes nothing. */
  lemma InsertPresent(table: Table, i: nat)
    requires DistinctKeys(table) && i < |table|
    ensures Insert(table, table[i].0, table[i].1) == table
  {
    var r := Insert(table, table[i].0, table[i].1);
    assert HasKey(table, table[i].0);
    forall j | 0 <= j < |r|
      ensures r[j] == table[j]
    {
      if r[j].0 == table[i].0 {
        assert j == i;
      }
    }
  }

  /** A display that repeats one earlier pair builds the display without
      the repetition. */
  lemma DictRepeat(front: Table, back: Table, i: nat)
    requires DistinctKeys(front + back) && i < |front|
    ensures DictFromPairs(front + [front[i]] + back) == front + back
  {
    assert DistinctKeys(front) by {
      assert forall j :: 0 <= j < |front| ==> front[j] == (front + back)[j];
    }
    assert [] + front == front;
    DictExtend([], front);
    DictSnoc(front, front[i]);
    InsertPresent(front, i);
    DictExtend(front + [front[i]], back);
  }

  /** The dictionary display builds the 27-entry table: every key in the
      order of its first appearance, the repeated `'gmaill.com'` in the
      position of its first occurrence. */
  lemma CorrectionsFromPairs()
    ensures DictFromPairs(CorrectionPairs) == Corrections
    ensures |Corrections| == 27 && DistinctKeys(Corrections)
  {
    CorrectionKeysDistinct();
    SplitDisplay();
    DictRepeat(Corrections[..17], Corrections[17..], 10);
    assert Corrections[..17] + Corrections[17..] == Corrections;
  }

  lemma SplitDisplay()
    ensures CorrectionPairs == Corrections[..17] + [Corrections[10]] + Corrections[17..]
  {
  }
}
