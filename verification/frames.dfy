/** The slice of the corpus data frame the encoders read: one row per article
    instance, keyed by `text_index`, with the two preprocessed text columns. */
module Frames {

  /** One row of the input frame. Rows that share `textIndex` hold the same
      text up to case. */
  datatype Row = Row(textIndex: int, textPreprocessed: string, textNoStop: string)

  /** The two text columns an encoder can read. */
  datatype Column = TextPreprocessed | TextNoStop

  /** A document embedding as produced by the external model. */
  type Vector = seq<real>

  /** The column's name in the frame. */
  function ColumnName(c: Column): string {
    match c
    case TextPreprocessed => "text_preprocessed"
    case TextNoStop => "text_no_stop"
  }

  function Field(r: Row, c: Column): string {
    match c
    case TextPreprocessed => r.textPreprocessed
    case TextNoStop => r.textNoStop
  }

  /** Both encoders read the stop-word-keeping text when `stop_words` is set
      and the stop-word-free text otherwise. */
  function DocumentsColumn(stopWords: bool): (c: Column)
    ensures ColumnName(c) == "text_preprocessed" <==> stopWords
    ensures ColumnName(c) == "text_no_stop" <==> !stopWords
  {
    if stopWords then TextPreprocessed else TextNoStop
  }

  /** `frame[column]` as a list of texts, in row order. */
  function Texts(rows: seq<Row>, c: Column): (ts: seq<string>)
    ensures |ts| == |rows|
    ensures forall i | 0 <= i < |rows| :: ts[i] == Field(rows[i], c)
  {
    seq(|rows|, i requires 0 <= i < |rows| => Field(rows[i], c))
  }

  // ---------------------------------------------------------------------------
  // drop_duplicates(subset = "text_index")
  // ---------------------------------------------------------------------------

  function KeysOf(rows: seq<Row>): set<int> {
    set r | r in rows :: r.textIndex
  }

  lemma KeysOfAppend(rows: seq<Row>, x: Row)
    ensures KeysOf(rows + [x]) == KeysOf(rows) + {x.textIndex}
  {
    assert forall r :: r in rows + [x] <==> r in rows || r == x;
  }

  /** Position of the first row carrying `key`. */
  function FirstIndex(rows: seq<Row>, key: int): (i: nat)
    requires key in KeysOf(rows)
    ensures i < |rows| && rows[i].textIndex == key
    ensures forall j | 0 <= j < i :: rows[j].textIndex != key
  {
    if rows[0].textIndex == key then 0
    else
      assert KeysOf(rows) == {rows[0].textIndex} + KeysOf(rows[1..]) by {
        assert forall r :: r in rows <==> r == rows[0] || r in rows[1..];
      }
      1 + FirstIndex(rows[1..], key)
  }

  /** Appending a row does not move the first occurrence of a key already present. */
  lemma FirstIndexAppend(rows: seq<Row>, x: Row, key: int)
    requires key in KeysOf(rows)
    ensures KeysOf(rows + [x]) == KeysOf(rows) + {x.textIndex}
    ensures FirstIndex(rows + [x], key) == FirstIndex(rows, key)
  {
    KeysOfAppend(rows, x);
    var i := FirstIndex(rows, key);
    var s := rows + [x];
    assert s[i] == rows[i];
    assert forall j | 0 <= j < i :: s[j] == rows[j];
  }

  /** A key first seen in the appended row has its first occurrence there. */
  lemma FirstIndexNewKey(rows: seq<Row>, x: Row)
    requires x.textIndex !in KeysOf(rows)
    ensures KeysOf(rows + [x]) == KeysOf(rows) + {x.textIndex}
    ensures FirstIndex(rows + [x], x.textIndex) == |rows|
  {
    KeysOfAppend(rows, x);
    var s := rows + [x];
    forall j | 0 <= j < |rows|
      ensures s[j].textIndex != x.textIndex
    {
      assert s[j] == rows[j] && rows[j] in rows;
    }
  }

  /** Every key of `rows` survives, exactly once. */
  ghost predicate CoversKeysOnce(rows: seq<Row>, kept: seq<Row>) {
    KeysOf(kept) == KeysOf(rows) && |kept| == |KeysOf(rows)|
  }

  /** Each kept row is the first row of `rows` with its key. */
  ghost predicate KeepsFirstRows(rows: seq<Row>, kept: seq<Row>) {
    forall k | 0 <= k < |kept| ::
      kept[k].textIndex in KeysOf(rows)
      && kept[k] == rows[FirstIndex(rows, kept[k].textIndex)]
  }

  /** Kept rows appear in the order their keys are first seen. */
  ghost predicate InFirstSeenOrder(rows: seq<Row>, kept: seq<Row>) {
    forall k, l | 0 <= k < l < |kept| ::
      kept[k].textIndex in KeysOf(rows) && kept[l].textIndex in KeysOf(rows)
      && FirstIndex(rows, kept[k].textIndex) < FirstIndex(rows, kept[l].textIndex)
  }

  /** `kept` is `rows` with every row dropped whose `textIndex` appeared in an
      earlier row: one row per key, each the key's first row, in the order the
      keys first appear. */
  ghost predicate IsFirstOccurrences(rows: seq<Row>, kept: seq<Row>) {
    CoversKeysOnce(rows, kept) && KeepsFirstRows(rows, kept) && InFirstSeenOrder(rows, kept)
  }

  /** A row whose key was already seen leaves the first occurrences alone. */
  lemma FirstOccurrencesAppendSeen(p: seq<Row>, x: Row, kp: seq<Row>)
    requires IsFirstOccurrences(p, kp) && x.textIndex in KeysOf(p)
    ensures IsFirstOccurrences(p + [x], kp)
  {
    var rows := p + [x];
    KeysOfAppend(p, x);
    assert KeysOf(rows) == KeysOf(p);
    forall k | 0 <= k < |kp|
      ensures kp[k].textIndex in KeysOf(p)
      ensures FirstIndex(rows, kp[k].textIndex) == FirstIndex(p, kp[k].textIndex)
      ensures kp[k] == rows[FirstIndex(rows, kp[k].textIndex)]
    {
      FirstIndexAppend(p, x, kp[k].textIndex);
      assert rows[FirstIndex(p, kp[k].textIndex)] == p[FirstIndex(p, kp[k].textIndex)];
    }
  }

  /** Appending a row with a new key keeps the earlier keys' first positions. */
  lemma FirstIndexAppendAll(p: seq<Row>, x: Row, kp: seq<Row>)
    requires IsFirstOccurrences(p, kp) && x.textIndex !in KeysOf(p)
    ensures forall k | 0 <= k < |kp| ::
              && kp[k].textIndex in KeysOf(p)
              && FirstIndex(p + [x], kp[k].textIndex) == FirstIndex(p, kp[k].textIndex) < |p|
              && kp[k] == (p + [x])[FirstIndex(p, kp[k].textIndex)]
  {
    forall k | 0 <= k < |kp|
      ensures FirstIndex(p + [x], kp[k].textIndex) == FirstIndex(p, kp[k].textIndex) < |p|
      ensures kp[k] == (p + [x])[FirstIndex(p, kp[k].textIndex)]
    {
      FirstIndexAppend(p, x, kp[k].textIndex);
    }
  }

  /** A row with a new key is kept, after the first occurrences of the earlier keys. */
  lemma FirstOccurrencesAppendNew(p: seq<Row>, x: Row, kp: seq<Row>)
    requires IsFirstOccurrences(p, kp) && x.textIndex !in KeysOf(p)
    ensures IsFirstOccurrences(p + [x], kp + [x])
  {
    var rows := p + [x];
    var kept := kp + [x];
    FirstIndexNewKey(p, x);
    assert CoversKeysOnce(rows, kept) by {
      KeysOfAppend(kp, x);
      assert |KeysOf(rows)| == |KeysOf(p)| + 1;
    }
    FirstIndexAppendAll(p, x, kp);
    assert KeepsFirstRows(rows, kept) by {
      forall k | 0 <= k < |kept|
        ensures kept[k].textIndex in KeysOf(rows)
        ensures kept[k] == rows[FirstIndex(rows, kept[k].textIndex)]
      {
        if k == |kp| {
          assert kept[k] == x == rows[|p|];
        } else {
          assert kept[k] == kp[k];
        }
      }
    }
    assert InFirstSeenOrder(rows, kept) by {
      forall k, l | 0 <= k < l < |kept|
        ensures kept[k].textIndex in KeysOf(rows) && kept[l].textIndex in KeysOf(rows)
        ensures FirstIndex(rows, kept[k].textIndex) < FirstIndex(rows, kept[l].textIndex)
      {
        assert kept[k] == kp[k];
        if l < |kp| {
          assert kept[l] == kp[l];
        } else {
          assert kept[l] == x;
        }
      }
    }
  }

  /** pandas' `drop_duplicates(subset = "text_index")` with its default
      `keep = "first"`. */
  function DropDuplicates(rows: seq<Row>): (kept: seq<Row>)
    ensures IsFirstOccurrences(rows, kept)
    decreases |rows|
  {
    if rows == [] then []
    else
      var p := rows[..|rows| - 1];
      var x := rows[|rows| - 1];
      assert rows == p + [x];
      var kp := DropDuplicates(p);
      if x.textIndex in KeysOf(p) then
        FirstOccurrencesAppendSeen(p, x, kp);
        kp
      else
        FirstOccurrencesAppendNew(p, x, kp);
        kp + [x]
  }

  /** No two rows share a `text_index`. */
  predicate DistinctKeys(rows: seq<Row>) {
    forall k, l | 0 <= k < l < |rows| :: rows[k].textIndex != rows[l].textIndex
  }

  /** The kept rows have distinct keys. */
  lemma FirstOccurrencesDistinct(rows: seq<Row>, kept: seq<Row>)
    requires IsFirstOccurrences(rows, kept)
    ensures DistinctKeys(kept)
  {
  }

  /** In a frame without duplicate keys, the last row's key is new and the
      rows before it have no duplicates either. */
  lemma DistinctLastIsNew(rows: seq<Row>)
    requires rows != [] && DistinctKeys(rows)
    ensures DistinctKeys(rows[..|rows| - 1])
    ensures rows[|rows| - 1].textIndex !in KeysOf(rows[..|rows| - 1])
  {
    var p := rows[..|rows| - 1];
    forall r | r in p
      ensures r.textIndex != rows[|rows| - 1].textIndex
    {
      var k :| 0 <= k < |p| && p[k] == r;
      assert rows[k] == r;
    }
  }

  /** A frame without duplicate keys is left as it is. */
  lemma {:induction false} DropDuplicatesOfDistinct(rows: seq<Row>)
    requires DistinctKeys(rows)
    ensures DropDuplicates(rows) == rows
    decreases |rows|
  {
    if rows != [] {
      var p := rows[..|rows| - 1];
      var x := rows[|rows| - 1];
      assert rows == p + [x];
      DistinctLastIsNew(rows);
      assert DropDuplicates(rows) == DropDuplicates(p) + [x];
      DropDuplicatesOfDistinct(p);
    }
  }

  /** Dropping duplicates twice is dropping them once. */
  lemma DropDuplicatesIdempotent(rows: seq<Row>)
    ensures DropDuplicates(DropDuplicates(rows)) == DropDuplicates(rows)
  {
    FirstOccurrencesDistinct(rows, DropDuplicates(rows));
    DropDuplicatesOfDistinct(DropDuplicates(rows));
  }
}
