/**
 * The streaming export of Tree::exportGedcom: the order of the exported rows
 * and the writes made to the output stream.
 */
module GedcomExport {
  import opened Strings

  /** Rows are flushed once the buffer is longer than this. */
  const FLUSH_LIMIT := 65535

  /** Gedcom::EOL, the line terminator of exported files. */
  const EOL := "\r\n"

  /** The trailer record that ends every export. */
  const TRAILER := "0 TRLR" + EOL

  /** Kind ranks, the `n` column of the UNION query. */
  const RANK_INDIVIDUAL := 1
  const RANK_FAMILY := 2
  const RANK_SOURCE := 3
  const RANK_OTHER := 4
  const RANK_MEDIA := 5

  /** One row of the UNION query: the record text, its xref and its kind rank. */
  datatype ExportRow = ExportRow(gedcom: string, xref: string, n: int)

  /** Plain lexicographic order on strings, standing for the database collation. */
  predicate LexLess(a: string, b: string) {
    if a == [] then b != []
    else if b == [] then false
    else a[0] < b[0] || (a[0] == b[0] && LexLess(a[1..], b[1..]))
  }

  lemma {:induction false} LexLessIrreflexive(a: string)
    ensures !LexLess(a, a)
  {
    if a != [] {
      LexLessIrreflexive(a[1..]);
    }
  }

  lemma {:induction false} LexLessTransitive(a: string, b: string, c: string)
    requires LexLess(a, b) && LexLess(b, c)
    ensures LexLess(a, c)
  {
    if a != [] && b != [] && c != [] && a[0] == b[0] == c[0] {
      LexLessTransitive(a[1..], b[1..], c[1..]);
    }
  }

  lemma {:induction false} LexLessTotal(a: string, b: string)
    requires a != b
    ensures LexLess(a, b) || LexLess(b, a)
  {
    if a != [] && b != [] && a[0] == b[0] {
      assert a == [a[0]] + a[1..] && b == [b[0]] + b[1..];
      LexLessTotal(a[1..], b[1..]);
    }
  }

  /** ORDER BY n, len, xref. */
  predicate RowLess(a: ExportRow, b: ExportRow) {
    || a.n < b.n
    || (a.n == b.n && |a.xref| < |b.xref|)
    || (a.n == b.n && |a.xref| == |b.xref| && LexLess(a.xref, b.xref))
  }

  /** Rows with the same rank and xref come from the same table row. */
  predicate SameKey(a: ExportRow, b: ExportRow) {
    a.n == b.n && a.xref == b.xref
  }

  lemma RowLessIrreflexive(a: ExportRow)
    ensures !RowLess(a, a)
  {
    LexLessIrreflexive(a.xref);
  }

  lemma RowLessTransitive(a: ExportRow, b: ExportRow, c: ExportRow)
    requires RowLess(a, b) && RowLess(b, c)
    ensures RowLess(a, c)
  {
    if a.n == b.n == c.n && |a.xref| == |b.xref| == |c.xref| {
      LexLessTransitive(a.xref, b.xref, c.xref);
    }
  }

  /** Rows with different keys are always ordered one way or the other. */
  lemma RowLessTotal(a: ExportRow, b: ExportRow)
    requires !SameKey(a, b)
    ensures RowLess(a, b) || RowLess(b, a)
  {
    if a.n == b.n && |a.xref| == |b.xref| {
      LexLessTotal(a.xref, b.xref);
    }
  }

  /** The query result order: strictly increasing in (n, len, xref). */
  predicate Sorted(rows: seq<ExportRow>) {
    forall i, j :: 0 <= i < j < |rows| ==> RowLess(rows[i], rows[j])
  }

  /** No two rows of `s` share a key. */
  predicate KeysDistinct(s: set<ExportRow>) {
    forall a, b :: a in s && b in s && SameKey(a, b) ==> a == b
  }

  /** `rows` is the ordered result of the query over the row set `s`. */
  ghost predicate IsExportOrder(rows: seq<ExportRow>, s: set<ExportRow>) {
    Sorted(rows) && forall r :: r in rows <==> r in s
  }

  /** Insert `x` at its place in a sorted sequence. */
  function Insert(rows: seq<ExportRow>, x: ExportRow): (r: seq<ExportRow>)
    requires Sorted(rows)
    requires forall y :: y in rows ==> !SameKey(x, y)
    ensures Sorted(r)
    ensures |r| == |rows| + 1
    ensures forall y :: y in r <==> y in rows || y == x
  {
    if rows == [] then [x]
    else if RowLess(x, rows[0]) then
      assert forall j :: 0 < j < |rows| ==> RowLess(rows[0], rows[j]);
      forall j | 0 <= j < |rows|
        ensures RowLess(x, rows[j])
      {
        if j > 0 {
          RowLessTransitive(x, rows[0], rows[j]);
        }
      }
      [x] + rows
    else
      RowLessTotal(x, rows[0]);
      var tail := Insert(rows[1..], x);
      forall y | y in tail
        ensures RowLess(rows[0], y)
      {
        if y != x {
          var j :| 1 <= j < |rows| && rows[j] == y;
        }
      }
      [rows[0]] + tail
  }

  /** Two sorted sequences of the same rows are equal: the export is reproducible. */
  lemma {:induction false} SortedUnique(a: seq<ExportRow>, b: seq<ExportRow>)
    requires Sorted(a) && Sorted(b)
    requires forall r :: r in a <==> r in b
    ensures a == b
    decreases |a|
  {
    if a != [] {
      assert a[0] in b;
    }
    if b != [] {
      assert b[0] in a;
    }
    if a != [] && b != [] {
      if a[0] != b[0] {
        assert b[0] in a;
        assert a[0] in b;
        var i :| 0 <= i < |a| && a[i] == b[0];
        var j :| 0 <= j < |b| && b[j] == a[0];
        assert i > 0 && j > 0;
        assert RowLess(a[0], b[0]) && RowLess(b[0], a[0]);
        RowLessTransitive(a[0], b[0], a[0]);
        RowLessIrreflexive(a[0]);
      }
      assert a == [a[0]] + a[1..] && b == [b[0]] + b[1..];
      forall r
        ensures r in a[1..] <==> r in b[1..]
      {
        if r in a[1..] {
          var i :| 1 <= i < |a| && a[i] == r;
          RowLessIrreflexive(r);
          assert r != a[0];
          assert r in b;
        }
        if r in b[1..] {
          var i :| 1 <= i < |b| && b[i] == r;
          RowLessIrreflexive(r);
          assert r != b[0];
          assert r in a;
        }
      }
      SortedUnique(a[1..], b[1..]);
    }
  }

  /** The text the loop appends for each row: the reformatted record. */
  function Pieces(rows: seq<ExportRow>, reformat: string -> string): (ps: seq<string>)
    ensures |ps| == |rows|
    ensures forall i :: 0 <= i < |rows| ==> ps[i] == reformat(rows[i].gedcom)
  {
    seq(|rows|, i requires 0 <= i < |rows| => reformat(rows[i].gedcom))
  }

  /**
   * The writes made to the stream by the row loop and the final fwrite, given
   * the current buffer and the pieces still to append.
   */
  function Writes(buffer: string, pieces: seq<string>): (w: seq<string>)
    ensures |w| >= 1
    decreases |pieces|
  {
    if pieces == [] then [buffer + TRAILER]
    else
      var b := buffer + pieces[0];
      if |b| > FLUSH_LIMIT then [b] + Writes("", pieces[1..]) else Writes(b, pieces[1..])
  }

  /** One turn of the row loop, on the pieces from index `i` on. */
  lemma WritesStep(buffer: string, pieces: seq<string>, i: nat)
    requires i < |pieces|
    ensures var b := buffer + pieces[i];
      Writes(buffer, pieces[i..]) ==
        if |b| > FLUSH_LIMIT then [b] + Writes("", pieces[i + 1..]) else Writes(b, pieces[i + 1..])
  {
    assert pieces[i..][0] == pieces[i];
    assert pieces[i..][1..] == pieces[i + 1..];
  }

  /** The output is the buffer, then every piece in order, then the trailer. */
  lemma {:induction false} WritesText(buffer: string, pieces: seq<string>)
    ensures Concat(Writes(buffer, pieces)) == buffer + Concat(pieces) + TRAILER
    decreases |pieces|
  {
    if pieces != [] {
      var b := buffer + pieces[0];
      assert Concat(pieces) == pieces[0] + Concat(pieces[1..]);
      if |b| > FLUSH_LIMIT {
        WritesText("", pieces[1..]);
        assert Concat(Writes(buffer, pieces)) == b + Concat(Writes("", pieces[1..]));
      } else {
        assert Writes(buffer, pieces) == Writes(b, pieces[1..]);
        WritesText(b, pieces[1..]);
      }
    }
  }

  /** Every write before the last is longer than the flush limit. */
  lemma {:induction false} WritesFlushOnlyWhenFull(buffer: string, pieces: seq<string>)
    ensures var w := Writes(buffer, pieces);
      forall i :: 0 <= i < |w| - 1 ==> |w[i]| > FLUSH_LIMIT
    decreases |pieces|
  {
    if pieces != [] {
      var b := buffer + pieces[0];
      if |b| > FLUSH_LIMIT {
        WritesFlushOnlyWhenFull("", pieces[1..]);
        var w := Writes(buffer, pieces);
        assert w == [b] + Writes("", pieces[1..]);
        forall i | 0 <= i < |w| - 1
          ensures |w[i]| > FLUSH_LIMIT
        {
          if i > 0 {
            assert w[i] == Writes("", pieces[1..])[i - 1];
          }
        }
      } else {
        WritesFlushOnlyWhenFull(b, pieces[1..]);
        assert Writes(buffer, pieces) == Writes(b, pieces[1..]);
      }
    }
  }

  /**
   * The last write ends with the trailer, and when the buffer starts at most
   * FLUSH_LIMIT long, the data before the trailer is at most FLUSH_LIMIT long.
   */
  lemma {:induction false} LastWriteEndsWithTrailer(buffer: string, pieces: seq<string>)
    ensures var w := Writes(buffer, pieces);
      var last := w[|w| - 1];
      && |last| >= |TRAILER|
      && last[|last| - |TRAILER|..] == TRAILER
      && (|buffer| <= FLUSH_LIMIT ==> |last| <= FLUSH_LIMIT + |TRAILER|)
    decreases |pieces|
  {
    if pieces != [] {
      var b := buffer + pieces[0];
      if |b| > FLUSH_LIMIT {
        LastWriteEndsWithTrailer("", pieces[1..]);
        var w := Writes(buffer, pieces);
        assert w[|w| - 1] == Writes("", pieces[1..])[|Writes("", pieces[1..])| - 1];
      } else {
        LastWriteEndsWithTrailer(b, pieces[1..]);
      }
    } else {
      var last := buffer + TRAILER;
      assert last[|last| - |TRAILER|..] == TRAILER;
    }
  }
}
