/**
 * Ingestion: the part of `readFile` that turns the input lines into the row
 * store, `maxColumns`, and the key set of duplicated words.
 */
module Ingestion {
  import opened Collections
  import opened Fields

  /** The stored rows (raw fields, wrappers kept), the widest row, and the duplicated raw fields. */
  datatype Corpus = Corpus(rows: seq<Row>, maxColumns: nat, duplicated: set<Field>)

  /** `readFile` either loads everything or lets the `substring` exception abort the run. */
  datatype Ingested = Aborted | Loaded(corpus: Corpus)

  /** The accepted lines, split into fields, in input order and with repeats kept. */
  function AcceptedRows(lines: seq<JavaString>): seq<Row>
  {
    if lines == [] then []
    else
      var init := AcceptedRows(lines[..|lines| - 1]);
      var fs := JavaSplit(lines[|lines| - 1]);
      if RowAccepted(fs) then init + [fs] else init
  }

  /** How many times the raw field `w` occurs in `rows`, over all rows and columns. */
  function Occurrences(rows: seq<Row>, w: Field): nat
  {
    if rows == [] then 0
    else Occurrences(rows[..|rows| - 1], w) + multiset(rows[|rows| - 1])[w]
  }

  /** `m` is the largest field count among `rows`, and 0 when there are no rows. */
  predicate IsMaxColumns(rows: seq<Row>, m: nat)
  {
    && (forall r :: 0 <= r < |rows| ==> |rows[r]| <= m)
    && (rows == [] ==> m == 0)
    && (rows != [] ==> exists r :: 0 <= r < |rows| && |rows[r]| == m)
  }

  /** A raw field with a non-empty payload that occurs at least twice in the corpus. */
  predicate IsDuplicated(rows: seq<Row>, w: Field)
  {
    HasPayload(w) && Occurrences(rows, w) >= 2
  }

  /** What a successful `readFile` leaves behind for `lines`. */
  ghost predicate IsIngested(lines: seq<JavaString>, c: Corpus)
  {
    && c.rows == AcceptedRows(lines)
    && IsMaxColumns(c.rows, c.maxColumns)
    && (forall w :: w in c.duplicated <==> IsDuplicated(c.rows, w))
  }

  /** Some line makes `isRowValid` throw. */
  predicate SomeLineCrashes(lines: seq<JavaString>)
  {
    exists k :: 0 <= k < |lines| && RowCrashes(JavaSplit(lines[k]))
  }

  /** Every field of an accepted row survives `substring`. */
  lemma AcceptedRowsAreValid(lines: seq<JavaString>)
    ensures forall r :: 0 <= r < |AcceptedRows(lines)| ==> RowAccepted(AcceptedRows(lines)[r])
  {
    if lines != [] {
      AcceptedRowsAreValid(lines[..|lines| - 1]);
    }
  }

  /** Lines that all split into accepted rows are stored as exactly those rows, and none of them throws. */
  lemma {:induction false} AllLinesAccepted(lines: seq<JavaString>, rows: seq<Row>)
    requires |lines| == |rows|
    requires forall k :: 0 <= k < |lines| ==> JavaSplit(lines[k]) == rows[k] && RowAccepted(rows[k])
    ensures AcceptedRows(lines) == rows
    ensures !SomeLineCrashes(lines)
  {
    if lines != [] {
      var n := |lines| - 1;
      AllLinesAccepted(lines[..n], rows[..n]);
      assert rows == rows[..n] + [rows[n]];
    }
    forall k | 0 <= k < |lines| ensures !RowCrashes(JavaSplit(lines[k])) {
      var fs := JavaSplit(lines[k]);
      forall j | 0 <= j < |fs| ensures !CrashesAt(fs, j) {
        assert FieldValid(fs[j]);
      }
    }
  }

  /** One field of an accepted row: bump its counter if its payload is non-empty, and mark it once the counter passes 1. */
  method CountWord(word: Field, freq: map<Field, nat>, dups: set<Field>)
    returns (freq': map<Field, nat>, dups': set<Field>)
    requires FieldValid(word)
    requires forall w :: w in dups <==> Count(freq, w) >= 2
    ensures forall w :: Count(freq', w) == Count(freq, w) + (if w == word && HasPayload(w) then 1 else 0)
    ensures forall w :: w in dups' <==> Count(freq', w) >= 2
  {
    freq', dups' := freq, dups;
    var temp := word[1..|word| - 1];
    if temp != [] {
      freq' := freq'[word := Count(freq', word) + 1];
      if freq'[word] > 1 {
        dups' := dups' + {word};
      }
    }
  }

  /**
   * The frequency update of one accepted row (the inner loop of `readFile`):
   * each field with a non-empty payload bumps its counter, and a field whose
   * counter passes 1 joins the duplicated set.
   */
  method CountWords(words: Row, freq: map<Field, nat>, dups: set<Field>)
    returns (freq': map<Field, nat>, dups': set<Field>)
    requires RowAccepted(words)
    requires forall w :: w in dups <==> Count(freq, w) >= 2
    ensures forall w :: Count(freq', w) == Count(freq, w) + (if HasPayload(w) then multiset(words)[w] else 0)
    ensures forall w :: w in dups' <==> Count(freq', w) >= 2
  {
    freq', dups' := freq, dups;
    var i := 0;
    while i < |words|
      invariant 0 <= i <= |words|
      invariant forall w :: Count(freq', w) == Count(freq, w) + (if HasPayload(w) then multiset(words[..i])[w] else 0)
      invariant forall w :: w in dups' <==> Count(freq', w) >= 2
    {
      assert FieldValid(words[i]);
      freq', dups' := CountWord(words[i], freq', dups');
      assert words[..i + 1] == words[..i] + [words[i]];
      i := i + 1;
    }
    assert words[..i] == words;
  }

  /** Taking in one more line appends its fields when it is accepted. */
  lemma AcceptedRowsStep(lines: seq<JavaString>, k: nat)
    requires k < |lines|
    ensures AcceptedRows(lines[..k + 1]) ==
      AcceptedRows(lines[..k]) + (if RowAccepted(JavaSplit(lines[k])) then [JavaSplit(lines[k])] else [])
  {
    assert lines[..k + 1][..k] == lines[..k];
  }

  /** Appending a row adds its occurrences. */
  lemma OccurrencesStep(rows: seq<Row>, words: Row)
    ensures forall w :: Occurrences(rows + [words], w) == Occurrences(rows, w) + multiset(words)[w]
  {
    assert (rows + [words])[..|rows|] == rows;
  }

  /** Appending a row raises the widest row to it when it is wider. */
  lemma MaxColumnsStep(rows: seq<Row>, m: nat, words: Row)
    requires IsMaxColumns(rows, m)
    ensures IsMaxColumns(rows + [words], if m < |words| then |words| else m)
  {
    var rows' := rows + [words];
    assert rows'[|rows|] == words;
    if rows != [] && m >= |words| {
      var r :| 0 <= r < |rows| && |rows[r]| == m;
      assert rows'[r] == rows[r];
    }
  }

  /** `freq` counts the payload-bearing fields of `rows`, and `dups` holds those counted twice. */
  ghost predicate Tallied(rows: seq<Row>, freq: map<Field, nat>, dups: set<Field>)
  {
    && (forall w :: Count(freq, w) == (if HasPayload(w) then Occurrences(rows, w) else 0))
    && (forall w :: w in dups <==> Count(freq, w) >= 2)
  }

  /** One accepted line of `readFile`: store its fields, widen `maxColumns`, count its words. */
  method StoreRow(rows: seq<Row>, maxColumns: nat, freq: map<Field, nat>, dups: set<Field>, words: Row)
    returns (rows': seq<Row>, maxColumns': nat, freq': map<Field, nat>, dups': set<Field>)
    requires RowAccepted(words)
    requires IsMaxColumns(rows, maxColumns) && Tallied(rows, freq, dups)
    ensures rows' == rows + [words]
    ensures IsMaxColumns(rows', maxColumns') && Tallied(rows', freq', dups')
  {
    freq', dups' := CountWords(words, freq, dups);
    MaxColumnsStep(rows, maxColumns, words);
    OccurrencesStep(rows, words);
    maxColumns' := if maxColumns < |words| then |words| else maxColumns;
    rows' := rows + [words];
  }

  /** The state `readFile` has reached after the first `k` lines, none of which threw. */
  ghost predicate IngestedPrefix(lines: seq<JavaString>, k: nat, rows: seq<Row>, maxColumns: nat,
                                 freq: map<Field, nat>, dups: set<Field>)
  {
    && k <= |lines|
    && (forall m :: 0 <= m < k ==> !RowCrashes(JavaSplit(lines[m])))
    && rows == AcceptedRows(lines[..k])
    && IsMaxColumns(rows, maxColumns)
    && Tallied(rows, freq, dups)
  }

  /** One iteration of the reading loop: `isRowValid` throws, skips the line, or the line is stored. */
  method TakeLine(lines: seq<JavaString>, k: nat, rows: seq<Row>, maxColumns: nat, freq: map<Field, nat>, dups: set<Field>)
    returns (crashed: bool, rows': seq<Row>, maxColumns': nat, freq': map<Field, nat>, dups': set<Field>)
    requires k < |lines| && IngestedPrefix(lines, k, rows, maxColumns, freq, dups)
    ensures crashed <==> RowCrashes(JavaSplit(lines[k]))
    ensures !crashed ==> IngestedPrefix(lines, k + 1, rows', maxColumns', freq', dups')
  {
    rows', maxColumns', freq', dups' := rows, maxColumns, freq, dups;
    var v := IsRowValid(lines[k]);
    crashed := v == Crash;
    if !crashed {
      AcceptedRowsStep(lines, k);
      if v == Accept {
        rows', maxColumns', freq', dups' := StoreRow(rows, maxColumns, freq, dups, JavaSplit(lines[k]));
      }
    }
  }

  /** Once every line is read without a throw, the state is the ingested corpus. */
  lemma IngestedAll(lines: seq<JavaString>, rows: seq<Row>, maxColumns: nat, freq: map<Field, nat>, dups: set<Field>)
    requires IngestedPrefix(lines, |lines|, rows, maxColumns, freq, dups)
    ensures !SomeLineCrashes(lines)
    ensures IsIngested(lines, Corpus(rows, maxColumns, dups))
  {
    assert lines[..|lines|] == lines;
  }

  /**
   * `readFile` without the reader: rows that `isRowValid` accepts are stored
   * as their raw fields, `maxColumns` tracks the widest one, and the word
   * frequencies decide the duplicated set. The first line on which
   * `isRowValid` throws aborts the run.
   */
  method Ingest(lines: seq<JavaString>) returns (r: Ingested)
    ensures r.Aborted? <==> SomeLineCrashes(lines)
    ensures r.Loaded? ==> IsIngested(lines, r.corpus)
  {
    var rows: seq<Row> := [];
    var maxColumns: nat := 0;
    var freq: map<Field, nat> := map[];
    var dups: set<Field> := {};
    var k := 0;
    while k < |lines|
      invariant IngestedPrefix(lines, k, rows, maxColumns, freq, dups)
      decreases |lines| - k
    {
      var crashed;
      crashed, rows, maxColumns, freq, dups := TakeLine(lines, k, rows, maxColumns, freq, dups);
      if crashed {
        return Aborted;
      }
      k := k + 1;
    }
    IngestedAll(lines, rows, maxColumns, freq, dups);
    r := Loaded(Corpus(rows, maxColumns, dups));
  }
}
