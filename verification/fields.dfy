/**
 * Row validation: how one input line is split into `;`-separated fields and
 * how `isWordValid` / `isRowValid` judge them.
 *
 * A line is a Java `String`, that is, a sequence of UTF-16 code units: every
 * length, index and `substring` bound of the code counts code units, and a
 * character outside the Basic Multilingual Plane occupies two of them.
 *
 * A raw field keeps its wrapping code units (the quotes); its payload is the
 * field with the first and last code unit dropped.
 */
module Fields {

  /** A UTF-16 code unit: one Java `char`. */
  newtype CodeUnit = x: int | 0 <= x < 0x1_0000

  /** A Java `String`, as the code units `length()` and `charAt` see. */
  type JavaString = seq<CodeUnit>

  type Field = JavaString
  type Row = seq<Field>

  /** `;`, the field separator. */
  const Semicolon: CodeUnit := 0x3B
  /** `"`, the usual field wrapper. */
  const Quote: CodeUnit := 0x22
  /** `'0'` and `'9'`. */
  const DigitZero: CodeUnit := 0x30
  const DigitNine: CodeUnit := 0x39

  predicate IsDigit(c: CodeUnit)
  {
    DigitZero <= c <= DigitNine
  }

  predicate AllDigits(s: JavaString)
  {
    forall k :: 0 <= k < |s| ==> IsDigit(s[k])
  }

  /** `isWordValid`: scans the word and stops at the first character outside '0'..'9'. */
  method IsWordValid(s: JavaString) returns (ok: bool)
    ensures ok <==> AllDigits(s)
  {
    var k := 0;
    while k < |s|
      invariant 0 <= k <= |s|
      invariant forall m :: 0 <= m < k ==> IsDigit(s[m])
    {
      if s[k] < DigitZero || s[k] > DigitNine {
        return false;
      }
      k := k + 1;
    }
    return true;
  }

  /** The payload of a raw field: `word.substring(1, word.length() - 1)`, defined only for length >= 2. */
  function Payload(w: Field): JavaString
    requires |w| >= 2
  {
    w[1..|w| - 1]
  }

  /** The field survives `substring` and its payload is all digits. The wrappers are never inspected. */
  predicate FieldValid(w: Field)
  {
    |w| >= 2 && AllDigits(Payload(w))
  }

  /** A field whose payload is non-empty: only these are counted as words. */
  predicate HasPayload(w: Field)
  {
    |w| >= 2 && Payload(w) != []
  }

  /** Every field of the line is valid: the line is stored. */
  predicate RowAccepted(fs: seq<Field>)
  {
    forall j :: 0 <= j < |fs| ==> FieldValid(fs[j])
  }

  /** The left-to-right scan reaches field `j` (all earlier fields valid) and `substring` throws on it. */
  predicate CrashesAt(fs: seq<Field>, j: int)
  {
    0 <= j < |fs| && |fs[j]| < 2 && forall k :: 0 <= k < j ==> FieldValid(fs[k])
  }

  predicate RowCrashes(fs: seq<Field>)
  {
    exists j :: 0 <= j < |fs| && CrashesAt(fs, j)
  }

  /** Outcome of `isRowValid`: true, false, or an escaping StringIndexOutOfBoundsException. */
  datatype Verdict = Accept | Reject | Crash

  // ---------------------------------------------------------------------------
  // String.split(";")
  // ---------------------------------------------------------------------------

  /** Splits at every Semicolon, keeping empty pieces: n separators give n + 1 pieces. */
  function SplitAll(s: JavaString): (ps: seq<JavaString>)
    ensures |ps| >= 1
    ensures forall k :: 0 <= k < |ps| ==> Semicolon !in ps[k]
  {
    if s == [] then [[]]
    else
      var rest := SplitAll(s[1..]);
      if s[0] == Semicolon then [[]] + rest
      else [[s[0]] + rest[0]] + rest[1..]
  }

  /** Glues pieces back together with Semicolon between them. */
  function Join(ps: seq<JavaString>): JavaString
    requires |ps| >= 1
  {
    if |ps| == 1 then ps[0] else ps[0] + [Semicolon] + Join(ps[1..])
  }

  /** Drops the empty pieces at the end, as `split` with limit 0 does. */
  function DropTrailingEmpty(ps: seq<JavaString>): (r: seq<JavaString>)
    ensures |r| <= |ps| && r == ps[..|r|]
    ensures r == [] || r[|r| - 1] != []
    ensures forall k :: |r| <= k < |ps| ==> ps[k] == []
  {
    if ps != [] && ps[|ps| - 1] == [] then DropTrailingEmpty(ps[..|ps| - 1]) else ps
  }

  /**
   * Java's `line.split(";")`: a line without Semicolon is returned whole (so the
   * empty line gives one empty field); otherwise the pieces without the
   * trailing empty ones (so ";" gives no field at all).
   */
  function JavaSplit(line: JavaString): (fs: seq<Field>)
    ensures forall k :: 0 <= k < |fs| ==> Semicolon !in fs[k]
  {
    if Semicolon !in line then [line] else DropTrailingEmpty(SplitAll(line))
  }

  /** `isRowValid`: validates the fields left to right and returns at the first invalid one. */
  method IsRowValid(line: JavaString) returns (v: Verdict)
    ensures v == Accept <==> RowAccepted(JavaSplit(line))
    ensures v == Crash <==> RowCrashes(JavaSplit(line))
  {
    var words := JavaSplit(line);
    var j := 0;
    while j < |words|
      invariant 0 <= j <= |words|
      invariant forall k :: 0 <= k < j ==> FieldValid(words[k])
    {
      var word := words[j];
      if |word| < 2 {
        // substring(1, length - 1) throws before anything else is looked at
        assert CrashesAt(words, j);
        return Crash;
      }
      var ok := IsWordValid(word[1..|word| - 1]);
      if !ok {
        assert !FieldValid(words[j]);
        assert !RowCrashes(words) by {
          forall c | 0 <= c < |words| ensures !CrashesAt(words, c) {
            if c > j { assert !FieldValid(words[j]); }
          }
        }
        return Reject;
      }
      j := j + 1;
    }
    assert !RowCrashes(words) by {
      forall c | 0 <= c < |words| ensures !CrashesAt(words, c) {
        assert FieldValid(words[c]);
      }
    }
    return Accept;
  }

  // ---------------------------------------------------------------------------
  // Lemmas
  // ---------------------------------------------------------------------------

  /** Splitting and re-joining restores the line. */
  lemma {:induction false} SplitThenJoin(s: JavaString)
    ensures Join(SplitAll(s)) == s
  {
    if s != [] {
      var rest := SplitAll(s[1..]);
      SplitThenJoin(s[1..]);
      if s[0] == Semicolon {
        assert SplitAll(s) == [[]] + rest;
        assert s == [Semicolon] + s[1..];
      } else {
        var ps := SplitAll(s);
        assert ps == [[s[0]] + rest[0]] + rest[1..];
        if |rest| == 1 {
          assert s == [s[0]] + s[1..];
        } else {
          assert ps[1..] == rest[1..];
          assert Join(rest) == rest[0] + [Semicolon] + Join(rest[1..]);
          assert s == [s[0]] + s[1..];
        }
      }
    }
  }

  /** A separator-free prefix merges into the first piece of what follows it. */
  lemma {:induction false} SplitAllPrefix(u: JavaString, t: JavaString)
    requires Semicolon !in u
    ensures SplitAll(u + t) == [u + SplitAll(t)[0]] + SplitAll(t)[1..]
  {
    var st := SplitAll(t);
    if u != [] {
      SplitAllPrefix(u[1..], t);
      assert (u + t)[0] == u[0];
      assert (u + t)[1..] == u[1..] + t;
      var rest := SplitAll(u[1..] + t);
      assert rest == [u[1..] + st[0]] + st[1..];
      assert rest[0] == u[1..] + st[0];
      assert [u[0]] + (u[1..] + st[0]) == u + st[0];
    } else {
      assert u + t == t;
      assert u + st[0] == st[0];
      assert st == [st[0]] + st[1..];
    }
  }

  /** Joining separator-free pieces and splitting again restores the pieces. */
  lemma {:induction false} JoinThenSplit(ps: seq<JavaString>)
    requires |ps| >= 1
    requires forall k :: 0 <= k < |ps| ==> Semicolon !in ps[k]
    ensures SplitAll(Join(ps)) == ps
  {
    if |ps| == 1 {
      SplitAllPrefix(ps[0], []);
      assert SplitAll([]) == [[]];
      assert ps[0] + [] == ps[0];
    } else {
      JoinThenSplit(ps[1..]);
      var tail := [Semicolon] + Join(ps[1..]);
      assert Join(ps) == ps[0] + tail;
      SplitAllPrefix(ps[0], tail);
      assert tail[0] == Semicolon;
      assert tail[1..] == Join(ps[1..]);
      var st := SplitAll(tail);
      assert st == [[]] + ps[1..];
      assert st[0] == [] && st[1..] == ps[1..];
      assert ps[0] + st[0] == ps[0];
      assert ps == [ps[0]] + ps[1..];
    }
  }

  /** A line that `Join` built from two or more pieces contains a separator. */
  lemma JoinHasSeparator(ps: seq<JavaString>)
    requires |ps| >= 2
    ensures Semicolon in Join(ps)
  {
    assert Join(ps)[|ps[0]|] == Semicolon;
  }

  /**
   * Writing an accepted, non-empty row back as a `;`-joined line and reading it
   * again gives the same row, and the line is accepted again.
   */
  lemma RenderedRowReparses(row: Row)
    requires |row| >= 1
    requires RowAccepted(row)
    requires forall k :: 0 <= k < |row| ==> Semicolon !in row[k]
    ensures JavaSplit(Join(row)) == row
    ensures RowAccepted(JavaSplit(Join(row)))
  {
    if |row| >= 2 {
      JoinHasSeparator(row);
      JoinThenSplit(row);
      assert row[|row| - 1] != [] by { assert FieldValid(row[|row| - 1]); }
    }
  }

  /** An empty line splits to one empty field, on which `substring` throws. */
  lemma EmptyLineCrashes()
    ensures JavaSplit([]) == [[]]
    ensures RowCrashes(JavaSplit([]))
  {
    assert CrashesAt([[]], 0);
  }

  /** A line of separators only has no fields at all and is accepted as an empty row. */
  lemma SeparatorOnlyLineIsEmptyRow()
    ensures JavaSplit([Semicolon]) == []
    ensures RowAccepted(JavaSplit([Semicolon]))
  {
    assert SplitAll([Semicolon]) == [[], []] by {
      assert SplitAll([]) == [[]];
      assert [Semicolon][1..] == [];
    }
  }

  /**
   * The scan decides at the first invalid field: the line throws when that
   * field is too short for `substring`, and is rejected otherwise, whatever
   * the later fields are.
   */
  lemma FirstInvalidFieldDecides(fs: seq<Field>, j: nat)
    requires j < |fs| && !FieldValid(fs[j])
    requires forall k :: 0 <= k < j ==> FieldValid(fs[k])
    ensures !RowAccepted(fs)
    ensures RowCrashes(fs) <==> |fs[j]| < 2
  {
    if |fs[j]| < 2 {
      assert CrashesAt(fs, j);
    } else {
      forall c | 0 <= c < |fs| ensures !CrashesAt(fs, c) {
        if c > j {
          assert !FieldValid(fs[j]);
        }
      }
    }
  }

  /** The line `"1.";;"2"` is rejected: its invalid first field comes before the empty one. */
  lemma InvalidBeforeEmptyRejects()
    ensures var fs: seq<Field> := [[Quote, DigitZero + 1, 0x2E, Quote], [], [Quote, DigitZero + 2, Quote]];
      JavaSplit(Join(fs)) == fs && !RowAccepted(fs) && !RowCrashes(fs)
  {
    var fs: seq<Field> := [[Quote, DigitZero + 1, 0x2E, Quote], [], [Quote, DigitZero + 2, Quote]];
    JoinThenSplit(fs);
    assert Join(fs)[4] == Semicolon;
    assert !IsDigit(Payload(fs[0])[1]);
    FirstInvalidFieldDecides(fs, 0);
  }

  /** The line `;"1."` throws: its empty first field comes before the invalid one. */
  lemma EmptyBeforeInvalidCrashes()
    ensures var fs: seq<Field> := [[], [Quote, DigitZero + 1, 0x2E, Quote]];
      JavaSplit(Join(fs)) == fs && RowCrashes(fs)
  {
    var fs: seq<Field> := [[], [Quote, DigitZero + 1, 0x2E, Quote]];
    JoinThenSplit(fs);
    assert Join(fs)[0] == Semicolon;
    FirstInvalidFieldDecides(fs, 0);
  }

  /** `String.join(";", row)`: the empty row gives the empty line. */
  function JoinRow(row: Row): JavaString
  {
    if row == [] then [] else Join(row)
  }

  /**
   * An accepted, separator-free row joined back into a line splits into that
   * same row exactly when it is non-empty. The empty row, which the line `;`
   * yields, joins to the empty line, and `isRowValid` throws on that.
   */
  lemma JoinedRowReparsesIffNonEmpty(row: Row)
    requires RowAccepted(row)
    requires forall k :: 0 <= k < |row| ==> Semicolon !in row[k]
    ensures JavaSplit(JoinRow(row)) == row <==> row != []
    ensures row == [] ==> RowCrashes(JavaSplit(JoinRow(row)))
  {
    if row != [] {
      RenderedRowReparses(row);
    } else {
      EmptyLineCrashes();
    }
  }

  // ---------------------------------------------------------------------------
  // From characters to code units
  // ---------------------------------------------------------------------------

  /** The UTF-16 encoding of one character (section 2.1 of RFC 2781): a surrogate pair above U+FFFF. */
  function EncodeChar(c: char): (us: JavaString)
    ensures |us| == (if c as int < 0x1_0000 then 1 else 2)
  {
    var v := c as int;
    if v < 0x1_0000 then [v as CodeUnit]
    else
      var w := v - 0x1_0000;
      [(0xD800 + w / 0x400) as CodeUnit, (0xDC00 + w % 0x400) as CodeUnit]
  }

  /** The Java `String` holding the characters of `s`. */
  function Utf16(s: string): JavaString
  {
    if s == [] then [] else EncodeChar(s[0]) + Utf16(s[1..])
  }

  /** How many characters of `s` lie outside the Basic Multilingual Plane. */
  function Supplementary(s: string): nat
  {
    if s == [] then 0 else (if s[0] as int < 0x1_0000 then 0 else 1) + Supplementary(s[1..])
  }

  /** `length()` counts one code unit per character plus one more per supplementary character. */
  lemma {:induction false} Utf16Length(s: string)
    ensures |Utf16(s)| == |s| + Supplementary(s)
  {
    if s != [] {
      Utf16Length(s[1..]);
    }
  }

  /** Characters inside the Basic Multilingual Plane are their own code units, one each. */
  lemma {:induction false} Utf16OfBmp(s: string)
    requires forall k :: 0 <= k < |s| ==> s[k] as int < 0x1_0000
    ensures |Utf16(s)| == |s|
    ensures forall k :: 0 <= k < |s| ==> Utf16(s)[k] as int == s[k] as int
  {
    if s != [] {
      Utf16OfBmp(s[1..]);
      assert Utf16(s) == [s[0] as int as CodeUnit] + Utf16(s[1..]);
    }
  }

  /**
   * A line holding only U+1F600 is two code units long, so `substring(1, 1)`
   * is the empty payload: the line is accepted as one field with no word in it.
   */
  lemma SupplementaryCharIsAField()
    ensures Utf16("\U{1F600}") == [0xD83D, 0xDE00]
    ensures JavaSplit(Utf16("\U{1F600}")) == [[0xD83D, 0xDE00]]
    ensures RowAccepted(JavaSplit(Utf16("\U{1F600}")))
    ensures !HasPayload(JavaSplit(Utf16("\U{1F600}"))[0])
  {
    assert Utf16("\U{1F600}") == EncodeChar('\U{1F600}');
    var w: Field := [0xD83D, 0xDE00];
    assert Payload(w) == [];
  }

  /**
   * In the field U+1F600 `1"` the first code unit dropped is only the high
   * surrogate, so the payload starts with the low surrogate and the line is
   * rejected, without an exception.
   */
  lemma SurrogateInPayloadRejects()
    ensures Utf16("\U{1F600}1\"") == [0xD83D, 0xDE00, DigitZero + 1, Quote]
    ensures !RowAccepted(JavaSplit(Utf16("\U{1F600}1\"")))
    ensures !RowCrashes(JavaSplit(Utf16("\U{1F600}1\"")))
  {
    var w: Field := [0xD83D, 0xDE00, DigitZero + 1, Quote];
    assert Utf16("\U{1F600}1\"") == w by {
      assert "\U{1F600}1\""[1..] == "1\"";
      assert "1\""[1..] == "\"";
      assert "\""[1..] == "";
    }
    assert Semicolon !in w;
    assert Payload(w)[0] == 0xDE00;
    assert !CrashesAt([w], 0);
  }
}
