/**
 * Condition derivation (`formConditions`): a condition is a duplicated raw
 * field together with a column at which it stands in at least two rows.
 */
module Conditions {
  import opened Collections
  import opened Fields
  import opened Ingestion

  /** Row `r` of `rows` holds the field `w` in column `i`. */
  predicate At(rows: seq<Row>, r: int, i: nat, w: Field)
  {
    0 <= r < |rows| && i < |rows[r]| && rows[r][i] == w
  }

  /** Some row before `p` holds `w` in column `i`. */
  ghost predicate SeenBefore(rows: seq<Row>, p: int, w: Field, i: nat)
  {
    exists r :: 0 <= r < p && At(rows, r, i, w)
  }

  /** Two distinct rows before `p` hold `w` in column `i`. */
  ghost predicate TwiceBefore(rows: seq<Row>, p: int, w: Field, i: nat)
  {
    exists r1, r2 :: 0 <= r1 < r2 < p && At(rows, r1, i, w) && At(rows, r2, i, w)
  }

  /** (w, i) is a condition of the corpus: w is duplicated and stands in column i of two distinct rows. */
  ghost predicate IsCondition(c: Corpus, w: Field, i: nat)
  {
    w in c.duplicated && TwiceBefore(c.rows, |c.rows|, w, i)
  }

  /**
   * `conds` is the map `formConditions` returns: a word is a key only when it
   * has at least one condition column, and its value is exactly those columns.
   */
  ghost predicate IsConditionMap(c: Corpus, conds: map<Field, set<nat>>)
  {
    && (forall w :: w in conds ==> conds[w] != {})
    && (forall w: Field, i: nat :: i in Lookup(conds, w) <==> IsCondition(c, w, i))
  }

  /** Taking in row `p` adds its own cells to the seen ones. */
  lemma SeenStep(rows: seq<Row>, p: nat, w: Field, i: nat)
    requires p < |rows|
    ensures SeenBefore(rows, p + 1, w, i) <==> SeenBefore(rows, p, w, i) || At(rows, p, i, w)
  {
    if SeenBefore(rows, p + 1, w, i) && !At(rows, p, i, w) {
      var r :| 0 <= r < p + 1 && At(rows, r, i, w);
      assert r < p;
    }
  }

  /** A second occurrence in the same column appears exactly when row `p` repeats an earlier one. */
  lemma TwiceStep(rows: seq<Row>, p: nat, w: Field, i: nat)
    requires p < |rows|
    ensures TwiceBefore(rows, p + 1, w, i) <==> TwiceBefore(rows, p, w, i) || (At(rows, p, i, w) && SeenBefore(rows, p, w, i))
  {
    if TwiceBefore(rows, p + 1, w, i) && !TwiceBefore(rows, p, w, i) {
      var r1, r2 :| 0 <= r1 < r2 < p + 1 && At(rows, r1, i, w) && At(rows, r2, i, w);
      assert r2 == p;
      assert SeenBefore(rows, p, w, i);
    }
    if At(rows, p, i, w) && SeenBefore(rows, p, w, i) {
      var r :| 0 <= r < p && At(rows, r, i, w);
      assert TwiceBefore(rows, p + 1, w, i);
    }
  }

  /**
   * The inner loop of `formConditions` over one row. For a duplicated word,
   * `seen[w].add(i)` fails exactly when column `i` was already seen for it,
   * and then (w, i) is recorded as a condition.
   */
  method VisitRow(row: Row, dups: set<Field>, seen: map<Field, set<nat>>, conds: map<Field, set<nat>>)
    returns (seen': map<Field, set<nat>>, conds': map<Field, set<nat>>)
    requires seen.Keys == dups
    requires forall w :: w in conds ==> conds[w] != {}
    ensures seen'.Keys == dups
    ensures forall w: Field, i: nat {:trigger i in seen'[w]} :: w in dups ==> (i in seen'[w] <==> i in seen[w] || (i < |row| && row[i] == w))
    ensures forall w :: w in conds' ==> conds'[w] != {}
    ensures forall w: Field, i: nat {:trigger i in Lookup(conds', w)} :: i in Lookup(conds', w) <==>
      i in Lookup(conds, w) || (w in dups && i < |row| && row[i] == w && i in seen[w])
  {
    seen', conds' := seen, conds;
    var i := 0;
    while i < |row|
      invariant 0 <= i <= |row|
      invariant seen'.Keys == dups
      invariant forall w: Field, j: nat {:trigger j in seen'[w]} :: w in dups ==> (j in seen'[w] <==> j in seen[w] || (j < i && row[j] == w))
      invariant forall w :: w in conds' ==> conds'[w] != {}
      invariant forall w: Field, j: nat {:trigger j in Lookup(conds', w)} :: j in Lookup(conds', w) <==>
        j in Lookup(conds, w) || (w in dups && j < i && row[j] == w && j in seen[w])
    {
      var word := row[i];
      ghost var conds0 := conds';
      if word in seen' {
        assert i in seen'[word] <==> i in seen[word];
        if i in seen'[word] {
          conds' := conds'[word := Lookup(conds', word) + {i}];
        } else {
          seen' := seen'[word := seen'[word] + {i}];
        }
      }
      forall w: Field, j: nat {:trigger j in Lookup(conds', w)}
        ensures j in Lookup(conds', w) <==> j in Lookup(conds, w) || (w in dups && j < i + 1 && row[j] == w && j in seen[w])
      {
        assert j in Lookup(conds0, w) <==> j in Lookup(conds, w) || (w in dups && j < i && row[j] == w && j in seen[w]);
      }
      i := i + 1;
    }
  }

  /**
   * `formConditions`: one pass over the rows, remembering per duplicated word
   * the columns it has been seen in.
   */
  method FormConditions(c: Corpus) returns (conds: map<Field, set<nat>>)
    ensures IsConditionMap(c, conds)
  {
    var seen: map<Field, set<nat>> := map w | w in c.duplicated :: {};
    conds := map[];
    var p := 0;
    while p < |c.rows|
      invariant 0 <= p <= |c.rows|
      invariant seen.Keys == c.duplicated
      invariant forall w: Field, i: nat {:trigger i in seen[w]} :: w in c.duplicated ==> (i in seen[w] <==> SeenBefore(c.rows, p, w, i))
      invariant forall w :: w in conds ==> conds[w] != {}
      invariant forall w: Field, i: nat {:trigger i in Lookup(conds, w)} :: i in Lookup(conds, w) <==> w in c.duplicated && TwiceBefore(c.rows, p, w, i)
    {
      var seen', conds' := VisitRow(c.rows[p], c.duplicated, seen, conds);
      forall w: Field, i: nat | w in c.duplicated
        ensures i in seen'[w] <==> SeenBefore(c.rows, p + 1, w, i)
      {
        SeenStep(c.rows, p, w, i);
        assert i in seen[w] <==> SeenBefore(c.rows, p, w, i);
      }
      forall w: Field, i: nat
        ensures i in Lookup(conds', w) <==> w in c.duplicated && TwiceBefore(c.rows, p + 1, w, i)
      {
        TwiceStep(c.rows, p, w, i);
        assert i in Lookup(conds, w) <==> w in c.duplicated && TwiceBefore(c.rows, p, w, i);
        if w in c.duplicated {
          assert i in seen[w] <==> SeenBefore(c.rows, p, w, i);
        }
      }
      seen, conds := seen', conds';
      p := p + 1;
    }
  }

  /** Conditions only ever involve words with a non-empty payload, at columns inside the rows. */
  lemma ConditionsOfIngestedCorpus(lines: seq<JavaString>, c: Corpus, conds: map<Field, set<nat>>)
    requires IsIngested(lines, c)
    requires IsConditionMap(c, conds)
    ensures forall w :: w in conds ==> HasPayload(w)
    ensures forall w: Field, i: nat :: w in conds && i in conds[w] ==> i < c.maxColumns
  {
    forall w | w in conds ensures HasPayload(w) {
      var i :| i in conds[w];
      assert i in Lookup(conds, w);
    }
    forall w, i | w in conds && i in conds[w] ensures i < c.maxColumns {
      assert i in Lookup(conds, w);
      var r1, r2 :| 0 <= r1 < r2 < |c.rows| && At(c.rows, r1, i, w) && At(c.rows, r2, i, w);
    }
  }

  /** Counting over a longer prefix never counts less. */
  lemma {:induction false} OccurrencesGrow(rows: seq<Row>, p: nat, q: nat, w: Field)
    requires p <= q <= |rows|
    ensures Occurrences(rows[..p], w) <= Occurrences(rows[..q], w)
  {
    if p < q {
      OccurrencesGrow(rows, p, q - 1, w);
      assert rows[..q][..q - 1] == rows[..q - 1];
    }
  }

  /** A row holding `w` adds at least one to its count. */
  lemma OccursInRow(rows: seq<Row>, r: nat, i: nat, w: Field)
    requires At(rows, r, i, w)
    ensures Occurrences(rows[..r + 1], w) >= Occurrences(rows[..r], w) + 1
  {
    assert rows[..r + 1][..r] == rows[..r];
    assert rows[..r + 1][r] == rows[r];
    assert rows[r][i] in multiset(rows[r]);
  }

  /** A word with a payload standing in one column of two distinct rows is duplicated. */
  lemma TwiceMeansDuplicated(rows: seq<Row>, w: Field, i: nat)
    requires HasPayload(w) && TwiceBefore(rows, |rows|, w, i)
    ensures IsDuplicated(rows, w)
  {
    var r1, r2 :| 0 <= r1 < r2 < |rows| && At(rows, r1, i, w) && At(rows, r2, i, w);
    OccursInRow(rows, r1, i, w);
    OccursInRow(rows, r2, i, w);
    OccurrencesGrow(rows, r1 + 1, r2, w);
    OccurrencesGrow(rows, r2 + 1, |rows|, w);
    assert rows[..|rows|] == rows;
  }

  /**
   * On an ingested corpus the duplicated set adds nothing to a condition:
   * (w, i) is one exactly when w has a payload and stands in column i of two
   * distinct rows.
   */
  lemma ConditionIffRepeatedInColumn(lines: seq<JavaString>, c: Corpus, w: Field, i: nat)
    requires IsIngested(lines, c)
    ensures IsCondition(c, w, i) <==> HasPayload(w) && TwiceBefore(c.rows, |c.rows|, w, i)
  {
    if HasPayload(w) && TwiceBefore(c.rows, |c.rows|, w, i) {
      TwiceMeansDuplicated(c.rows, w, i);
    }
  }
}
