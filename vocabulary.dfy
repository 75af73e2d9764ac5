/**
 The vocabulary of one categorical (id-list) column: its distinct values in
 ascending order (`np.unique`), the map from each value to its position in that
 order, and the lookup that sends a value outside the vocabulary to one shared
 out-of-vocabulary index, the vocabulary's size.
 */
module Vocabulary {

  /** A vocabulary: raw category value to index. */
  type Vocab = map<int, int>

  /** Ascending with no repeats. */
  predicate StrictlySorted(s: seq<int>) {
    forall i, j :: 0 <= i < j < |s| ==> s[i] < s[j]
  }

  /** A vocabulary as the source builds one: its values are exactly the indices
      0 .. |m|-1, and a smaller key has a smaller index. */
  ghost predicate IsVocab(m: Vocab) {
    && (forall v :: v in m ==> 0 <= m[v] < |m|)
    && (forall i :: 0 <= i < |m| ==> i in m.Values)
    && (forall a, b :: a in m && b in m && a < b ==> m[a] < m[b])
  }

  /** `x` put into its place in the ascending list `u` (left unchanged when
      `x` is already there). */
  function InsertSorted(u: seq<int>, x: int): seq<int> {
    if |u| == 0 then [x]
    else if x < u[0] then [x] + u
    else if x == u[0] then u
    else [u[0]] + InsertSorted(u[1..], x)
  }

  /** Inserting adds exactly `x` to the values of the list. */
  lemma {:induction false} InsertSortedValues(u: seq<int>, x: int)
    ensures forall y :: y in InsertSorted(u, x) <==> y in u || y == x
  {
    if |u| != 0 && x > u[0] {
      InsertSortedValues(u[1..], x);
      assert u == [u[0]] + u[1..];
    }
  }

  /** Inserting into an ascending, repeat-free list keeps it so. */
  lemma {:induction false} InsertSortedSorted(u: seq<int>, x: int)
    requires StrictlySorted(u)
    ensures StrictlySorted(InsertSorted(u, x))
  {
    if |u| == 0 || x == u[0] {
    } else if x < u[0] {
      var r := [x] + u;
      forall i, j | 0 <= i < j < |r| ensures r[i] < r[j] {
        assert r[j] == u[j - 1];
        if i > 0 {
          assert r[i] == u[i - 1];
        }
      }
    } else {
      var rest := InsertSorted(u[1..], x);
      InsertSortedSorted(u[1..], x);
      InsertSortedValues(u[1..], x);
      var r := [u[0]] + rest;
      forall y | y in rest ensures u[0] < y {
        if y != x {
          var m :| 0 <= m < |u| - 1 && u[1..][m] == y;
          assert u[m + 1] == y;
        }
      }
      forall i, j | 0 <= i < j < |r| ensures r[i] < r[j] {
        assert r[j] == rest[j - 1] && rest[j - 1] in rest;
        if i > 0 {
          assert r[i] == rest[i - 1];
        }
      }
    }
  }

  /** The sorted distinct values of a column (`np.unique`). */
  function Unique(s: seq<int>): seq<int> {
    if |s| == 0 then []
    else InsertSorted(Unique(s[..|s| - 1]), s[|s| - 1])
  }

  /** `Unique(s)` is ascending, repeat-free, and holds exactly the values of `s`. */
  lemma {:induction false} UniqueSpec(s: seq<int>)
    ensures StrictlySorted(Unique(s))
    ensures forall x :: x in Unique(s) <==> x in s
  {
    if |s| != 0 {
      var init := s[..|s| - 1];
      assert s == init + [s[|s| - 1]];
      UniqueSpec(init);
      InsertSortedValues(Unique(init), s[|s| - 1]);
      InsertSortedSorted(Unique(init), s[|s| - 1]);
    }
  }

  /** Two ascending repeat-free sequences with the same values are the same
      sequence: `Unique(s)` is the only sorted list of the distinct values of `s`. */
  lemma {:induction false} SortedIsDeterminedByValues(a: seq<int>, b: seq<int>)
    requires StrictlySorted(a) && StrictlySorted(b)
    requires forall x :: x in a <==> x in b
    ensures a == b
  {
    assert |b| != 0 ==> b[0] in b && b[0] in a;
    if |a| == 0 {
    } else {
      assert a[0] in a;
      var j :| 0 <= j < |b| && b[j] == a[0];
      assert b[0] in b;
      var i :| 0 <= i < |a| && a[i] == b[0];
      assert a[0] <= a[i] && b[0] <= b[j];
      assert a == [a[0]] + a[1..];
      assert b == [b[0]] + b[1..];
      assert forall x :: x in a[1..] <==> x in b[1..] by {
        forall x ensures x in a[1..] <==> x in b[1..] {
          assert x in a[1..] <==> x in a && x != a[0];
          assert x in b[1..] <==> x in b && x != b[0];
        }
      }
      SortedIsDeterminedByValues(a[1..], b[1..]);
    }
  }

  /** Each value of the list `u` mapped to its position in it
      (`{data: idx for idx, data in enumerate(unique_data)}`; a later position
      overwrites an earlier one). */
  function Enumerate(u: seq<int>): Vocab {
    if |u| == 0 then map[]
    else Enumerate(u[..|u| - 1])[u[|u| - 1] := |u| - 1]
  }

  /** For an ascending repeat-free list, the index map and the list undo each
      other: the map has one key per element, sends `u[i]` to `i`, and every
      key back to its place in `u`. */
  lemma {:induction false} EnumerateSpec(u: seq<int>)
    requires StrictlySorted(u)
    ensures |Enumerate(u)| == |u|
    ensures forall i :: 0 <= i < |u| ==> u[i] in Enumerate(u) && Enumerate(u)[u[i]] == i
    ensures forall v :: v in Enumerate(u) ==> 0 <= Enumerate(u)[v] < |u| && u[Enumerate(u)[v]] == v
  {
    if |u| != 0 {
      var k := |u| - 1;
      var init := u[..k];
      var prev := Enumerate(init);
      EnumerateSpec(init);
      assert u[k] !in prev;
      var m := prev[u[k] := k];
      forall i | 0 <= i < |u| ensures u[i] in m && m[u[i]] == i {
        if i < k {
          assert u[i] == init[i] && u[i] != u[k];
        }
      }
      forall v | v in m ensures 0 <= m[v] < |u| && u[m[v]] == v {
        if v != u[k] {
          assert init[prev[v]] == v;
        }
      }
    }
  }

  /** The index map of an ascending list is a vocabulary: a bijection onto
      0 .. |u|-1 that follows the ascending order. */
  lemma EnumerateIsVocab(u: seq<int>)
    requires StrictlySorted(u)
    ensures IsVocab(Enumerate(u))
    ensures forall v :: v in Enumerate(u) <==> v in u
  {
    EnumerateSpec(u);
    var m := Enumerate(u);
    forall i | 0 <= i < |m| ensures i in m.Values {
      assert u[i] in m && m[u[i]] == i;
    }
    forall a, b | a in m && b in m && a < b ensures m[a] < m[b] {
      assert u[m[a]] == a && u[m[b]] == b;
    }
  }

  /** The vocabulary of one column. */
  function ColumnVocab(col: seq<int>): Vocab {
    Enumerate(Unique(col))
  }

  /** A column's vocabulary has exactly the column's values as keys, and is a
      bijection from them onto 0 .. k-1, k the number of distinct values,
      that follows their ascending order. */
  lemma ColumnVocabIsVocab(col: seq<int>)
    ensures forall v :: v in ColumnVocab(col) <==> v in col
    ensures IsVocab(ColumnVocab(col))
    ensures |ColumnVocab(col)| == |Unique(col)|
  {
    UniqueSpec(col);
    EnumerateSpec(Unique(col));
    EnumerateIsVocab(Unique(col));
  }

  /** The index of a raw value: its vocabulary index if it has one, otherwise
      the size of the vocabulary (`data_idx_map.get(x, len(data_idx_map))`). */
  function EncodeValue(m: Vocab, x: int): int {
    if x in m then m[x] else |m|
  }

  /** Every code lies in [0, k], k the vocabulary size; it is k exactly for the
      values outside the vocabulary, so all of those share one bucket, and a
      value inside it gets an index no other value gets. */
  lemma EncodeValueRange(m: Vocab, x: int)
    requires IsVocab(m)
    ensures 0 <= EncodeValue(m, x) <= |m|
    ensures EncodeValue(m, x) == |m| <==> x !in m
    ensures forall y :: y in m && EncodeValue(m, y) == EncodeValue(m, x) ==> y == x
  {
  }

  /** Encoding with a column's own vocabulary, read back through the sorted
      distinct values, gives the value again for every value of the column and
      lands on the out-of-vocabulary index for every other value. */
  lemma EncodeThenLookUp(col: seq<int>, x: int)
    ensures x in col ==>
              var code := EncodeValue(ColumnVocab(col), x);
              0 <= code < |Unique(col)| && Unique(col)[code] == x
    ensures x !in col ==> EncodeValue(ColumnVocab(col), x) == |Unique(col)|
  {
    ColumnVocabIsVocab(col);
    UniqueSpec(col);
    EnumerateSpec(Unique(col));
  }

  /** np.unique of the worked example's training column. */
  lemma UniqueOfExample(train: seq<int>)
    requires train == [1, 2, 1, 3]
    ensures Unique(train) == [1, 2, 3]
  {
    var u := [1, 2, 3];
    assert StrictlySorted(u);
    assert forall x :: x in train <==> x in u;
    UniqueSpec(train);
    SortedIsDeterminedByValues(Unique(train), u);
  }

  /** The index map of the worked example's sorted values. */
  lemma EnumerateOfExample(u: seq<int>)
    requires u == [1, 2, 3]
    ensures Enumerate(u) == map[1 := 0, 2 := 1, 3 := 2]
  {
    assert u[..2] == [1, 2] && [1, 2][..1] == [1] && [1][..0] == [];
    assert Enumerate([1]) == map[1 := 0];
    assert Enumerate([1, 2]) == map[1 := 0, 2 := 1];
  }

  /** The worked example's vocabulary: training column [1, 2, 1, 3] gives
      {1: 0, 2: 1, 3: 2}. */
  lemma VocabOfExample(train: seq<int>)
    requires train == [1, 2, 1, 3]
    ensures ColumnVocab(train) == map[1 := 0, 2 := 1, 3 := 2]
  {
    assert ColumnVocab(train) == Enumerate([1, 2, 3]) by {
      UniqueOfExample(train);
    }
    EnumerateOfExample([1, 2, 3]);
  }

  /** Encoding [1, 4, 3] with the vocabulary {1: 0, 2: 1, 3: 2}. */
  lemma EncodeOfExample(m: Vocab, eval: seq<int>)
    requires m == map[1 := 0, 2 := 1, 3 := 2] && eval == [1, 4, 3]
    ensures seq(|eval|, i requires 0 <= i < |eval| => EncodeValue(m, eval[i])) == [0, 3, 2]
  {
    assert |m| == 3 by {
      assert m.Keys == {1, 2, 3};
    }
  }

  /** The worked example continued: with that vocabulary, [1, 4, 3] encodes
      to [0, 3, 2], the unseen 4 going to the out-of-vocabulary index 3. */
  lemma TrainThenEncodeExample(train: seq<int>, eval: seq<int>)
    requires train == [1, 2, 1, 3] && eval == [1, 4, 3]
    ensures seq(|eval|, i requires 0 <= i < |eval| => EncodeValue(ColumnVocab(train), eval[i])) == [0, 3, 2]
  {
    VocabOfExample(train);
    EncodeOfExample(ColumnVocab(train), eval);
  }
}
