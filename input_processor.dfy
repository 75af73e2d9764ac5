/**
 The feature preprocessor: it splits a batch's feature frame into four column
 groups by name, builds (in training mode) or reuses (in evaluation mode) one
 vocabulary per id-list column, encodes the id-list group with those
 vocabularies, casts the id-score-list group to reals and passes the rest and
 the labels through.
 */
module InputProcessor {
  import opened Tables
  import opened Vocabulary

  datatype Option<T> = None | Some(value: T)

  /** Id-list column name to that column's vocabulary. */
  type Metadata = map<string, Vocab>

  /** The four ordered name lists of the data description. */
  datatype FeatureNames = FeatureNames(
    floatNames: seq<string>,
    idListNames: seq<string>,
    idScoreListNames: seq<string>,
    embeddingNames: seq<string>)

  /** One batch: the feature frame and the label values. */
  datatype InputData = InputData(features: Frame<int>, labels: seq<int>)

  /** The four feature groups as selected from the frame. */
  datatype FeatureGroups = FeatureGroups(
    floatFeatures: Table<int>,
    idListFeatures: Table<int>,
    idScoreListFeatures: Table<int>,
    embeddingFeatures: Table<int>)

  /** The preprocessed batch. */
  datatype InputPreprocData = InputPreprocData(
    floatFeatures: Table<int>,
    idListFeatures: Table<int>,
    idScoreListFeatures: Table<real>,
    embeddingFeatures: Table<int>,
    labels: seq<int>)

  /** The vocabulary of every column of `t`, in column order. */
  function ColumnVocabs(t: Table<int>): (vocabs: seq<Vocab>)
    requires t.Valid()
    ensures |vocabs| == t.width
  {
    seq(t.width, c requires 0 <= c < t.width => ColumnVocab(t.Column(c)))
  }

  /** The metadata after the first `n` vocabularies have been stored, the one
      of column `c` under `names[c]`, overwriting what an earlier column of
      the same name stored. */
  function StoreVocabs(vocabs: seq<Vocab>, names: seq<string>, n: nat): (meta: Metadata)
    requires n <= |vocabs| && n <= |names|
    ensures forall c :: 0 <= c < n ==> names[c] in meta
    decreases n
  {
    if n == 0 then map[] else StoreVocabs(vocabs, names, n - 1)[names[n - 1] := vocabs[n - 1]]
  }

  /** The metadata built from the id-list group `t`. */
  function MetadataOf(t: Table<int>, names: seq<string>): Metadata
    requires t.Valid() && t.width <= |names|
  {
    StoreVocabs(ColumnVocabs(t), names, t.width)
  }

  /** Every stored vocabulary is one of the vocabularies given. */
  lemma {:induction false} StoreVocabsFrom(vocabs: seq<Vocab>, names: seq<string>, n: nat, name: string)
    requires n <= |vocabs| && n <= |names|
    requires name in StoreVocabs(vocabs, names, n)
    ensures exists c :: 0 <= c < n && names[c] == name && StoreVocabs(vocabs, names, n)[name] == vocabs[c]
  {
    if name != names[n - 1] {
      StoreVocabsFrom(vocabs, names, n - 1, name);
    }
  }

  /** The vocabulary stored under a name is the one built from the last column
      that carries that name. */
  lemma {:induction false} StoreVocabsLastWriterWins(vocabs: seq<Vocab>, names: seq<string>, n: nat, c: nat)
    requires n <= |vocabs| && n <= |names| && c < n
    requires forall d :: c < d < n ==> names[d] != names[c]
    ensures names[c] in StoreVocabs(vocabs, names, n)
    ensures StoreVocabs(vocabs, names, n)[names[c]] == vocabs[c]
  {
    if c < n - 1 {
      StoreVocabsLastWriterWins(vocabs, names, n - 1, c);
    }
  }

  /** When columns of the same name have the same vocabulary, as they do in a
      selection by names, the vocabulary stored under `names[c]` is column
      `c`'s. */
  lemma {:induction false} StoreVocabsConsistent(vocabs: seq<Vocab>, names: seq<string>, n: nat, c: nat)
    requires n <= |vocabs| && n <= |names| && c < n
    requires forall d, e :: 0 <= d < n && 0 <= e < n && names[d] == names[e] ==> vocabs[d] == vocabs[e]
    ensures names[c] in StoreVocabs(vocabs, names, n)
    ensures StoreVocabs(vocabs, names, n)[names[c]] == vocabs[c]
  {
    if names[n - 1] != names[c] {
      StoreVocabsConsistent(vocabs, names, n - 1, c);
    }
  }

  /** In the metadata of a table whose equally named columns agree, the
      vocabulary under `names[c]` is the vocabulary of column `c`, and every
      stored vocabulary is a sorted-order bijection onto 0 .. k-1. */
  lemma MetadataOfConsistent(t: Table<int>, names: seq<string>)
    requires t.Valid() && t.width <= |names| && Consistent(t, names)
    ensures forall c :: 0 <= c < t.width ==>
              names[c] in MetadataOf(t, names) && MetadataOf(t, names)[names[c]] == ColumnVocab(t.Column(c))
    ensures forall name :: name in MetadataOf(t, names) ==> IsVocab(MetadataOf(t, names)[name])
  {
    var vocabs := ColumnVocabs(t);
    forall c | 0 <= c < t.width
      ensures names[c] in MetadataOf(t, names) && MetadataOf(t, names)[names[c]] == ColumnVocab(t.Column(c))
    {
      StoreVocabsConsistent(vocabs, names, t.width, c);
    }
    forall name | name in MetadataOf(t, names) ensures IsVocab(MetadataOf(t, names)[name]) {
      StoreVocabsFrom(vocabs, names, t.width, name);
      var c :| 0 <= c < t.width && names[c] == name && MetadataOf(t, names)[name] == vocabs[c];
      ColumnVocabIsVocab(t.Column(c));
    }
  }

  /** Every cell of `t` replaced by its index in the vocabulary of its column's
      name. */
  function EncodeTable(meta: Metadata, names: seq<string>, t: Table<int>): (r: Table<int>)
    requires t.Valid() && t.width <= |names|
    requires forall c :: 0 <= c < t.width ==> names[c] in meta
    ensures r.Valid() && r.width == t.width && |r.rows| == |t.rows|
  {
    Table(t.width, seq(|t.rows|, i requires 0 <= i < |t.rows| =>
      seq(t.width, c requires 0 <= c < t.width => EncodeValue(meta[names[c]], t.rows[i][c]))))
  }

  /** A cell encoded with a vocabulary of k values lies in [0, k]; it is k
      exactly when the raw value is outside the vocabulary, and below k it is
      the value's vocabulary index. */
  lemma EncodedCellRange(meta: Metadata, names: seq<string>, t: Table<int>, i: nat, c: nat)
    requires t.Valid() && t.width <= |names|
    requires forall c :: 0 <= c < t.width ==> names[c] in meta
    requires forall name :: name in meta ==> IsVocab(meta[name])
    requires i < |t.rows| && c < t.width
    ensures 0 <= EncodeTable(meta, names, t).rows[i][c] <= |meta[names[c]]|
    ensures EncodeTable(meta, names, t).rows[i][c] == |meta[names[c]]| <==> t.rows[i][c] !in meta[names[c]]
    ensures t.rows[i][c] in meta[names[c]] ==> EncodeTable(meta, names, t).rows[i][c] == meta[names[c]][t.rows[i][c]]
  {
    EncodeValueRange(meta[names[c]], t.rows[i][c]);
  }

  /** A cell encoded with the vocabulary of its own column is a proper
      vocabulary index, and reads back, through the column's sorted distinct
      values, as the raw value. */
  lemma EncodedWithOwnVocab(meta: Metadata, names: seq<string>, t: Table<int>, i: nat, c: nat)
    requires t.Valid() && t.width <= |names|
    requires forall c :: 0 <= c < t.width ==> names[c] in meta
    requires i < |t.rows| && c < t.width
    requires meta[names[c]] == ColumnVocab(t.Column(c))
    ensures var code := EncodeTable(meta, names, t).rows[i][c];
            && 0 <= code < |meta[names[c]]|
            && code < |Unique(t.Column(c))| && Unique(t.Column(c))[code] == t.rows[i][c]
  {
    var col := t.Column(c);
    assert t.rows[i][c] == col[i];
    EncodeThenLookUp(col, t.rows[i][c]);
    ColumnVocabIsVocab(col);
  }

  /** Encoding a table with the metadata built from that same table never
      yields the out-of-vocabulary index, and every code reads back, through
      the sorted distinct values of its column, as the raw value. */
  lemma TrainEncodingHasNoOov(t: Table<int>, names: seq<string>)
    requires t.Valid() && t.width <= |names| && Consistent(t, names)
    ensures forall c :: 0 <= c < t.width ==> names[c] in MetadataOf(t, names)
    ensures forall i, c :: 0 <= i < |t.rows| && 0 <= c < t.width ==>
              var code := EncodeTable(MetadataOf(t, names), names, t).rows[i][c];
              && 0 <= code < |MetadataOf(t, names)[names[c]]|
              && code < |Unique(t.Column(c))| && Unique(t.Column(c))[code] == t.rows[i][c]
  {
    MetadataOfConsistent(t, names);
    EncodedWithOwnVocabs(MetadataOf(t, names), names, t);
  }

  /** EncodedWithOwnVocab for every cell of the table. */
  lemma EncodedWithOwnVocabs(meta: Metadata, names: seq<string>, t: Table<int>)
    requires t.Valid() && t.width <= |names|
    requires forall c :: 0 <= c < t.width ==> names[c] in meta && meta[names[c]] == ColumnVocab(t.Column(c))
    ensures forall i, c :: 0 <= i < |t.rows| && 0 <= c < t.width ==>
              var code := EncodeTable(meta, names, t).rows[i][c];
              && 0 <= code < |meta[names[c]]|
              && code < |Unique(t.Column(c))| && Unique(t.Column(c))[code] == t.rows[i][c]
  {
    forall i, c | 0 <= i < |t.rows| && 0 <= c < t.width
      ensures var code := EncodeTable(meta, names, t).rows[i][c];
              && 0 <= code < |meta[names[c]]|
              && code < |Unique(t.Column(c))| && Unique(t.Column(c))[code] == t.rows[i][c]
    {
      EncodedWithOwnVocab(meta, names, t, i, c);
    }
  }

  /** A cell of a later batch encoded with a vocabulary built from column
      `c` of a training table: it is the out-of-vocabulary index, the number
      of distinct training values, exactly when the value was not seen in
      that training column, and otherwise it reads back, through the sorted
      distinct training values, as the value. */
  lemma EncodedWithTrainedVocab(meta: Metadata, names: seq<string>, train: Table<int>, eval: Table<int>, i: nat, c: nat)
    requires train.Valid() && eval.Valid() && eval.width <= train.width <= |names|
    requires forall c :: 0 <= c < eval.width ==> names[c] in meta
    requires i < |eval.rows| && c < eval.width
    requires meta[names[c]] == ColumnVocab(train.Column(c))
    ensures var code := EncodeTable(meta, names, eval).rows[i][c];
            var col := train.Column(c);
            && (code == |Unique(col)| <==> eval.rows[i][c] !in col)
            && (eval.rows[i][c] in col ==> 0 <= code < |Unique(col)| && Unique(col)[code] == eval.rows[i][c])
  {
    EncodeThenLookUp(train.Column(c), eval.rows[i][c]);
  }

  /** EncodedWithTrainedVocab for every cell of the later batch. */
  lemma EncodedWithTrainedVocabs(meta: Metadata, names: seq<string>, train: Table<int>, eval: Table<int>)
    requires train.Valid() && eval.Valid() && eval.width <= train.width <= |names|
    requires forall c :: 0 <= c < eval.width ==> names[c] in meta && meta[names[c]] == ColumnVocab(train.Column(c))
    ensures forall i, c :: 0 <= i < |eval.rows| && 0 <= c < eval.width ==>
              var code := EncodeTable(meta, names, eval).rows[i][c];
              var col := train.Column(c);
              && (code == |Unique(col)| <==> eval.rows[i][c] !in col)
              && (eval.rows[i][c] in col ==> 0 <= code < |Unique(col)| && Unique(col)[code] == eval.rows[i][c])
  {
    forall i, c | 0 <= i < |eval.rows| && 0 <= c < eval.width
      ensures var code := EncodeTable(meta, names, eval).rows[i][c];
              var col := train.Column(c);
              && (code == |Unique(col)| <==> eval.rows[i][c] !in col)
              && (eval.rows[i][c] in col ==> 0 <= code < |Unique(col)| && Unique(col)[code] == eval.rows[i][c])
    {
      EncodedWithTrainedVocab(meta, names, train, eval, i, c);
    }
  }

  /** The cells of a two-dimensional array as a table. */
  function TableOf(a: array2<int>): (t: Table<int>)
    reads a
    ensures t.Valid() && t.width == a.Length1 && |t.rows| == a.Length0
    ensures forall i, d :: 0 <= i < a.Length0 && 0 <= d < a.Length1 ==> t.rows[i][d] == a[i, d]
  {
    Table(a.Length1, seq(a.Length0, i requires 0 <= i < a.Length0 reads a =>
      seq(a.Length1, d requires 0 <= d < a.Length1 reads a => a[i, d])))
  }

  /** Column `c` of `a` overwritten with the codes of its cells in `m`
      (`a[:, c] = result`); every other column is left as it was. */
  method EncodeColumn(a: array2<int>, c: nat, m: Vocab)
    requires c < a.Length1
    modifies a
    ensures forall i, d :: 0 <= i < a.Length0 && 0 <= d < a.Length1 ==>
              a[i, d] == if d == c then EncodeValue(m, old(a[i, d])) else old(a[i, d])
  {
    var result := seq(a.Length0, i requires 0 <= i < a.Length0 reads a => EncodeValue(m, a[i, c]));
    forall i | 0 <= i < a.Length0 {
      a[i, c] := result[i];
    }
  }

  /** The preprocessor. Its state is the mode, which a client may switch
      between calls, and the id-list metadata, absent until a training-mode
      call builds it. */
  class InputPreproc {
    const dataReader: FeatureNames
    var isTrain: bool
    var idListFeaturesMetadata: Option<Metadata>

    /** Every stored vocabulary maps its values onto 0 .. k-1 in ascending
        order. */
    ghost predicate Valid()
      reads this
    {
      idListFeaturesMetadata.Some? ==>
        forall name :: name in idListFeaturesMetadata.value ==> IsVocab(idListFeaturesMetadata.value[name])
    }

    constructor (dataReader: FeatureNames, isTrain: bool := true)
      ensures Valid()
      ensures this.dataReader == dataReader && this.isTrain == isTrain
      ensures idListFeaturesMetadata == None
    {
      this.dataReader := dataReader;
      this.isTrain := isTrain;
      idListFeaturesMetadata := None;
    }

    /** The frame names every column of every group. */
    predicate HasAllColumns(features: Frame<int>) {
      && features.HasColumns(dataReader.floatNames)
      && features.HasColumns(dataReader.idListNames)
      && features.HasColumns(dataReader.idScoreListNames)
      && features.HasColumns(dataReader.embeddingNames)
    }

    /** The four groups: each holds every row of the frame, in order, and the
        columns its name list names, in that list's order. */
    function GetFeatureGroupsData(features: Frame<int>): (g: FeatureGroups)
      requires features.Valid() && HasAllColumns(features)
      ensures IsSelection(features, dataReader.floatNames, g.floatFeatures)
      ensures IsSelection(features, dataReader.idListNames, g.idListFeatures)
      ensures IsSelection(features, dataReader.idScoreListNames, g.idScoreListFeatures)
      ensures IsSelection(features, dataReader.embeddingNames, g.embeddingFeatures)
      ensures Consistent(g.idListFeatures, dataReader.idListNames)
    {
      var g := FeatureGroups(
        features.Select(dataReader.floatNames),
        features.Select(dataReader.idListNames),
        features.Select(dataReader.idScoreListNames),
        features.Select(dataReader.embeddingNames));
      SelectionConsistent(features, dataReader.idListNames, g.idListFeatures);
      g
    }

    /** One vocabulary per column of the id-list group, stored under the
        column's name. */
    method GetIdListFeaturesMetadata(idListExamples: Table<int>) returns (meta: Metadata)
      requires idListExamples.Valid() && idListExamples.width <= |dataReader.idListNames|
      ensures meta == MetadataOf(idListExamples, dataReader.idListNames)
    {
      var names := dataReader.idListNames;
      meta := map[];
      var c := 0;
      while c < idListExamples.width
        invariant 0 <= c <= idListExamples.width
        invariant meta == StoreVocabs(ColumnVocabs(idListExamples), names, c)
      {
        var col := idListExamples.Column(c);
        var uniqueData := Unique(col);
        var dataIdxMap := Enumerate(uniqueData);
        meta := meta[names[c] := dataIdxMap];
        c := c + 1;
      }
    }

    /** A copy of the id-list group with every cell replaced, column by column,
        by its index in the stored vocabulary of that column's name. */
    method IdListFeaturesPreproc(idListFeatures: Table<int>) returns (r: Table<int>)
      requires idListFeatures.Valid() && idListFeatures.width <= |dataReader.idListNames|
      requires idListFeaturesMetadata.Some?
      requires forall c :: 0 <= c < idListFeatures.width ==>
                 dataReader.idListNames[c] in idListFeaturesMetadata.value
      ensures r == EncodeTable(idListFeaturesMetadata.value, dataReader.idListNames, idListFeatures)
    {
      var names, meta := dataReader.idListNames, idListFeaturesMetadata.value;
      ghost var e := EncodeTable(meta, names, idListFeatures);
      var m, n := |idListFeatures.rows|, idListFeatures.width;
      var a := new int[m, n]((i: nat, c: nat) requires i < m && c < n => idListFeatures.rows[i][c]);
      var c := 0;
      while c < n
        invariant 0 <= c <= n
        invariant forall i, d :: 0 <= i < m && 0 <= d < c ==> a[i, d] == e.rows[i][d]
        invariant forall i, d :: 0 <= i < m && c <= d < n ==> a[i, d] == idListFeatures.rows[i][d]
      {
        var dataIdxMap := meta[names[c]];
        EncodeColumn(a, c, dataIdxMap);
        c := c + 1;
      }
      r := TableOf(a);
      forall i | 0 <= i < m ensures r.rows[i] == e.rows[i] {
        assert forall d :: 0 <= d < n ==> r.rows[i][d] == e.rows[i][d];
      }
    }

    /** The id-score-list group as reals: every value is kept exactly. */
    function IdScoreListFeaturesPreproc(idScoreListFeatures: Table<int>): (r: Table<real>)
      requires idScoreListFeatures.Valid()
      ensures r.Valid() && r.width == idScoreListFeatures.width && |r.rows| == |idScoreListFeatures.rows|
      ensures forall i, j :: 0 <= i < |r.rows| && 0 <= j < r.width ==>
                r.rows[i][j] == r.rows[i][j].Floor as real && r.rows[i][j].Floor == idScoreListFeatures.rows[i][j]
    {
      Table(idScoreListFeatures.width, seq(|idScoreListFeatures.rows|, i requires 0 <= i < |idScoreListFeatures.rows| =>
        seq(idScoreListFeatures.width, j requires 0 <= j < idScoreListFeatures.width => idScoreListFeatures.rows[i][j] as real)))
    }

    /** Preprocess one batch. A training-mode call replaces the metadata with
        the one built from this batch alone; an evaluation-mode call only reads
        it, and needs it to be there. */
    method Call(inputData: InputData) returns (out: InputPreprocData)
      requires Valid()
      requires inputData.features.Valid() && HasAllColumns(inputData.features)
      requires !isTrain ==> idListFeaturesMetadata.Some?
      requires !isTrain ==> forall name :: name in dataReader.idListNames ==> name in idListFeaturesMetadata.value
      modifies this
      ensures Valid()
      ensures isTrain == old(isTrain)
      ensures idListFeaturesMetadata.Some?
      ensures var g := GetFeatureGroupsData(inputData.features);
              && (isTrain ==>
                    idListFeaturesMetadata == Some(MetadataOf(g.idListFeatures, dataReader.idListNames)))
              && (!isTrain ==> idListFeaturesMetadata == old(idListFeaturesMetadata))
              && (forall c :: 0 <= c < g.idListFeatures.width ==> dataReader.idListNames[c] in idListFeaturesMetadata.value)
              && out == InputPreprocData(
                   g.floatFeatures,
                   EncodeTable(idListFeaturesMetadata.value, dataReader.idListNames, g.idListFeatures),
                   IdScoreListFeaturesPreproc(g.idScoreListFeatures),
                   g.embeddingFeatures,
                   inputData.labels)
      ensures var rows := |inputData.features.data.rows|;
              && |out.floatFeatures.rows| == rows && |out.idListFeatures.rows| == rows
              && |out.idScoreListFeatures.rows| == rows && |out.embeddingFeatures.rows| == rows
    {
      var groups := GetFeatureGroupsData(inputData.features);
      var idListFeaturesNp := groups.idListFeatures;

      if isTrain {
        var meta := GetIdListFeaturesMetadata(idListFeaturesNp);
        idListFeaturesMetadata := Some(meta);
        MetadataOfConsistent(idListFeaturesNp, dataReader.idListNames);
      }

      var idListFeaturesPreprocNp := IdListFeaturesPreproc(idListFeaturesNp);
      var idScoreListFeaturesPreprocNp := IdScoreListFeaturesPreproc(groups.idScoreListFeatures);

      out := InputPreprocData(
        groups.floatFeatures,
        idListFeaturesPreprocNp,
        idScoreListFeaturesPreprocNp,
        groups.embeddingFeatures,
        inputData.labels);
    }
  }

  /** Two evaluation-mode calls on the same batch give the same result, since
      neither changes the metadata. */
  method EvalIsRepeatable(p: InputPreproc, inputData: InputData) returns (first: InputPreprocData, second: InputPreprocData)
    requires p.Valid() && !p.isTrain
    requires inputData.features.Valid() && p.HasAllColumns(inputData.features)
    requires p.idListFeaturesMetadata.Some?
    requires forall name :: name in p.dataReader.idListNames ==> name in p.idListFeaturesMetadata.value
    modifies p
    ensures first == second
    ensures p.idListFeaturesMetadata == old(p.idListFeaturesMetadata)
  {
    first := p.Call(inputData);
    second := p.Call(inputData);
  }

  /** A training-mode call forgets whatever metadata the preprocessor held:
      two training-mode preprocessors with the same feature names, whatever
      their earlier state, give the same output and end with the same
      metadata on the same batch. */
  method TrainIgnoresEarlierMetadata(p: InputPreproc, q: InputPreproc, inputData: InputData)
      returns (fromP: InputPreprocData, fromQ: InputPreprocData)
    requires p.Valid() && q.Valid() && p.isTrain && q.isTrain && p.dataReader == q.dataReader
    requires inputData.features.Valid() && p.HasAllColumns(inputData.features)
    modifies p, q
    ensures fromP == fromQ
    ensures p.idListFeaturesMetadata == q.idListFeaturesMetadata
  {
    fromP := p.Call(inputData);
    fromQ := q.Call(inputData);
  }

  /** The lifecycle of one preprocessor: a training-mode call on one batch,
      then the mode switched off and an evaluation-mode call on another. Each
      id-list cell of the second batch gets the out-of-vocabulary index of its
      column, the number of distinct values of that column in the training
      batch, exactly when the training batch never had that value there;
      every other cell reads back as its value. */
  method TrainThenEval(p: InputPreproc, trainData: InputData, evalData: InputData)
      returns (trainOut: InputPreprocData, evalOut: InputPreprocData)
    requires p.Valid() && p.isTrain
    requires trainData.features.Valid() && p.HasAllColumns(trainData.features)
    requires evalData.features.Valid() && p.HasAllColumns(evalData.features)
    modifies p
    ensures p.Valid() && !p.isTrain
    ensures var train := p.GetFeatureGroupsData(trainData.features).idListFeatures;
            var eval := p.GetFeatureGroupsData(evalData.features).idListFeatures;
            && train.width == eval.width
            && evalOut.idListFeatures.Valid()
            && evalOut.idListFeatures.width == eval.width && |evalOut.idListFeatures.rows| == |eval.rows|
    ensures var train := p.GetFeatureGroupsData(trainData.features).idListFeatures;
            var eval := p.GetFeatureGroupsData(evalData.features).idListFeatures;
            forall i, c :: 0 <= i < |eval.rows| && 0 <= c < eval.width ==>
              var code := evalOut.idListFeatures.rows[i][c];
              var col := train.Column(c);
              && (code == |Unique(col)| <==> eval.rows[i][c] !in col)
              && (eval.rows[i][c] in col ==> 0 <= code < |Unique(col)| && Unique(col)[code] == eval.rows[i][c])
  {
    var names := p.dataReader.idListNames;
    var train := p.GetFeatureGroupsData(trainData.features).idListFeatures;
    var eval := p.GetFeatureGroupsData(evalData.features).idListFeatures;
    trainOut := p.Call(trainData);
    var meta := p.idListFeaturesMetadata.value;
    MetadataOfConsistent(train, names);
    forall name | name in names ensures name in meta {
      var c :| 0 <= c < |names| && names[c] == name;
    }
    p.isTrain := false;
    evalOut := p.Call(evalData);
    EncodedWithTrainedVocabs(meta, names, train, eval);
  }
}
