# Feature preprocessor: id-list vocabularies

A model of `InputPreproc`, the step that prepares one batch of tabular
features before a logistic-regression model sees it. Given a data description
with four ordered lists of feature names (float, id-list, id-score-list,
embedding), the preprocessor:

- splits the batch's feature frame into four column groups, each holding the
  frame's rows in order and the named columns in name-list order
  (`tables.dfy`: `Frame.Select`, `IsSelection`);
- in training mode, builds one vocabulary per id-list column. The vocabulary
  maps the column's distinct values, in ascending order (`np.unique`), to
  0 .. k-1. It is stored under the column's name and replaces any earlier
  metadata (`vocabulary.dfy`: `Unique`, `Enumerate`, `ColumnVocab`;
  `input_processor.dfy`: `GetIdListFeaturesMetadata`, `StoreVocabs`,
  `MetadataOf`);
- rewrites a copy of the id-list group column by column. A known value becomes
  its vocabulary index. An unknown value becomes the vocabulary's size, one
  shared out-of-vocabulary index per column (`EncodeValue`, `EncodeTable`,
  `IdListFeaturesPreproc` over a two-dimensional array);
- casts the id-score-list group to floating point and passes the float group,
  the embedding group and the labels through (`IdScoreListFeaturesPreproc`,
  `Call`).

The preprocessor is a class with two mutable fields: the mode and the id-list
metadata. The mode is set at construction, and a client may switch it between
calls, as the source's plain `is_train` attribute allows. The metadata starts
absent. A training-mode `Call` overwrites it and an evaluation-mode `Call`
only reads it. `Call` never changes the mode. `TrainThenEval` follows one
preprocessor through a training call, a mode switch and an evaluation call.

Raw cells are integers, so that "sorted distinct values" has a total order.
The id-score-list cast is modelled as `int` to `real`, which keeps every value
exactly.

The source allows a name to appear twice in the id-list name list. In that
case the later column's vocabulary overwrites the earlier one
(`StoreVocabsLastWriterWins`). Because a selection by names repeats the same
column for a repeated name (`SelectionConsistent`), the vocabulary stored
under `names[c]` is still the one built from column `c` (`MetadataOfConsistent`).

## Model

| member | source | states |
|---|---|---|
| Tables.Frame.Select | input_processor.py:80-91 | `df.loc[:, names].values` yields a table with every row of the frame in order. Its column j is the frame's column named `names[j]`, and its width is the length of the name list. |
| Tables.IndexOf | input_processor.py:80-91 | The position found for a column label holds that label, and no earlier position does. |
| Tables.SelectionConsistent | input_processor.py:80-91 | In any selection by names, two positions that carry the same name hold the same column. |
| Tables.Table.Column | input_processor.py:106 | `a[:, c]` has one cell per row, and cell i is row i's cell c. |
| Vocabulary.Unique | input_processor.py:107 | `np.unique` as repeated sorted insertion. It deliberately has no `ensures`; its properties are stated by `UniqueSpec` and `SortedIsDeterminedByValues`, which callers invoke where they need them. |
| Vocabulary.InsertSortedValues | input_processor.py:107 | Inserting a value into the running distinct list adds exactly that value. |
| Vocabulary.InsertSortedSorted | input_processor.py:107 | Inserting into an ascending repeat-free list keeps it ascending and repeat-free. |
| Vocabulary.UniqueSpec | input_processor.py:107 | `np.unique(col)` is ascending and repeat-free, and holds exactly the column's values. |
| Vocabulary.SortedIsDeterminedByValues | input_processor.py:107 | An ascending repeat-free list is determined by its set of values, so `Unique` is the only possible result of `np.unique`. |
| Vocabulary.Enumerate | input_processor.py:108 | The dict comprehension over `enumerate(unique_data)`, a later position overwriting an earlier one. It deliberately has no `ensures`; `EnumerateSpec` and `EnumerateIsVocab` state its properties. |
| Vocabulary.EnumerateSpec | input_processor.py:108 | `{data: idx for idx, data in enumerate(u)}` on an ascending list has one key per element and sends `u[i]` to i. Reading any key's index back in `u` gives the key. |
| Vocabulary.EnumerateIsVocab | input_processor.py:108 | That map's keys are exactly the list's values. Its indices are exactly 0 .. k-1, with no gaps or duplicates, and a smaller value has a smaller index. |
| Vocabulary.ColumnVocab | input_processor.py:105-108 | The vocabulary of one column, `Enumerate(Unique(col))`. It deliberately has no `ensures`; `ColumnVocabIsVocab` and `EncodeThenLookUp` state its properties. |
| Vocabulary.ColumnVocabIsVocab | input_processor.py:105-108 | A column's vocabulary has exactly the column's distinct values as keys and is an order-preserving bijection onto 0 .. k-1, k the number of distinct values. |
| Vocabulary.EncodeValue | input_processor.py:127 | `data2idx`: the stored index, or the vocabulary size for an unseen value. It deliberately has no `ensures`; `EncodeValueRange` and `EncodeThenLookUp` state its properties. |
| Vocabulary.EncodeValueRange | input_processor.py:127 | `data_idx_map.get(x, len(data_idx_map))` lies in [0, k]. It is k exactly for values outside the vocabulary, so all unseen values share one index, and no two known values share an index. |
| Vocabulary.EncodeThenLookUp | input_processor.py:105-127 | Encoding a column's own value with that column's vocabulary gives an index below k, and reading it back through the sorted distinct values gives the value. Any other value gets index k. |
| Vocabulary.TrainThenEncodeExample | input_processor.py:105-127 | A training column [1, 2, 1, 3] gives the vocabulary {1: 0, 2: 1, 3: 2}, and [1, 4, 3] then encodes to [0, 3, 2]. |
| Vocabulary.VocabOfExample | input_processor.py:105-108 | The training column [1, 2, 1, 3] gives the vocabulary {1: 0, 2: 1, 3: 2}. |
| InputProcessor.ColumnVocabs | input_processor.py:105-108 | There is one vocabulary per column of the id-list group. |
| InputProcessor.StoreVocabs | input_processor.py:109-111 | After storing the first n vocabularies, every one of the first n names is a key of the metadata. |
| InputProcessor.StoreVocabsFrom | input_processor.py:109-111 | Every key of the metadata is one of the first n names, and its vocabulary is the one built from a column with that name. |
| InputProcessor.StoreVocabsLastWriterWins | input_processor.py:109-111 | A name's vocabulary comes from the last column that carries the name. |
| InputProcessor.StoreVocabsConsistent | input_processor.py:109-111 | When equally named columns have equal vocabularies, the vocabulary under `names[c]` is column c's. |
| InputProcessor.MetadataOf | input_processor.py:99-113 | The result of `get_id_list_features_metadata`: every column's vocabulary stored in column order under its name. It deliberately has no `ensures`; `StoreVocabs`, `StoreVocabsFrom`, `StoreVocabsLastWriterWins`, `StoreVocabsConsistent` and `MetadataOfConsistent` state its properties. |
| InputProcessor.MetadataOfConsistent | input_processor.py:99-113 | For a selected id-list group, the metadata holds, under each column's name, that column's vocabulary, and every stored vocabulary is an order-preserving bijection onto 0 .. k-1. |
| InputProcessor.EncodeTable | input_processor.py:119-131 | Encoding keeps the shape of the table: same row count, same column count. |
| InputProcessor.EncodedCellRange | input_processor.py:124-129 | Every encoded cell of column c lies in [0, k], k the size of the vocabulary under `names[c]`. It is k exactly when the raw value is not in that vocabulary, and otherwise it is the value's stored index. |
| InputProcessor.EncodedWithOwnVocab | input_processor.py:105-129 | A cell encoded with its own column's vocabulary is below k and reads back as the raw value. |
| InputProcessor.EncodedWithOwnVocabs | input_processor.py:105-129 | The same holds for every cell of the table. |
| InputProcessor.TrainEncodingHasNoOov | input_processor.py:54-61 | Encoding a batch with the metadata built from that same batch never gives the out-of-vocabulary index, and every code reads back as the raw value. |
| InputProcessor.EncodedWithTrainedVocab | input_processor.py:105-129 | A cell of a later batch, encoded with the vocabulary built from training column c, is the out-of-vocabulary index (the number of distinct training values) exactly when the value was not in that training column. Otherwise it reads back as the value. |
| InputProcessor.EncodedWithTrainedVocabs | input_processor.py:105-129 | The same holds for every cell of the later batch. |
| InputProcessor.TableOf | input_processor.py:131 | The array read back as a table has its shape and its cells. |
| InputProcessor.EncodeColumn | input_processor.py:127-129 | `a[:, c] = result` replaces column c by the codes of its cells and leaves every other column as it was. |
| InputProcessor.InputPreproc.constructor | input_processor.py:30-37 | The data description and the mode are kept, and the metadata starts absent. |
| InputProcessor.InputPreproc.GetFeatureGroupsData | input_processor.py:76-97 | Each of the four groups is the selection of its name list from the frame. The id-list group is consistent with its names. |
| InputProcessor.InputPreproc.GetIdListFeaturesMetadata | input_processor.py:99-113 | The loop over the columns builds exactly `MetadataOf` of the id-list group. |
| InputProcessor.InputPreproc.IdListFeaturesPreproc | input_processor.py:115-131 | The column-by-column in-place rewrite of a copy yields exactly `EncodeTable` with the stored metadata. |
| InputProcessor.InputPreproc.IdScoreListFeaturesPreproc | input_processor.py:133-138 | The cast keeps the shape, and every cell is an integral real whose floor is the original cell. |
| InputProcessor.InputPreproc.Call | input_processor.py:39-74 | The mode is unchanged. Training mode replaces the metadata with the metadata of this batch alone, and evaluation mode leaves it unchanged. The output is the float group, the encoded id-list group, the cast id-score-list group, the embedding group and the labels, and every group has the batch's row count. |
| InputProcessor.EvalIsRepeatable | input_processor.py:54-61 | Two evaluation-mode calls on the same batch give the same output and leave the metadata as it was. |
| InputProcessor.TrainIgnoresEarlierMetadata | input_processor.py:54-57 | A training-mode call's output and new metadata do not depend on the metadata held before it. |
| InputProcessor.TrainThenEval | input_processor.py:54-61 | After a training call on one batch and a switch to evaluation mode, an id-list cell of a later batch gets the out-of-vocabulary index of its column, the number of distinct training values there, exactly when the training batch never had that value in that column. Every other cell reads back as its value through the sorted distinct training values. |

## Left out

- logistic_regression.py is not part of this model. It is floating-point numerics in `torch.nn` and has no logic of its own.
- The `DataReader` and `InputData` collaborators from `data_loader` are not part of this model. The four name lists and the batch are plain inputs (`FeatureNames`, `InputData`).
- Label values are passed through as a plain sequence of integers. `labels_df.values` is not modelled beyond that.
- The `np.int64` and `np.float64` casts are not modelled as machine types. Integers are unbounded, and the id-score-list cast is `int` to `real`, which keeps values exactly.
- All feature cells are integers. Float and embedding features are only passed through and never computed on, so their number type does not matter.
- A missing column (pandas `KeyError` in `.loc`) and a missing vocabulary in evaluation mode (`KeyError`, or a `TypeError` while the metadata is `None`) are preconditions of `Call` and of its steps. The source raises them and never recovers, so they are not modelled as error results.
- pandas allows duplicate column labels in a frame. The model requires the frame's labels to be distinct, and a selection then yields one column per listed name.
- The `OrderedDict` insertion order of the metadata is not modelled. The metadata is a map, and only its keys and values are observable here.
- InputProcessor.InputPreproc.Call: the cell bounds of the encoded id-list group are not repeated in `Call`'s own contract. They follow from `Call`'s output being `EncodeTable` of the stored metadata (`EncodedCellRange`) and, in training mode, of `MetadataOf` of the batch (`TrainEncodingHasNoOov`).
