# ARFF export schema and rows

A model of the schema and row builder of `arff_dump` in the lrn2 toolbox
(`lrn2/application/classification/io_arff.py`). Given an M x N matrix of
hidden-unit activations and one label per instance, `arff_dump` builds the
record handed to the WEKA ARFF serialiser:

- one REAL attribute per column, named `unit` followed by the column index
  zero-padded to the number of decimal digits of N;
- a trailing nominal attribute `label` whose allowed values are the
  distinct labels in sorted order;
- one data row per instance: the matrix row followed by that instance's label;
- the relation name and description, passed through.

The model is pure, like the code it follows:

- `decimal.dfy` (module `Decimal`): Python's `str(n)`, its length, the
  `"{0:0<w>d}"` zero-padded rendering, reading a digit string back, and the
  fact that equal-width digit strings sort as their numbers do.
- `lexorder.dfy` (module `LexOrder`): Python's string order, strictly
  sorted lists, and `sorted(uniquifier(labels))` as an insertion into a
  strictly sorted list, with the lemma that a strictly sorted list is fixed
  by its element set.
- `arff.dfy` (module `ArffExport`): the attribute, cell and export record
  datatypes and `ArffDump`, which returns the record or the error the call
  raises first.

Error paths are values of `ExportError`:

- `LabelsMissing`: `labels` left at its default `None`. With assertions
  enabled, line 44 calls `len(labels)` whatever the value, so this raises.
- `LabelCountMismatch`: the assertion at line 44 fails.
- `DataUnbound`: the matrix has no rows. In that case `data` is never
  assigned (lines 47-54 are skipped), so building the record at lines
  56-59 raises.

With assertions enabled, line 44 already rejects `None`. In that mode the
branch at lines 53-54 that exports the bare matrix cannot be reached, and
the model has no such branch. The docstring calls `labels` optional
(io_arff.py:27-28), but the code still requires it, and the model follows
the code.

## Model

| member | source | states |
|---|---|---|
| `ArffExport.ArffDump` | lrn2/application/classification/io_arff.py:42-59 | fails with LabelsMissing exactly when labels are None, with LabelCountMismatch exactly when the label count differs from M, with DataUnbound exactly when M = 0 with matching labels; on success relation and description pass through unchanged |
| `ArffExport.DumpSucceedsIff` | lrn2/application/classification/io_arff.py:44-59 | the record is built if and only if labels are given, their count equals M, and M >= 1 |
| `ArffExport.DumpAttributes` | lrn2/application/classification/io_arff.py:46-51 | N + 1 attributes: attribute i is (`unit` + i padded, REAL) for every column i in order; the last is named `label`, nominal, with strictly sorted values whose set equals the set of labels |
| `ArffExport.DumpLabelsCovered` | lrn2/application/classification/io_arff.py:51-52 | every row's label is an allowed value of `label`, and every allowed value is some row's label |
| `ArffExport.DumpLabelValuesDistinct` | lrn2/application/classification/io_arff.py:51 | the allowed values of `label` are pairwise distinct |
| `ArffExport.DumpRows` | lrn2/application/classification/io_arff.py:52 | exactly M rows in input order; row k has length N + 1, its first N cells are matrix row k unchanged and its last cell is labels[k] |
| `ArffExport.RowRoundTrip` | lrn2/application/classification/io_arff.py:52 | reading a built row back yields the activation row and its label |
| `ArffExport.RowsRoundTrip` | lrn2/application/classification/io_arff.py:52 | reading the zipped rows back yields the matrix and the label list |
| `ArffExport.DumpRoundTrip` | lrn2/application/classification/io_arff.py:52-59 | reading the data section of a successful call back recovers the matrix and the labels exactly |
| `ArffExport.UnitNameLength` | lrn2/application/classification/io_arff.py:48-49 | for a column i < N the name has length 4 + digits(N) |
| `ArffExport.UnitName` | lrn2/application/classification/io_arff.py:48-49 | the name starts with `unit` and the rest is all digits reading back as the column index |
| `ArffExport.UnitAttributes` | lrn2/application/classification/io_arff.py:49 | exactly N attributes, attribute i is named for column i and is REAL, and the names are strictly increasing in string order |
| `ArffExport.LabelAttribute` | lrn2/application/classification/io_arff.py:51 | named `label`, nominal, values strictly sorted with exactly the labels as their element set |
| `ArffExport.Row` | lrn2/application/classification/io_arff.py:52 | length N + 1, the first N cells are the activations unchanged, the last is the label; RowRoundTrip reads it back |
| `ArffExport.Rows` | lrn2/application/classification/io_arff.py:52 | one row per instance in order; row k is matrix row k unchanged followed by labels[k]; RowsRoundTrip reads them back |
| `ArffExport.UnitNamesDistinct` | lrn2/application/classification/io_arff.py:48-49 | different columns get different names |
| `ArffExport.UnitNamesOrdered` | lrn2/application/classification/io_arff.py:48-49 | for columns below N, name i sorts before name j as strings if and only if i < j |
| `ArffExport.LexLessCommonPrefix` | lrn2/application/classification/io_arff.py:49 | a common prefix (here `unit`) does not change string order |
| `ArffExport.PaddingExamples` | lrn2/application/classification/io_arff.py:48-49 | with 10 columns the names run `unit00`..`unit09`, with 100 columns `unit000`..`unit099`, with 7 columns no padding |
| `Decimal.Digits` | lrn2/application/classification/io_arff.py:48 | `len(str(n))` is the least width d >= 1 with n < 10^d |
| `Decimal.DecimalString` | lrn2/application/classification/io_arff.py:48 | `str(n)` has Digits(n) characters, all decimal digits, with no leading zero unless it is `0` |
| `Decimal.DecimalRoundTrip` | lrn2/application/classification/io_arff.py:48 | reading `str(n)` back as a number gives n |
| `Decimal.PadDecimal` | lrn2/application/classification/io_arff.py:48-49 | the padded rendering has width max(w, digits(n)), ends with `str(n)` and is zeros before it |
| `Decimal.PadDecimalRoundTrip` | lrn2/application/classification/io_arff.py:48-49 | the padded rendering is all digits and reads back as n |
| `Decimal.PadDecimalInjective` | lrn2/application/classification/io_arff.py:48-49 | different numbers padded to one width give different strings |
| `Decimal.DigitsAtMost` | lrn2/application/classification/io_arff.py:48 | a number below 10^w has at most w digits |
| `Decimal.DigitsMonotone` | lrn2/application/classification/io_arff.py:48-49 | i <= n implies digits(i) <= digits(n), so padding an index to digits(N) never overflows the width |
| `Decimal.ValueBound` | lrn2/application/classification/io_arff.py:48-49 | a digit string of length k denotes a number below 10^k |
| `Decimal.LexLessDigits` | lrn2/application/classification/io_arff.py:48-49 | for digit strings of one width, string order holds if and only if numeric order does |
| `LexOrder.LexLess` | lrn2/application/classification/io_arff.py:51 | the string order used by `sorted` holds exactly when s is a proper prefix of t, or s has the smaller character at the first position where they differ |
| `LexOrder.LexIrreflexive` | lrn2/application/classification/io_arff.py:51 | no string sorts before itself |
| `LexOrder.LexTransitive` | lrn2/application/classification/io_arff.py:51 | string order is transitive |
| `LexOrder.LexTotal` | lrn2/application/classification/io_arff.py:51 | any two different strings are ordered one way or the other |
| `LexOrder.StrictlySortedDistinct` | lrn2/application/classification/io_arff.py:51 | a strictly sorted list has no duplicates |
| `LexOrder.Insert` | lrn2/application/classification/io_arff.py:51 | inserting into a strictly sorted list keeps it strictly sorted and adds exactly the new element to its set |
| `LexOrder.SortedUnique` | lrn2/application/classification/io_arff.py:51 | `sorted(uniquifier(labels))` is strictly sorted and has exactly the labels as its element set |
| `LexOrder.StrictlySortedUnique` | lrn2/application/classification/io_arff.py:51 | two strictly sorted lists with the same elements are equal, so the label values do not depend on how de-duplication is done |

## Left out

- Opening the output file, the ARFF text serialisation and the write (io_arff.py:61-63): file I/O and a call into the third-party `arff` library, which is not part of this model.
- Logging (io_arff.py:38, 40, 62): observational only.
- `ensure_ndarray` (io_arff.py:42): its source is not part of this model. A rectangular matrix is a requirement of `ArffDump` instead. The model does not cover ragged input or one-dimensional input.
- `uniquifier`: its source is not part of this model. `SortedUnique` is specified by sortedness and its element set, and `StrictlySortedUnique` shows that this fixes the result.
- ArffDump: labels are strings only. A Dafny `string` here stands for a Python 2 byte string, so `str` leaves it unchanged and order is character by character. For non-string labels, line 51 sorts the raw values and only then applies `str`, so the value list follows the labels' own order, not string order. The rows carry the raw label values. Neither case is modelled.
- ArffDump: `unicode` labels are not modelled. The module imports `__builtin__` (io_arff.py:8), so it runs on Python 2 only. There, `str` at line 51 raises `UnicodeEncodeError` for a label with a non-ASCII character, such as `u'caf\xe9'`. The model returns `Ok` for every string label.
- ArffDump: the model assumes assertions are enabled. Under `python -O` the `assert` at line 44 is removed. Then `labels=None` reaches lines 53-54, which export the bare matrix with no `label` attribute. A label count that differs from M is not caught either, and the `zip` at line 52 cuts the rows to the shorter input. None of this is modelled.
- Activation values are opaque cells that are only copied. Floating point and their rendering are not modelled.
- The record key `'descripton'` (io_arff.py:56) is misspelled, so the serialiser probably ignores the description. The model keeps the description as a plain field.
- The `__main__` demo (io_arff.py:65-66) calls without labels. Under this model it fails with `LabelsMissing`.
