/**
  The schema and row builder of `arff_dump`: from an M x N matrix of
  hidden-unit activations and one label per instance, the record handed
  to the ARFF serialiser (relation, description, attribute list, data).
*/
module ArffExport {
  import opened Decimal
  import opened LexOrder

  datatype Option<T> = None | Some(value: T)

  /** The ways the call fails before the record is built. */
  datatype ExportError =
    | LabelsMissing       // `len(labels)` on the default `None`
    | LabelCountMismatch  // the shape assertion: label count differs from the row count
    | DataUnbound         // zero rows: `data` is never assigned before the record is built

  datatype Result<T> = Ok(value: T) | Err(error: ExportError)

  /** An attribute's type: REAL, or nominal with its allowed values. */
  datatype AttrType = Real | Nominal(values: seq<string>)

  datatype Attribute = Attribute(name: string, kind: AttrType)

  /** A data cell: a copied activation (opaque here) or an instance's label. */
  datatype Cell<T> = Activation(v: T) | Label(text: string)

  datatype Export<T> = Export(
    description: string,
    relation: string,
    attributes: seq<Attribute>,
    data: seq<seq<Cell<T>>>)

  predicate Rectangular<T>(m: seq<seq<T>>) {
    forall i :: 0 <= i < |m| ==> |m[i]| == |m[0]|
  }

  /**
    `'unit' + format_str.format(i)`, padded to the digit count of N: the
    prefix `unit`, then digits that read back as the column index.
  */
  function UnitName(i: nat, n: nat): (name: string)
    ensures |name| > 4 && name[..4] == "unit"
    ensures AllDigits(name[4..])
    ensures Value(name[4..]) == i
  {
    var digits := PadDecimal(i, Digits(n));
    PadDecimalRoundTrip(i, Digits(n));
    assert ("unit" + digits)[4..] == digits;
    "unit" + digits
  }

  /** One REAL attribute per column, in column order, with names sorted as the columns are. */
  function UnitAttributes(n: nat): (attrs: seq<Attribute>)
    ensures |attrs| == n
    ensures forall i :: 0 <= i < n ==> attrs[i].name == UnitName(i, n) && attrs[i].kind == Real
    ensures forall i, j :: 0 <= i < j < n ==> LexLess(attrs[i].name, attrs[j].name)
  {
    var attrs := seq(n, i requires 0 <= i => Attribute(UnitName(i, n), Real));
    assert forall i, j :: 0 <= i < j < n ==> LexLess(attrs[i].name, attrs[j].name) by {
      forall i, j | 0 <= i < j < n
        ensures LexLess(attrs[i].name, attrs[j].name)
      {
        UnitNamesOrdered(i, j, n);
      }
    }
    attrs
  }

  /** The trailing nominal attribute: the distinct labels, each once, in sorted order. */
  function LabelAttribute(labels: seq<string>): (a: Attribute)
    ensures a.name == "label" && a.kind.Nominal?
    ensures StrictlySorted(a.kind.values)
    ensures Elements(a.kind.values) == Elements(labels)
  {
    Attribute("label", Nominal(SortedUnique(labels)))
  }

  /** `act.tolist() + [label]`: the activations unchanged, then the label. */
  function Row<T>(act: seq<T>, tag: string): (row: seq<Cell<T>>)
    ensures |row| == |act| + 1
    ensures forall c :: 0 <= c < |act| ==> row[c] == Activation(act[c])
    ensures row[|act|] == Label(tag)
  {
    seq(|act|, c requires 0 <= c < |act| => Activation(act[c])) + [Label(tag)]
  }

  /** Rows of the matrix zipped with the labels: one per instance, in order. */
  function Rows<T>(m: seq<seq<T>>, labels: seq<string>): (rows: seq<seq<Cell<T>>>)
    requires |m| == |labels|
    ensures |rows| == |m|
    ensures forall k :: 0 <= k < |m| ==> |rows[k]| == |m[k]| + 1 && rows[k][|m[k]|] == Label(labels[k])
    ensures forall k, c :: 0 <= k < |m| && 0 <= c < |m[k]| ==> rows[k][c] == Activation(m[k][c])
  {
    seq(|m|, k requires 0 <= k < |m| => Row(m[k], labels[k]))
  }

  /**
    `arff_dump` up to the file write: the export record, or the error the
    call raises first.
  */
  function ArffDump<T>(m: seq<seq<T>>, labels: Option<seq<string>>,
                       relation: string, description: string): (r: Result<Export<T>>)
    requires Rectangular(m)
    ensures r == Err(LabelsMissing) <==> labels.None?
    ensures r == Err(LabelCountMismatch) <==> labels.Some? && |labels.value| != |m|
    ensures r == Err(DataUnbound) <==> labels.Some? && |labels.value| == |m| == 0
    ensures r.Ok? ==> r.value.relation == relation && r.value.description == description
  {
    if labels.None? then Err(LabelsMissing)
    else if |m| != |labels.value| then Err(LabelCountMismatch)
    else if |m| == 0 then Err(DataUnbound)
    else
      // With assertions enabled, labels are present here, so the branch
      // that exports the bare matrix cannot be reached.
      var n := |m[0]|;
      Ok(Export(description, relation,
                UnitAttributes(n) + [LabelAttribute(labels.value)],
                Rows(m, labels.value)))
  }

  /** The call goes ahead exactly when labels are given, match the rows in number, and there is a row. */
  lemma DumpSucceedsIff<T>(m: seq<seq<T>>, labels: Option<seq<string>>, relation: string, description: string)
    requires Rectangular(m)
    ensures ArffDump(m, labels, relation, description).Ok? <==>
            labels.Some? && |labels.value| == |m| && |m| >= 1
  {
  }

  /** Every unit name is `unit` followed by exactly digits(N) characters. */
  lemma UnitNameLength(i: nat, n: nat)
    requires i < n
    ensures |UnitName(i, n)| == 4 + Digits(n)
  {
    DigitsMonotone(i, n);
  }

  /** Different columns get different names. */
  lemma UnitNamesDistinct(i: nat, j: nat, n: nat)
    requires i != j
    ensures UnitName(i, n) != UnitName(j, n)
  {
  }

  lemma {:induction false} LexLessCommonPrefix(p: string, s: string, t: string)
    ensures LexLess(p + s, p + t) <==> LexLess(s, t)
  {
    if p != [] {
      assert (p + s)[0] == p[0] && (p + t)[0] == p[0];
      assert (p + s)[1..] == p[1..] + s;
      assert (p + t)[1..] == p[1..] + t;
      LexLessCommonPrefix(p[1..], s, t);
    } else {
      assert p + s == s && p + t == t;
    }
  }

  /** For columns of the matrix, name order is index order. */
  lemma UnitNamesOrdered(i: nat, j: nat, n: nat)
    requires i < n && j < n
    ensures LexLess(UnitName(i, n), UnitName(j, n)) <==> i < j
  {
    var w := Digits(n);
    DigitsMonotone(i, n);
    DigitsMonotone(j, n);
    PadDecimalRoundTrip(i, w);
    PadDecimalRoundTrip(j, w);
    LexLessCommonPrefix("unit", PadDecimal(i, w), PadDecimal(j, w));
    LexLessDigits(PadDecimal(i, w), PadDecimal(j, w));
  }

  /**
    The attribute list of a successful call: N REAL unit attributes in
    column order, then `label` over the sorted distinct labels.
  */
  lemma DumpAttributes<T>(m: seq<seq<T>>, labels: seq<string>, relation: string, description: string)
    requires Rectangular(m) && |labels| == |m| >= 1
    ensures var r := ArffDump(m, Some(labels), relation, description);
      var n := |m[0]|;
      && r.Ok?
      && |r.value.attributes| == n + 1
      && (forall i :: 0 <= i < n ==> r.value.attributes[i] == Attribute(UnitName(i, n), Real))
      && r.value.attributes[n].name == "label"
      && r.value.attributes[n].kind.Nominal?
      && StrictlySorted(r.value.attributes[n].kind.values)
      && Elements(r.value.attributes[n].kind.values) == Elements(labels)
  {
  }

  /** Every instance's label is an allowed value, and every allowed value is some instance's label. */
  lemma DumpLabelsCovered<T>(m: seq<seq<T>>, labels: seq<string>, relation: string, description: string)
    requires Rectangular(m) && |labels| == |m| >= 1
    ensures var r := ArffDump(m, Some(labels), relation, description);
      var values := r.value.attributes[|m[0]|].kind.values;
      && (forall k :: 0 <= k < |m| ==> labels[k] in values)
      && (forall x :: x in values ==> exists k :: 0 <= k < |m| && labels[k] == x)
  {
    var values := SortedUnique(labels);
    forall k | 0 <= k < |m|
      ensures labels[k] in values
    {
      assert labels[k] in Elements(labels);
    }
    forall x | x in values
      ensures exists k :: 0 <= k < |m| && labels[k] == x
    {
      assert x in Elements(values);
    }
  }

  /** The allowed values of `label` have no duplicates. */
  lemma DumpLabelValuesDistinct<T>(m: seq<seq<T>>, labels: seq<string>, relation: string, description: string, i: nat, j: nat)
    requires Rectangular(m) && |labels| == |m| >= 1
    requires i < |SortedUnique(labels)| && j < |SortedUnique(labels)| && i != j
    ensures var values := ArffDump(m, Some(labels), relation, description).value.attributes[|m[0]|].kind.values;
      values[i] != values[j]
  {
    StrictlySortedDistinct(SortedUnique(labels), i, j);
  }

  /**
    The data of a successful call: M rows in input order; row k holds
    matrix row k unchanged followed by `labels[k]`.
  */
  lemma DumpRows<T>(m: seq<seq<T>>, labels: seq<string>, relation: string, description: string)
    requires Rectangular(m) && |labels| == |m| >= 1
    ensures var d := ArffDump(m, Some(labels), relation, description).value.data;
      var n := |m[0]|;
      && |d| == |m|
      && (forall k :: 0 <= k < |m| ==> |d[k]| == n + 1 && d[k][n] == Label(labels[k]))
      && (forall k, c :: 0 <= k < |m| && 0 <= c < n ==> d[k][c] == Activation(m[k][c]))
  {
  }

  /** Reads one data row back as its N activations and its label, if it has that shape. */
  function ReadRow<T>(row: seq<Cell<T>>, n: nat): Option<(seq<T>, string)> {
    if |row| == n + 1 && row[n].Label? && forall c :: 0 <= c < n ==> row[c].Activation?
    then Some((seq(n, c requires 0 <= c < n => row[c].v), row[n].text))
    else None
  }

  /** Reads the data section back as a matrix with N columns and a label list. */
  function ReadRows<T>(data: seq<seq<Cell<T>>>, n: nat): Option<(seq<seq<T>>, seq<string>)> {
    if data == [] then Some(([], []))
    else
      match (ReadRow(data[0], n), ReadRows(data[1..], n))
      case (Some(first), Some(rest)) => Some(([first.0] + rest.0, [first.1] + rest.1))
      case _ => None
  }

  lemma RowRoundTrip<T>(act: seq<T>, tag: string)
    ensures ReadRow(Row(act, tag), |act|) == Some((act, tag))
  {
    var row := Row(act, tag);
    assert seq(|act|, c requires 0 <= c < |act| => row[c].v) == act;
  }

  lemma {:induction false} RowsRoundTrip<T>(m: seq<seq<T>>, labels: seq<string>, n: nat)
    requires |m| == |labels|
    requires forall k :: 0 <= k < |m| ==> |m[k]| == n
    ensures ReadRows(Rows(m, labels), n) == Some((m, labels))
  {
    if m != [] {
      assert Rows(m, labels)[1..] == Rows(m[1..], labels[1..]);
      RowRoundTrip(m[0], labels[0]);
      RowsRoundTrip(m[1..], labels[1..], n);
      assert [m[0]] + m[1..] == m && [labels[0]] + labels[1..] == labels;
    }
  }

  /**
    Reading the data section of a successful call back recovers the
    matrix and the labels exactly.
  */
  lemma DumpRoundTrip<T>(m: seq<seq<T>>, labels: seq<string>, relation: string, description: string)
    requires Rectangular(m) && |labels| == |m| >= 1
    ensures ReadRows(ArffDump(m, Some(labels), relation, description).value.data, |m[0]|) == Some((m, labels))
  {
    RowsRoundTrip(m, labels, |m[0]|);
  }

  /** Examples: 10 columns give two digits, 100 give three, 7 give one. */
  lemma PaddingExamples()
    ensures UnitName(0, 10) == "unit00" && UnitName(9, 10) == "unit09"
    ensures UnitName(0, 100) == "unit000" && UnitName(99, 100) == "unit099"
    ensures UnitName(3, 7) == "unit3"
  {
    PaddingTwoDigits();
    PaddingThreeDigits();
    assert Digits(7) == 1 && PadDecimal(3, 1) == "3";
  }

  lemma PaddingTwoDigits()
    ensures UnitName(0, 10) == "unit00" && UnitName(9, 10) == "unit09"
  {
    assert Digits(10) == 2;
    assert PadDecimal(0, 2) == "00" && PadDecimal(9, 2) == "09";
  }

  lemma PaddingThreeDigits()
    ensures UnitName(0, 100) == "unit000" && UnitName(99, 100) == "unit099"
  {
    assert Digits(100) == 3;
    assert DecimalString(99) == "99";
    assert PadDecimal(0, 3) == "000";
    assert PadDecimal(99, 3) == "099";
  }
}
