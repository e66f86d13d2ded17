/** The report writers and the file-name helper of src/classify_windows.py:
    the rows `write_preds` and `write_fit` build from a result map, their
    order by (Chrom, BP), and `add_file_label`. */
module Reports {
  import opened Wrappers
  import opened PyStrings
  import opened PyDict
  import opened SnpUtils
  import opened ClassifyWindows

  // ---------------------------------------------------------------------
  // Rows
  // ---------------------------------------------------------------------

  /** One output row: the locus columns, then the writer's own columns. */
  datatype Row<V> = Row(chrom: string, bp: int, mutType: int, cols: V)

  /** `lab_dict`: the label of each output position of the network. */
  datatype Class = Neut | Hard | Soft

  datatype PredCols = PredCols(predicted: Class, neutScore: real, hardScore: real, softScore: real)

  datatype ReportError =
    | NotThreeKeyFields  // `chroms, bps, mut_type = zip(*keys)` without three key fields

  function Score(p: Probs, c: Class): real {
    match c
    case Neut => p.neut
    case Hard => p.hard
    case Soft => p.soft
  }

  function ClassIndex(c: Class): nat {
    match c
    case Neut => 0
    case Hard => 1
    case Soft => 2
  }

  /** `lab_dict[np.argmax(probs, axis=1)[0]]`: the class with the highest
      score, the earliest one on a tie. */
  function ArgMax3(p: Probs): (r: Class)
    ensures forall c: Class :: Score(p, c) <= Score(p, r)
    ensures forall c: Class :: ClassIndex(c) < ClassIndex(r) ==> Score(p, c) < Score(p, r)
  {
    if p.neut >= p.hard && p.neut >= p.soft then Neut
    else if p.hard >= p.soft then Hard
    else Soft
  }

  /** The key columns unpack into three names only when the map is not
      empty and every locus carries a mutation type. */
  predicate ThreeKeyFields<P>(d: Dict<Locus, P>) {
    d != [] && forall i :: 0 <= i < |d| ==> d[i].0.mt.Some?
  }

  /** The rows of `write_preds` in dictionary order, before sorting. */
  function PredRows(d: Dict<Locus, Probs>): (r: seq<Row<PredCols>>)
    requires ThreeKeyFields(d)
    ensures |r| == |d|
  {
    seq(|d|, i requires 0 <= i < |d| =>
      var (l, p) := d[i];
      Row(l.chrom, l.pos, l.mt.value, PredCols(ArgMax3(p), p.neut, p.hard, p.soft)))
  }

  /** The rows of `write_fit` in dictionary order: the p-value column is
      reported as `1 - p`. */
  function FitRows(d: Dict<Locus, FitResult>): (r: seq<Row<real>>)
    requires ThreeKeyFields(d)
    ensures |r| == |d|
  {
    seq(|d|, i requires 0 <= i < |d| =>
      var (l, f) := d[i];
      Row(l.chrom, l.pos, l.mt.value, 1.0 - f.pval))
  }

  // ---------------------------------------------------------------------
  // sort_values(["Chrom", "BP"])
  // ---------------------------------------------------------------------

  /** Row `a` may precede row `b`: by chromosome name, then by position. */
  predicate KeyLe<V>(a: Row<V>, b: Row<V>) {
    if a.chrom == b.chrom then a.bp <= b.bp else LexLe(a.chrom, b.chrom)
  }

  lemma {:induction false} KeyLeTotal<V>(a: Row<V>, b: Row<V>)
    ensures KeyLe(a, b) || KeyLe(b, a)
  {
    LexLeTotal(a.chrom, b.chrom);
  }

  lemma {:induction false} KeyLeTransitive<V>(a: Row<V>, b: Row<V>, c: Row<V>)
    requires KeyLe(a, b) && KeyLe(b, c)
    ensures KeyLe(a, c)
  {
    if a.chrom != b.chrom && b.chrom != c.chrom {
      LexLeTransitive(a.chrom, b.chrom, c.chrom);
      if a.chrom == c.chrom {
        LexLeAntisymmetric(a.chrom, b.chrom);
      }
    }
  }

  predicate Sorted<V>(rows: seq<Row<V>>) {
    forall i, j :: 0 <= i < j < |rows| ==> KeyLe(rows[i], rows[j])
  }

  /** Puts `x` before the first row it may precede. */
  function Insert<V(==)>(x: Row<V>, rows: seq<Row<V>>): (r: seq<Row<V>>)
    ensures multiset(r) == multiset(rows) + multiset{x}
  {
    if rows == [] then [x]
    else if KeyLe(x, rows[0]) then [x] + rows
    else
      assert rows == [rows[0]] + rows[1..];
      [rows[0]] + Insert(x, rows[1..])
  }

  /** Inserting into sorted rows keeps them sorted. */
  lemma {:induction false} InsertSorted<V>(x: Row<V>, rows: seq<Row<V>>)
    requires Sorted(rows)
    ensures Sorted(Insert(x, rows))
  {
    var r := Insert(x, rows);
    if rows == [] {
    } else if KeyLe(x, rows[0]) {
      forall j | 1 <= j < |r| ensures KeyLe(x, r[j]) {
        if j > 1 { KeyLeTransitive(x, rows[0], rows[j - 1]); }
      }
    } else {
      var rest := Insert(x, rows[1..]);
      InsertSorted(x, rows[1..]);
      KeyLeTotal(x, rows[0]);
      InsertLowerBound(rows[0], x, rows[1..]);
      assert r == [rows[0]] + rest;
    }
  }

  /** A row that may precede `x` and every row of `rows` may precede every
      row of the insertion. */
  lemma {:induction false} InsertLowerBound<V>(b: Row<V>, x: Row<V>, rows: seq<Row<V>>)
    requires KeyLe(b, x)
    requires forall i :: 0 <= i < |rows| ==> KeyLe(b, rows[i])
    ensures forall i :: 0 <= i < |Insert(x, rows)| ==> KeyLe(b, Insert(x, rows)[i])
  {
    if rows != [] && !KeyLe(x, rows[0]) {
      InsertLowerBound(b, x, rows[1..]);
      assert Insert(x, rows) == [rows[0]] + Insert(x, rows[1..]);
    }
  }

  /** The rows ordered by (Chrom, BP): an insertion sort, each row placed
      before the rows it may precede. */
  function SortRows<V(==)>(rows: seq<Row<V>>): (r: seq<Row<V>>)
    ensures Sorted(r)
    ensures multiset(r) == multiset(rows)
    ensures |r| == |rows|
  {
    if rows == [] then []
    else
      assert rows == [rows[0]] + rows[1..];
      var sorted := SortRows(rows[1..]);
      InsertSorted(rows[0], sorted);
      Insert(rows[0], sorted)
  }

  // ---------------------------------------------------------------------
  // write_preds, write_fit
  // ---------------------------------------------------------------------

  /** The table `write_preds` writes. */
  function WritePreds(d: Dict<Locus, Probs>): Result<seq<Row<PredCols>>, ReportError> {
    if !ThreeKeyFields(d) then Failure(NotThreeKeyFields)
    else Success(SortRows(PredRows(d)))
  }

  /** The table `write_fit` writes. */
  function WriteFit(d: Dict<Locus, FitResult>): Result<seq<Row<real>>, ReportError> {
    if !ThreeKeyFields(d) then Failure(NotThreeKeyFields)
    else Success(SortRows(FitRows(d)))
  }

  /** `row` reports entry `e` of a prediction map: its locus, its three
      scores, and the class of the highest score. */
  predicate PredRowOf(row: Row<PredCols>, e: (Locus, Probs)) {
    && row.chrom == e.0.chrom && row.bp == e.0.pos && Some(row.mutType) == e.0.mt
    && row.cols.neutScore == e.1.neut && row.cols.hardScore == e.1.hard && row.cols.softScore == e.1.soft
    && row.cols.predicted == ArgMax3(e.1)
  }

  /** `row` reports entry `e` of a FIT map: its locus and one minus its p-value. */
  predicate FitRowOf(row: Row<real>, e: (Locus, FitResult)) {
    && row.chrom == e.0.chrom && row.bp == e.0.pos && Some(row.mutType) == e.0.mt
    && row.cols + e.1.pval == 1.0
  }

  /** The prediction table: one row per entry, ordered by (Chrom, BP); each
      row is an entry's locus with its three scores, labelled with the class
      of its highest score (the earliest on a tie). */
  lemma {:induction false} WritePredsTable(d: Dict<Locus, Probs>)
    ensures WritePreds(d).Failure? <==> d == [] || exists i :: 0 <= i < |d| && d[i].0.mt.None?
    ensures WritePreds(d).Success? ==>
      var t := WritePreds(d).value;
      && |t| == |d|
      && Sorted(t)
      && multiset(t) == multiset(PredRows(d))
      && forall row :: row in t ==>
        exists i :: 0 <= i < |d| && PredRowOf(row, d[i])
  {
    if WritePreds(d).Success? {
      var t := WritePreds(d).value;
      var rows := PredRows(d);
      forall row | row in t
        ensures exists i :: 0 <= i < |d| && PredRowOf(row, d[i])
      {
        assert row in multiset(t);
        assert row in multiset(rows);
        var i :| 0 <= i < |rows| && rows[i] == row;
      }
    }
  }

  /** The FIT table: one row per entry, ordered by (Chrom, BP); each row is
      an entry's locus with one minus its p-value. */
  lemma {:induction false} WriteFitTable(d: Dict<Locus, FitResult>)
    ensures WriteFit(d).Failure? <==> d == [] || exists i :: 0 <= i < |d| && d[i].0.mt.None?
    ensures WriteFit(d).Success? ==>
      var t := WriteFit(d).value;
      && |t| == |d|
      && Sorted(t)
      && multiset(t) == multiset(FitRows(d))
      && forall row :: row in t ==>
        exists i :: 0 <= i < |d| && FitRowOf(row, d[i])
  {
    if WriteFit(d).Success? {
      var t := WriteFit(d).value;
      var rows := FitRows(d);
      forall row | row in t
        ensures exists i :: 0 <= i < |d| && FitRowOf(row, d[i])
      {
        assert row in multiset(t);
        assert row in multiset(rows);
        var i :| 0 <= i < |rows| && rows[i] == row;
      }
    }
  }

  // ---------------------------------------------------------------------
  // add_file_label
  // ---------------------------------------------------------------------

  /** `add_file_label`: the dot-separated pieces before the last one, glued
      without their dots, then `_label.` and the last piece. */
  function AddFileLabel(filename: string, tag: string): string {
    var parts := Split(filename, '.');
    Flatten(parts[..|parts| - 1]) + "_" + tag + "." + parts[|parts| - 1]
  }

  /** The label goes before the extension, and the dots of the stem are lost. */
  lemma {:induction false} AddFileLabelStem(stem: string, ext: string, tag: string)
    requires '.' !in ext
    ensures AddFileLabel(stem + "." + ext, tag) == RemoveChar(stem, '.') + "_" + tag + "." + ext
  {
    SplitAtSep(stem, ext, '.');
    SplitNoSep(ext, '.');
    ConcatSplit(stem, '.');
    var parts := Split(stem + "." + ext, '.');
    assert stem + "." + ext == stem + ['.'] + ext;
    assert parts == Split(stem, '.') + [ext];
    assert parts[..|parts| - 1] == Split(stem, '.');
  }

  /** A name without a dot gets an empty stem: `_label.name`. */
  lemma {:induction false} AddFileLabelNoDot(filename: string, tag: string)
    requires '.' !in filename
    ensures AddFileLabel(filename, tag) == "_" + tag + "." + filename
  {
    SplitNoSep(filename, '.');
  }
}
