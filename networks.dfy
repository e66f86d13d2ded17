/** The two data helpers of src/networks.py: `format_arr`, which reshapes a
    flat feature vector into a (windows, features) table, and
    `get_ts_from_dir`, which reads the number of sampled timepoints from a
    directory name. */
module Networks {
  import opened Wrappers
  import opened PyStrings

  /** The number of pieces `format_arr` splits a feature vector into. */
  const Sections: nat := 15

  datatype NetError =
    | UnequalChunks          // `np.vstack` of pieces of different lengths
    | TooFewFields           // `dirname.split("-")[2]` with fewer than three fields
    | NotAnInteger(text: string)  // `int(...)` of text that is not a number

  /** Where piece `k` of `np.array_split` starts, when every piece holds
      `q` items and the first `extra` pieces one item more. */
  function ChunkStart(q: nat, extra: nat, k: nat): nat {
    if k == 0 then 0 else ChunkStart(q, extra, k - 1) + q + (if k - 1 < extra then 1 else 0)
  }

  /** Pieces start in order. */
  lemma {:induction false} ChunkStartLe(q: nat, extra: nat, k: nat, l: nat)
    requires k <= l
    ensures ChunkStart(q, extra, k) <= ChunkStart(q, extra, l)
    decreases l
  {
    if k < l {
      ChunkStartLe(q, extra, k, l - 1);
    }
  }

  /** Piece `k` starts after `k` full pieces and the longer pieces before it. */
  lemma {:induction false} ChunkStartClosed(q: nat, extra: nat, k: nat)
    ensures ChunkStart(q, extra, k) == k * q + (if k <= extra then k else extra)
  {
    if k > 0 {
      ChunkStartClosed(q, extra, k - 1);
      assert k * q == (k - 1) * q + q;
    }
  }

  /** The last piece ends where the input ends. */
  lemma {:induction false} ChunkEnd(n: nat, parts: nat)
    requires parts > 0
    ensures ChunkStart(n / parts, n % parts, parts) == n
  {
    ChunkStartClosed(n / parts, n % parts, parts);
  }

  /** All pieces start no later than the end of the last one. */
  lemma {:induction false} ChunkStartsBelow(q: nat, extra: nat, parts: nat)
    ensures forall k :: 0 <= k <= parts ==> ChunkStart(q, extra, k) <= ChunkStart(q, extra, parts)
  {
    forall k | 0 <= k <= parts ensures ChunkStart(q, extra, k) <= ChunkStart(q, extra, parts) {
      ChunkStartLe(q, extra, k, parts);
    }
  }

  /** The first `parts` pieces of `x` that hold `q` items each and one more
      for the first `extra` of them. */
  function Chunks<T>(x: seq<T>, q: nat, extra: nat, parts: nat): (r: seq<seq<T>>)
    requires ChunkStart(q, extra, parts) <= |x|
    ensures |r| == parts
    ensures forall k :: 0 <= k < parts ==> |r[k]| == q + (if k < extra then 1 else 0)
  {
    ChunkStartsBelow(q, extra, parts);
    seq(parts, k requires 0 <= k < parts => x[ChunkStart(q, extra, k)..ChunkStart(q, extra, k + 1)])
  }

  /** Item `i` of piece `k` is item `i` after the start of piece `k`. */
  lemma {:induction false} ChunkItem<T>(x: seq<T>, q: nat, extra: nat, parts: nat, k: nat, i: nat)
    requires ChunkStart(q, extra, parts) <= |x| && k < parts
    requires i < q + (if k < extra then 1 else 0)
    ensures ChunkStart(q, extra, k) + i < |x|
    ensures Chunks(x, q, extra, parts)[k][i] == x[ChunkStart(q, extra, k) + i]
  {
    ChunkStartLe(q, extra, k + 1, parts);
    assert ChunkStart(q, extra, k + 1) == ChunkStart(q, extra, k) + q + (if k < extra then 1 else 0);
    var r := Chunks(x, q, extra, parts);
    assert r[k] == x[ChunkStart(q, extra, k)..ChunkStart(q, extra, k + 1)];
  }

  /** The first `k` pieces glued together are the input up to the start
      of piece `k`. */
  lemma {:induction false} ChunksPrefix<T>(x: seq<T>, q: nat, extra: nat, parts: nat, k: nat)
    requires ChunkStart(q, extra, parts) <= |x| && k <= parts
    ensures ChunkStart(q, extra, k) <= |x|
    ensures Flatten(Chunks(x, q, extra, parts)[..k]) == x[..ChunkStart(q, extra, k)]
  {
    ChunkStartLe(q, extra, k, parts);
    if k > 0 {
      var r := Chunks(x, q, extra, parts);
      ChunksPrefix(x, q, extra, parts, k - 1);
      assert r[..k][..k - 1] == r[..k - 1];
      var a := ChunkStart(q, extra, k - 1);
      var b := ChunkStart(q, extra, k);
      assert r[k - 1] == x[a..b];
      assert x[..a] + x[a..b] == x[..b];
    }
  }

  /** `np.array_split(x, parts)`: `parts` consecutive pieces whose lengths
      differ by at most one, the longer ones first. */
  function ArraySplit<T>(x: seq<T>, parts: nat): (r: seq<seq<T>>)
    requires parts > 0
    ensures |r| == parts
    ensures forall k :: 0 <= k < parts ==>
      |r[k]| == |x| / parts + (if k < |x| % parts then 1 else 0)
  {
    ChunkEnd(|x|, parts);
    Chunks(x, |x| / parts, |x| % parts, parts)
  }

  /** The pieces of `np.array_split` glued together give the input back. */
  lemma {:induction false} ArraySplitFlatten<T>(x: seq<T>, parts: nat)
    requires parts > 0
    ensures Flatten(ArraySplit(x, parts)) == x
  {
    var q, extra := |x| / parts, |x| % parts;
    ChunkEnd(|x|, parts);
    ChunksPrefix(x, q, extra, parts, parts);
    var r := Chunks(x, q, extra, parts);
    assert r[..parts] == r;
    assert x[..|x|] == x;
  }

  /** `np.vstack` of one-dimensional pieces: a table with one row per piece,
      refused when the pieces differ in length. */
  function VStack<T>(rows: seq<seq<T>>): (r: Result<seq<seq<T>>, NetError>)
    requires |rows| > 0
    ensures r.Success? ==> r.value == rows && forall i :: 0 <= i < |rows| ==> |rows[i]| == |rows[0]|
    ensures r.Failure? ==> r.error == UnequalChunks && exists i :: 0 <= i < |rows| && |rows[i]| != |rows[0]|
  {
    if exists i :: 0 <= i < |rows| && |rows[i]| != |rows[0]| then Failure(UnequalChunks)
    else Success(rows)
  }

  /** `.T` of a table whose rows all have `width` entries. */
  function Transpose<T>(rows: seq<seq<T>>, width: nat): (r: seq<seq<T>>)
    requires forall i :: 0 <= i < |rows| ==> |rows[i]| == width
    ensures |r| == width
    ensures forall i :: 0 <= i < width ==> |r[i]| == |rows|
  {
    seq(width, i requires 0 <= i < width => seq(|rows|, j requires 0 <= j < |rows| => rows[j][i]))
  }

  /** `format_arr`: split into `Sections` pieces, stack them as rows, and
      transpose, so that each piece becomes a column. */
  function FormatArr<T>(x: seq<T>): Result<seq<seq<T>>, NetError> {
    match VStack(ArraySplit(x, Sections))
    case Failure(e) => Failure(e)
    case Success(stacked) => Success(Transpose(stacked, |stacked[0]|))
  }

  /** `format_arr` raises exactly when the length is not a multiple of
      `Sections`: only then do the pieces differ in length. */
  lemma {:induction false} FormatArrFails<T>(x: seq<T>)
    ensures FormatArr(x).Failure? <==> |x| % Sections != 0
    ensures FormatArr(x).Failure? ==> FormatArr(x).error == UnequalChunks
  {
    var chunks := ArraySplit(x, Sections);
    if |x| % Sections != 0 {
      assert |chunks[Sections - 1]| != |chunks[0]|;
    }
  }

  /** For a length `Sections * m`, `format_arr` gives `m` rows of `Sections`
      entries, entry `j` of row `i` being item `j * m + i` of the input. */
  lemma {:induction false} FormatArrShape<T>(x: seq<T>)
    requires |x| % Sections == 0
    ensures FormatArr(x).Success?
    ensures var r := FormatArr(x).value; var m := |x| / Sections;
      && |r| == m
      && (forall i :: 0 <= i < m ==> |r[i]| == Sections)
      && forall i, j :: 0 <= i < m && 0 <= j < Sections ==> j * m + i < |x| && r[i][j] == x[j * m + i]
  {
    FormatArrFails(x);
    var m := |x| / Sections;
    ChunkEnd(|x|, Sections);
    var chunks := Chunks(x, m, 0, Sections);
    assert ArraySplit(x, Sections) == chunks;
    assert FormatArr(x) == Success(Transpose(chunks, m));
    TransposeChunks(x, m);
  }

  /** Where entry `j` of row `i` comes from in a flat vector of `Sections`
      pieces of length `m`. */
  function Source(m: nat, i: nat, j: nat): nat {
    j * m + i
  }

  /** Entry `j` of row `i` of the transposed equal pieces of length `m` is
      item `j * m + i`. */
  lemma {:induction false} TransposeChunks<T>(x: seq<T>, m: nat)
    requires ChunkStart(m, 0, Sections) <= |x|
    ensures forall i: nat, j: nat :: i < m && j < Sections ==>
      Source(m, i, j) < |x| && Transpose(Chunks(x, m, 0, Sections), m)[i][j] == x[Source(m, i, j)]
  {
    forall i: nat, j: nat | i < m && j < Sections
      ensures Source(m, i, j) < |x| && Transpose(Chunks(x, m, 0, Sections), m)[i][j] == x[Source(m, i, j)]
    {
      TransposeChunkAt(x, m, i, j);
    }
  }

  lemma {:induction false} TransposeChunkAt<T>(x: seq<T>, m: nat, i: nat, j: nat)
    requires ChunkStart(m, 0, Sections) <= |x| && i < m && j < Sections
    ensures Source(m, i, j) < |x| && Transpose(Chunks(x, m, 0, Sections), m)[i][j] == x[Source(m, i, j)]
  {
    var chunks := Chunks(x, m, 0, Sections);
    ChunkStartClosed(m, 0, j);
    assert ChunkStart(m, 0, j) == j * m;
    ChunkItem(x, m, 0, Sections, j, i);
    assert Transpose(chunks, m)[i][j] == chunks[j][i];
  }

  /** An index below `s * m` splits into a quotient below `s` and a
      remainder below `m`. */
  lemma {:induction false} DivBelow(p: nat, m: nat, s: nat)
    requires 0 < m && p < s * m
    ensures p / m < s && (p / m) * m + p % m == p
  {
    var j := p / m;
    assert j * m <= p;
    assert j * m < s * m;
    MulLtCancel(j, s, m);
  }

  lemma {:induction false} MulLtCancel(j: nat, s: nat, m: nat)
    requires j * m < s * m
    ensures j < s
  {
  }

  /** Every item of the input lands in the table: item `p` is entry
      `p / m` of row `p % m`, so the reshaping loses nothing. */
  lemma {:induction false} FormatArrKeepsAll<T>(x: seq<T>)
    requires |x| % Sections == 0 && |x| > 0
    ensures var r := FormatArr(x).value; var m := |x| / Sections;
      forall p :: 0 <= p < |x| ==> p % m < |r| && p / m < Sections && r[p % m][p / m] == x[p]
  {
    FormatArrShape(x);
    var r := FormatArr(x).value;
    var m := |x| / Sections;
    forall p | 0 <= p < |x|
      ensures p % m < |r| && p / m < Sections && r[p % m][p / m] == x[p]
    {
      DivBelow(p, m, Sections);
    }
  }

  // ---------------------------------------------------------------------
  // get_ts_from_dir
  // ---------------------------------------------------------------------

  /** `get_ts_from_dir`: the number before "Samp" in the third '-'-separated
      field of the directory name. */
  function GetTsFromDir(dirname: string): Result<int, NetError> {
    var parts := Split(dirname, '-');
    if |parts| < 3 then Failure(TooFewFields)
    else
      var prefix := BeforeFirst(parts[2], "Samp");
      match ParseInt(prefix)
      case None => Failure(NotAnInteger(prefix))
      case Some(v) => Success(v)
  }

  /** A name with fewer than two dashes has no third field. */
  lemma {:induction false} GetTsFromDirFewFields(dirname: string)
    ensures GetTsFromDir(dirname) == Failure(TooFewFields) <==> CountChar(dirname, '-') < 2
  {
    SplitCount(dirname, '-');
  }

  /** In `a-b-third`, with no dash in `a` and `b`, the third field is the
      part of `third` before its first dash. */
  lemma {:induction false} ThirdField(a: string, b: string, third: string)
    requires '-' !in a && '-' !in b
    ensures |Split(a + "-" + b + "-" + third, '-')| >= 3
    ensures Split(a + "-" + b + "-" + third, '-')[2] == Split(third, '-')[0]
  {
    var name := a + "-" + b + "-" + third;
    assert name == a + ['-'] + (b + ['-'] + third);
    SplitAtSep(a, b + ['-'] + third, '-');
    SplitAtSep(b, third, '-');
    SplitNoSep(a, '-');
    SplitNoSep(b, '-');
  }

  /** `get_ts_from_dir` on `a-b-third` reads the number before "Samp" in
      the first dash-free part of `third`. */
  lemma {:induction false} GetTsFromThird(a: string, b: string, third: string, prefix: string)
    requires '-' !in a && '-' !in b
    requires prefix == BeforeFirst(Split(third, '-')[0], "Samp")
    ensures GetTsFromDir(a + "-" + b + "-" + third) ==
      if ParseInt(prefix).Some? then Success(ParseInt(prefix).value) else Failure(NotAnInteger(prefix))
  {
    ThirdField(a, b, third);
  }

  /** A field that starts with `prefix` then "Samp", with no dash and no 'S'
      in `prefix`, has `prefix` before its "Samp". */
  lemma {:induction false} SampPrefix(prefix: string, rest: string)
    requires '-' !in prefix && 'S' !in prefix
    ensures BeforeFirst(Split(prefix + "Samp" + rest, '-')[0], "Samp") == prefix
  {
    assert '-' !in prefix + "Samp";
    SplitHead(prefix + "Samp", rest, '-');
    BeforeFirstAt(prefix, "Samp", Split(rest, '-')[0]);
  }

  /** The digits before "Samp" in the third field are read back, whatever
      follows them. */
  lemma {:induction false} GetTsFromDirName(a: string, b: string, n: nat, rest: string)
    requires '-' !in a && '-' !in b
    ensures GetTsFromDir(a + "-" + b + "-" + (ShowNat(n) + "Samp" + rest)) == Success(n)
  {
    var digits := ShowNat(n);
    assert '-' !in digits && 'S' !in digits by {
      forall i | 0 <= i < |digits| ensures digits[i] != '-' && digits[i] != 'S' {
        assert IsDigit(digits[i]);
      }
    }
    var third := digits + "Samp" + rest;
    SampPrefix(digits, rest);
    ParseShow(n);
    GetTsFromThird(a, b, third, digits);
  }

  /** The directory name the command line offers as its default,
      "onePop-selectiveSweep-10Samp-20Int". It is written as the join of its
      fields only so that the proofs below need not compare it character by
      character; the value is that one string. */
  const ExampleDir: string := "onePop" + "-" + "selectiveSweep" + "-" + ("10" + "Samp" + "-20Int")

  /** The example name holds ten timepoints. */
  lemma {:induction false} GetTsFromDirExample()
    ensures GetTsFromDir(ExampleDir) == Success(10)
  {
    assert ShowNat(10) == "10";
    GetTsFromDirName("onePop", "selectiveSweep", 10, "-20Int");
  }

  /** A third field that does not start with a number is refused. */
  lemma {:induction false} GetTsFromDirNoNumber(a: string, b: string, rest: string)
    requires '-' !in a && '-' !in b
    ensures GetTsFromDir(a + "-" + b + "-" + ("Samp" + rest)) == Failure(NotAnInteger(""))
  {
    var third := "Samp" + rest;
    assert "" + "Samp" + rest == third;
    SampPrefix("", rest);
    assert ParseInt("") == None by {
      assert Strip("") == "";
    }
    GetTsFromThird(a, b, third, "");
  }
}
