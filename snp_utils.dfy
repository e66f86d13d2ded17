/** The genotype utilities of src/utils/snp_utils.py: splitting the flat
    sample axis into timepoints, choosing one minor allele per site from the
    last timepoint, allele frequencies, locus tuples and contig ids. */
module SnpUtils {
  import opened Wrappers
  import opened PyStrings

  /** A genotype matrix: sites × sample columns × ploidy. A call is an
      allele index: 0 is the reference allele, a negative value a missing call. */
  type Genos = seq<seq<seq<int>>>

  /** A site's identity: chromosome, position and, in benchmark mode only,
      the simulated mutation type (2 marks the selected site). */
  datatype Locus = Locus(chrom: string, pos: int, mt: Option<int>)

  /** An allele frequency `count / total`; numpy yields NaN for 0 / 0. */
  datatype Freq = Ratio(value: real) | NaN

  datatype GenoError =
    | NoTimepoints           // `ts_genos[-1]` on an empty list
    | EmptyGenotypeArray     // `count_alleles` on an array holding no call
    | NoAltAllele            // `np.argmax` over an empty allele axis
    | AlleleIndexOutOfRange  // `snp[min_allele_idx]` past the counted alleles

  // ---------------------------------------------------------------------
  // split_arr
  // ---------------------------------------------------------------------

  function Sum(xs: seq<nat>): nat {
    if xs == [] then 0 else Sum(xs[..|xs| - 1]) + xs[|xs| - 1]
  }

  lemma {:induction false} SumBound(xs: seq<nat>, i: nat)
    requires i < |xs|
    ensures xs[i] <= Sum(xs)
    decreases |xs|
  {
    var n := |xs| - 1;
    if i < n {
      assert xs[..n][i] == xs[i];
      SumBound(xs[..n], i);
    }
  }

  /** Where block `k` starts on the sample axis: the sizes before it, summed. */
  function Offset(sizes: seq<nat>, k: nat): nat
    requires k <= |sizes|
  {
    Sum(sizes[..k])
  }

  lemma {:induction false} OffsetStep(sizes: seq<nat>, k: nat)
    requires k < |sizes|
    ensures Offset(sizes, k + 1) == Offset(sizes, k) + sizes[k]
  {
    assert sizes[..k + 1][..k] == sizes[..k];
  }

  /** Python's `xs[lo:hi]` for non-negative bounds: clipped to the length,
      empty when `hi <= lo`. */
  function Slice<T>(xs: seq<T>, lo: nat, hi: nat): seq<T> {
    var b := if hi < |xs| then hi else |xs|;
    if b <= lo then [] else xs[lo..b]
  }

  /** `arr[:, lo:hi, :]`: every site, sample columns `lo` to `hi`, every chromosome copy. */
  function SampleBlock(arr: Genos, lo: nat, hi: nat): Genos {
    seq(|arr|, s requires 0 <= s < |arr| => Slice(arr[s], lo, hi))
  }

  /** The timepoint blocks `split_arr` returns: block `k` holds the
      `sizes[k]` sample columns after those of the earlier blocks. */
  function Blocks(arr: Genos, sizes: seq<nat>): seq<Genos> {
    seq(|sizes|, k requires 0 <= k < |sizes| =>
      SampleBlock(arr, Offset(sizes, k), Offset(sizes, k) + sizes[k]))
  }

  /** `split_arr`: walks the sizes with a running offset, appending one block each. */
  method SplitArr(arr: Genos, sizes: seq<nat>) returns (blocks: seq<Genos>)
    ensures blocks == Blocks(arr, sizes)
  {
    var i := 0;
    blocks := [];
    for k := 0 to |sizes|
      invariant i == Offset(sizes, k)
      invariant blocks == Blocks(arr, sizes[..k])
    {
      OffsetStep(sizes, k);
      BlocksSnoc(arr, sizes, k);
      blocks := blocks + [SampleBlock(arr, i, i + sizes[k])];
      i := i + sizes[k];
    }
    assert sizes[..|sizes|] == sizes;
  }

  lemma {:induction false} BlocksSnoc(arr: Genos, sizes: seq<nat>, k: nat)
    requires k < |sizes|
    ensures Blocks(arr, sizes[..k + 1]) ==
      Blocks(arr, sizes[..k]) + [SampleBlock(arr, Offset(sizes, k), Offset(sizes, k) + sizes[k])]
  {
    var long := Blocks(arr, sizes[..k + 1]);
    var short := Blocks(arr, sizes[..k]);
    forall j | 0 <= j < k ensures long[j] == short[j] {
      OffsetPrefix(sizes, k + 1, j);
      OffsetPrefix(sizes, k, j);
    }
    OffsetPrefix(sizes, k + 1, k);
  }

  /** The offsets of a prefix of the sizes are those of the whole. */
  lemma {:induction false} OffsetPrefix(sizes: seq<nat>, n: nat, j: nat)
    requires j <= n <= |sizes|
    ensures Offset(sizes[..n], j) == Offset(sizes, j)
  {
    assert sizes[..n][..j] == sizes[..j];
  }

  /** The pieces of one site's sample columns, block by block. */
  function Pieces<T>(row: seq<T>, sizes: seq<nat>): seq<seq<T>> {
    seq(|sizes|, k requires 0 <= k < |sizes| => Slice(row, Offset(sizes, k), Offset(sizes, k) + sizes[k]))
  }

  /** One block per size; every block keeps every site, and at each site
      holds that site's piece of the sample axis. */
  lemma {:induction false} BlocksShape(arr: Genos, sizes: seq<nat>, k: nat, s: nat)
    requires k < |sizes| && s < |arr|
    ensures |Blocks(arr, sizes)| == |sizes| && |Blocks(arr, sizes)[k]| == |arr|
    ensures Blocks(arr, sizes)[k][s] == Pieces(arr[s], sizes)[k]
  {
  }

  /** Every block keeps every site. */
  lemma {:induction false} BlocksWidths(arr: Genos, sizes: seq<nat>)
    ensures |Blocks(arr, sizes)| == |sizes|
    ensures forall k :: 0 <= k < |sizes| ==> |Blocks(arr, sizes)[k]| == |arr|
  {
  }

  /** Gluing a site's pieces back together in block order gives the first
      `Sum(sizes)` sample columns of that site (clipped to its width). */
  lemma {:induction false} PiecesReassemble<T>(row: seq<T>, sizes: seq<nat>)
    ensures Flatten(Pieces(row, sizes)) == Slice(row, 0, Sum(sizes))
    decreases |sizes|
  {
    if sizes != [] {
      var n := |sizes| - 1;
      var o := Sum(sizes[..n]);
      PiecesSnoc(row, sizes);
      PiecesReassemble(row, sizes[..n]);
      SliceAdjacent(row, o, o + sizes[n]);
    }
  }

  /** The pieces glued together are those of all sizes but the last,
      followed by the last piece. */
  lemma {:induction false} PiecesSnoc<T>(row: seq<T>, sizes: seq<nat>)
    requires sizes != []
    ensures var n := |sizes| - 1; var o := Sum(sizes[..n]);
      && Sum(sizes) == o + sizes[n]
      && Flatten(Pieces(row, sizes)) == Flatten(Pieces(row, sizes[..n])) + Slice(row, o, o + sizes[n])
  {
    var n := |sizes| - 1;
    var o := Sum(sizes[..n]);
    var ps := Pieces(row, sizes);
    assert Offset(sizes, n) == o;
    assert ps[n] == Slice(row, Offset(sizes, n), Offset(sizes, n) + sizes[n]);
    assert ps[n] == Slice(row, o, o + sizes[n]);
    assert Flatten(ps) == Flatten(ps[..n]) + ps[n];
    PiecesPrefix(row, sizes, n);
  }

  /** The pieces for a prefix of the sizes are a prefix of the pieces. */
  lemma {:induction false} PiecesPrefix<T>(row: seq<T>, sizes: seq<nat>, n: nat)
    requires n <= |sizes|
    ensures Pieces(row, sizes)[..n] == Pieces(row, sizes[..n])
  {
    forall k | 0 <= k < n ensures Pieces(row, sizes)[k] == Pieces(row, sizes[..n])[k] {
      OffsetPrefix(sizes, n, k);
    }
    assert Pieces(row, sizes)[..n] == Pieces(row, sizes[..n]);
  }

  /** Two adjacent slices make the slice spanning both. */
  lemma {:induction false} SliceAdjacent<T>(row: seq<T>, b: nat, c: nat)
    requires b <= c
    ensures Slice(row, 0, b) + Slice(row, b, c) == Slice(row, 0, c)
  {
  }

  /** When the sizes add up to the number of sample columns, the blocks
      partition every site exactly. */
  lemma {:induction false} SplitArrRoundTrip(arr: Genos, sizes: seq<nat>, s: nat)
    requires s < |arr| && Sum(sizes) == |arr[s]|
    ensures Flatten(Pieces(arr[s], sizes)) == arr[s]
  {
    PiecesReassemble(arr[s], sizes);
  }

  // ---------------------------------------------------------------------
  // count_alleles (scikit-allel), get_minor_alleles
  // ---------------------------------------------------------------------

  /** Occurrences of allele `a` among `xs`. */
  function Count(xs: seq<int>, a: int): nat {
    if xs == [] then 0 else Count(xs[..|xs| - 1], a) + (if xs[|xs| - 1] == a then 1 else 0)
  }

  function MaxOf(xs: seq<int>): (r: Option<int>)
    ensures r.None? <==> xs == []
    ensures r.Some? ==> r.value in xs && forall i :: 0 <= i < |xs| ==> xs[i] <= r.value
  {
    if xs == [] then None
    else
      match MaxOf(xs[..|xs| - 1])
      case None => Some(xs[|xs| - 1])
      case Some(m) =>
        assert forall i :: 0 <= i < |xs| - 1 ==> xs[i] == xs[..|xs| - 1][i];
        Some(if xs[|xs| - 1] > m then xs[|xs| - 1] else m)
  }

  /** Every call of a site (all samples, all chromosome copies). */
  function SiteCalls(site: seq<seq<int>>): seq<int> {
    Flatten(site)
  }

  function AllCalls(g: Genos): seq<int> {
    Flatten(seq(|g|, s requires 0 <= s < |g| => SiteCalls(g[s])))
  }

  /** scikit-allel's `GenotypeArray(g).count_alleles()`: per site, the number
      of calls of each allele 0 .. m, where m is the largest call anywhere in
      `g`; missing calls are not counted. Fails on an array without calls. */
  function CountAlleles(g: Genos): (r: Option<seq<seq<nat>>>)
    ensures r.Some? ==> |r.value| == |g| > 0
  {
    match MaxOf(AllCalls(g))
    case None => None
    case Some(m) =>
      var width := if m < 0 then 0 else m + 1;
      Some(seq(|g|, s requires 0 <= s < |g| =>
        seq(width, a requires 0 <= a < width => Count(SiteCalls(g[s]), a))))
  }

  /** Counting fails exactly on an array without calls; otherwise entry `a`
      of site `s` is the number of calls of allele `a` at that site. */
  lemma {:induction false} CountAllelesCounts(g: Genos)
    ensures CountAlleles(g).None? <==> AllCalls(g) == []
    ensures CountAlleles(g).Some? ==> forall s, a :: 0 <= s < |g| && 0 <= a < |CountAlleles(g).value[s]| ==>
      CountAlleles(g).value[s][a] == Count(SiteCalls(g[s]), a)
  {
  }

  /** `np.argmax`: the first index holding the largest value. */
  function ArgMax(xs: seq<int>): (r: nat)
    requires |xs| > 0
    ensures r < |xs|
    ensures forall j :: 0 <= j < |xs| ==> xs[j] <= xs[r]
    ensures forall j :: 0 <= j < r ==> xs[j] < xs[r]
  {
    if |xs| == 1 then 0
    else
      var n := |xs| - 1;
      var k := ArgMax(xs[..n]);
      assert forall j :: 0 <= j < n ==> xs[..n][j] == xs[j];
      if xs[n] > xs[k] then n else k
  }

  /** Allele `a` of a site with allele counts `c` is its minor allele: not
      the reference, with the largest count among the non-reference alleles,
      and the lowest such allele on a tie. */
  predicate IsMinorAllele(c: seq<int>, a: nat) {
    && 1 <= a < |c|
    && (forall b :: 1 <= b < |c| ==> c[b] <= c[a])
    && (forall b :: 1 <= b < a ==> c[b] < c[a])
  }

  /** `get_minor_alleles`: one minor allele per site, chosen from the allele
      counts of the last timepoint only. When no call there is above 0 the
      count rows have no allele past the reference and `np.argmax` over the
      empty axis raises. */
  function MinorAlleles(ts: seq<Genos>): (r: Result<seq<nat>, GenoError>)
    ensures ts == [] ==> r == Failure(NoTimepoints)
    ensures ts != [] && CountAlleles(ts[|ts| - 1]).None? ==> r == Failure(EmptyGenotypeArray)
    ensures r == Failure(NoAltAllele) <==>
      ts != [] && CountAlleles(ts[|ts| - 1]).Some? && |CountAlleles(ts[|ts| - 1]).value[0]| <= 1
    ensures r.Success? <==>
      ts != [] && CountAlleles(ts[|ts| - 1]).Some? && |CountAlleles(ts[|ts| - 1]).value[0]| >= 2
    ensures r.Success? ==> |r.value| == |ts[|ts| - 1]|
  {
    if ts == [] then Failure(NoTimepoints)
    else
      match CountAlleles(ts[|ts| - 1])
      case None => Failure(EmptyGenotypeArray)
      case Some(c) =>
        if |c[0]| <= 1 then Failure(NoAltAllele)
        else
          assert forall s :: 0 <= s < |c| ==> |c[s]| == |c[0]|;
          Success(seq(|c|, s requires 0 <= s < |c| => ArgMax(c[s][1..]) + 1))
  }

  /** The allele chosen at each site is that site's minor allele at the last
      timepoint. */
  lemma {:induction false} MinorAllelesChoice(ts: seq<Genos>)
    requires MinorAlleles(ts).Success?
    ensures var c := CountAlleles(ts[|ts| - 1]).value;
      forall s :: 0 <= s < |c| ==> IsMinorAllele(c[s], MinorAlleles(ts).value[s])
  {
    var c := CountAlleles(ts[|ts| - 1]).value;
    MinorAllelesArgMax(ts);
    forall s | 0 <= s < |c| ensures IsMinorAllele(c[s], MinorAlleles(ts).value[s]) {
      ArgMaxMinor(c[s]);
    }
  }

  /** Each site's allele is one past the `argmax` of its non-reference counts. */
  lemma {:induction false} MinorAllelesArgMax(ts: seq<Genos>)
    requires MinorAlleles(ts).Success?
    ensures var c := CountAlleles(ts[|ts| - 1]).value;
      forall s :: 0 <= s < |c| ==> |c[s]| >= 2 && MinorAlleles(ts).value[s] == ArgMax(c[s][1..]) + 1
  {
    CountRowsWidth(ts[|ts| - 1]);
  }

  /** Every site has a count for every allele up to the largest call. */
  lemma {:induction false} CountRowsWidth(g: Genos)
    requires CountAlleles(g).Some?
    ensures var c := CountAlleles(g).value;
      forall s :: 0 <= s < |c| ==> |c[s]| == |c[0]|
  {
  }

  /** One past the `argmax` of the non-reference counts is the minor allele. */
  lemma {:induction false} ArgMaxMinor(c: seq<nat>)
    requires |c| >= 2
    ensures IsMinorAllele(c, ArgMax(c[1..]) + 1)
  {
    var k := ArgMax(c[1..]);
    forall b | 1 <= b < |c| ensures c[b] <= c[k + 1] {
      assert c[1..][b - 1] == c[b];
    }
    forall b | 1 <= b < k + 1 ensures c[b] < c[k + 1] {
      assert c[1..][b - 1] == c[b];
    }
  }

  /** One minor allele per site of the last timepoint. */
  lemma {:induction false} MinorAllelesWidth(ts: seq<Genos>, mins: seq<nat>)
    requires MinorAlleles(ts) == Success(mins)
    ensures ts != [] && |mins| == |ts[|ts| - 1]|
  {
  }

  // ---------------------------------------------------------------------
  // calc_mafs
  // ---------------------------------------------------------------------

  /** `calc_mafs`: the share of a site's counted calls that are allele `idx`. */
  function CalcMaf(counts: seq<nat>, idx: nat): (r: Result<Freq, GenoError>)
    ensures r.Failure? <==> idx >= |counts|
    ensures r.Failure? ==> r.error == AlleleIndexOutOfRange
    ensures r.Success? ==> (r.value.NaN? <==> Sum(counts) == 0)
    ensures r.Success? && r.value.Ratio? ==>
      && 0.0 <= r.value.value <= 1.0
      && r.value.value * (Sum(counts) as real) == counts[idx] as real
  {
    if idx >= |counts| then Failure(AlleleIndexOutOfRange)
    else
      var total := Sum(counts);
      if total == 0 then Success(NaN)
      else
        SumBound(counts, idx);
        ShareBounds(counts[idx], total);
        Success(Ratio(counts[idx] as real / total as real))
  }

  /** A part over a positive whole is in [0, 1] and scales back to the part. */
  lemma {:induction false} ShareBounds(part: nat, whole: nat)
    requires 0 < whole && part <= whole
    ensures var x := part as real / whole as real;
      0.0 <= x <= 1.0 && x * (whole as real) == part as real
  {
    var x := part as real / whole as real;
    var w := whole as real;
    assert x * w == part as real;
    assert (1.0 - x) * w == w - part as real;
  }

  // ---------------------------------------------------------------------
  // make_loc_tups, get_vcf_contigs
  // ---------------------------------------------------------------------

  function Min(a: nat, b: nat): nat {
    if a < b then a else b
  }

  /** `make_loc_tups`: `zip` of the per-site columns, which stops at the
      shortest; the mutation type only in benchmark mode. */
  function MakeLocTups(chroms: seq<string>, poss: seq<int>, mts: seq<int>, benchmark: bool): (r: seq<Locus>)
    ensures |r| == if benchmark then Min(Min(|chroms|, |poss|), |mts|) else Min(|chroms|, |poss|)
    ensures forall i :: 0 <= i < |r| ==>
      r[i] == Locus(chroms[i], poss[i], if benchmark then Some(mts[i]) else None)
  {
    var n := if benchmark then Min(Min(|chroms|, |poss|), |mts|) else Min(|chroms|, |poss|);
    seq(n, i requires 0 <= i < n => Locus(chroms[i], poss[i], if benchmark then Some(mts[i]) else None))
  }

  /** With equally long columns nothing is cut: the tuples give the columns back. */
  lemma {:induction false} MakeLocTupsUnzip(chroms: seq<string>, poss: seq<int>, mts: seq<int>, benchmark: bool)
    requires |chroms| == |poss| == |mts|
    ensures var r := MakeLocTups(chroms, poss, mts, benchmark);
      && |r| == |chroms|
      && seq(|r|, i requires 0 <= i < |r| => r[i].chrom) == chroms
      && seq(|r|, i requires 0 <= i < |r| => r[i].pos) == poss
      && (benchmark ==> seq(|r|, i requires 0 <= i < |r| => r[i].mt) == seq(|mts|, i requires 0 <= i < |mts| => Some(mts[i])))
  {
  }

  datatype ContigError = ContigWithoutDigits(line: string)

  /** `re.findall("\d+", line)[0]`, which raises when the line has no digit. */
  function ContigId(line: string): Result<string, ContigError> {
    match FirstDigitRun(line)
    case None => Failure(ContigWithoutDigits(line))
    case Some(d) => Success(d)
  }

  function ContigLines(header: seq<string>): seq<string> {
    Filter(header, line => Contains(line, "contig"))
  }

  /** The comprehensions of `get_vcf_contigs`: the header lines mentioning
      "contig", in order, each replaced by its first run of digits. */
  function GetVcfContigs(header: seq<string>): (r: Result<seq<string>, ContigError>)
    ensures r.Success? <==> forall i :: 0 <= i < |ContigLines(header)| ==> FirstDigitRun(ContigLines(header)[i]).Some?
    ensures r.Success? ==>
      && |r.value| == |ContigLines(header)|
      && forall i :: 0 <= i < |r.value| ==> FirstDigitRun(ContigLines(header)[i]) == Some(r.value[i])
  {
    Traverse(ContigLines(header), ContigId)
  }
}
