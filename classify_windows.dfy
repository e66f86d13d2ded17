/** The windowed scan of src/classify_windows.py: the time-series allele
    frequency matrix, the window and center ranges, and the three loops that
    visit every center, record one result per locus and keep one window
    aside for plotting. */
module ClassifyWindows {
  import opened Wrappers
  import opened PyDict
  import opened SnpUtils

  // ---------------------------------------------------------------------
  // Windows and centers
  // ---------------------------------------------------------------------

  /** Python's `range(lo, hi)`. */
  function Range(lo: int, hi: int): (r: seq<int>)
    ensures |r| == if hi <= lo then 0 else hi - lo
    ensures forall i :: 0 <= i < |r| ==> r[i] == lo + i
    decreases hi - lo
  {
    if hi <= lo then [] else [lo] + Range(lo + 1, hi)
  }

  /** `get_window_idxs`: the consecutive indices `int(win_size / 2)` either
      side of the center, so an odd width gives exactly that many indices
      and an even one gives one more. */
  function WindowIdxs(center: int, winSize: nat): (r: seq<int>)
    ensures |r| == 2 * (winSize / 2) + 1
    ensures forall i :: 0 <= i < |r| ==> r[i] == center - winSize / 2 + i
    ensures r[winSize / 2] == center
    ensures |r| == winSize <==> winSize % 2 == 1
  {
    Range(center - winSize / 2, center + winSize / 2 + 1)
  }

  /** `range(buffer, len(snps) - buffer)`: every site whose whole window
      fits inside the `n` sites. */
  function Centers(n: nat, winSize: nat): (r: seq<int>)
    ensures |r| == if n <= 2 * (winSize / 2) then 0 else n - 2 * (winSize / 2)
    ensures forall i :: 0 <= i < |r| ==> r[i] == winSize / 2 + i
  {
    Range(winSize / 2, n - winSize / 2)
  }

  /** Every index of every center's window lies inside the `n` sites. */
  lemma {:induction false} CenterWindowsIn(n: nat, winSize: nat)
    ensures var cs := Centers(n, winSize);
      forall i, j :: 0 <= i < |cs| && 0 <= j < |WindowIdxs(cs[i], winSize)| ==>
        0 <= WindowIdxs(cs[i], winSize)[j] < n
  {
    var cs := Centers(n, winSize);
    forall i, j | 0 <= i < |cs| && 0 <= j < |WindowIdxs(cs[i], winSize)|
      ensures 0 <= WindowIdxs(cs[i], winSize)[j] < n
    {
      assert WindowIdxs(cs[i], winSize)[j] == i + j;
    }
  }

  /** The site the capture test compares each center with:
      `int(len(centers) / 2)`, half the number of centers. */
  function ProbeSite(n: nat, winSize: nat): nat {
    |Centers(n, winSize)| / 2
  }

  /** The probe site is visited only when the centers reach down to it,
      which needs at least four half-widths of sites. */
  lemma {:induction false} ProbeSiteVisited(n: nat, winSize: nat)
    ensures ProbeSite(n, winSize) in Centers(n, winSize) <==>
      2 * (winSize / 2) < n && 4 * (winSize / 2) <= n
  {
    var h := winSize / 2;
    var cs := Centers(n, winSize);
    var p := ProbeSite(n, winSize);
    if 2 * h < n && 4 * h <= n {
      assert cs[p - h] == p;
    }
  }

  /** The probe site is the middle center only when the window has no
      buffer: otherwise it lies `int(win_size / 2)` sites before it. */
  lemma {:induction false} ProbeSiteNotMiddle(n: nat, winSize: nat)
    requires |Centers(n, winSize)| > 0
    ensures Centers(n, winSize)[|Centers(n, winSize)| / 2] == ProbeSite(n, winSize) + winSize / 2
    ensures Centers(n, winSize)[|Centers(n, winSize)| / 2] == ProbeSite(n, winSize) <==> winSize < 2
  {
  }

  /** With 100 sites and the usual 51-site windows the probe site is the
      first center, not the middle one (site 50). */
  lemma {:induction false} ProbeSiteExample()
    ensures Centers(100, 51)[0] == 25 == ProbeSite(100, 51)
    ensures Centers(100, 51)[|Centers(100, 51)| / 2] == 50
  {
  }

  // ---------------------------------------------------------------------
  // prep_ts_afs
  // ---------------------------------------------------------------------

  /** `zip(xs, ys)`. */
  function ZipPairs<A, B>(xs: seq<A>, ys: seq<B>): (r: seq<(A, B)>)
    ensures |r| == Min(|xs|, |ys|)
  {
    var n := Min(|xs|, |ys|);
    seq(n, i requires 0 <= i < n => (xs[i], ys[i]))
  }

  function CalcMafPair(p: (seq<nat>, nat)): Result<Freq, GenoError> {
    CalcMaf(p.0, p.1)
  }

  /** One timepoint's row: its allele counts, each site's count paired with
      that site's minor allele. */
  function MafRow(g: Genos, mins: seq<nat>): Result<seq<Freq>, GenoError> {
    match CountAlleles(g)
    case None => Failure(EmptyGenotypeArray)
    case Some(c) => Traverse(ZipPairs(c, mins), CalcMafPair)
  }

  function MafRowOf(mins: seq<nat>): Genos -> Result<seq<Freq>, GenoError> {
    g => MafRow(g, mins)
  }

  /** `prep_ts_afs`: split the samples into timepoints, fix each site's minor
      allele from the last timepoint, then one frequency row per timepoint. */
  function TsAfs(genos: Genos, sizes: seq<nat>): Result<seq<seq<Freq>>, GenoError> {
    var ts := Blocks(genos, sizes);
    match MinorAlleles(ts)
    case Failure(e) => Failure(e)
    case Success(mins) => Traverse(ts, MafRowOf(mins))
  }

  /** The matrix has one row per timepoint and one column per site; cell
      (t, s) is the frequency, at timepoint t, of the allele chosen at site s
      from the last timepoint, so the same allele is followed through time. */
  lemma {:induction false} TsAfsCells(genos: Genos, sizes: seq<nat>)
    requires TsAfs(genos, sizes).Success?
    ensures MinorAlleles(Blocks(genos, sizes)).Success?
    ensures var m := TsAfs(genos, sizes).value;
      var ts := Blocks(genos, sizes);
      var mins := MinorAlleles(ts).value;
      && |m| == |sizes|
      && forall t :: 0 <= t < |m| ==>
        && CountAlleles(ts[t]).Some?
        && |m[t]| == |genos|
        && forall s :: 0 <= s < |genos| ==>
          CalcMaf(CountAlleles(ts[t]).value[s], mins[s]) == Success(m[t][s])
  {
    var ts := Blocks(genos, sizes);
    var mins := MinorAlleles(ts).value;
    var m := TsAfs(genos, sizes).value;
    assert Traverse(ts, MafRowOf(mins)) == Success(m);
    MinorAllelesWidth(ts, mins);
    BlocksWidths(genos, sizes);
    MafRows(ts, mins, m, |genos|);
  }

  /** The matrix has at least one row, and every row one column per site. */
  lemma {:induction false} TsAfsShape(genos: Genos, sizes: seq<nat>)
    requires TsAfs(genos, sizes).Success?
    ensures var m := TsAfs(genos, sizes).value;
      |m| > 0 && forall t :: 0 <= t < |m| ==> |m[t]| == |genos|
  {
    TsAfsCells(genos, sizes);
    MinorAllelesWidth(Blocks(genos, sizes), MinorAlleles(Blocks(genos, sizes)).value);
    BlocksWidths(genos, sizes);
  }

  /** Row `t` of a traversal by `MafRowOf(mins)` is the frequency row of
      the `t`-th block, when every block and `mins` cover the same sites. */
  lemma {:induction false} MafRows(ts: seq<Genos>, mins: seq<nat>, m: seq<seq<Freq>>, w: nat)
    requires Traverse(ts, MafRowOf(mins)) == Success(m)
    requires |mins| == w && forall t :: 0 <= t < |ts| ==> |ts[t]| == w
    ensures |m| == |ts|
    ensures forall t :: 0 <= t < |m| ==>
      && CountAlleles(ts[t]).Some?
      && |m[t]| == w
      && forall s :: 0 <= s < w ==> CalcMaf(CountAlleles(ts[t]).value[s], mins[s]) == Success(m[t][s])
  {
    forall t | 0 <= t < |m|
      ensures CountAlleles(ts[t]).Some? && |m[t]| == w
      ensures forall s :: 0 <= s < w ==> CalcMaf(CountAlleles(ts[t]).value[s], mins[s]) == Success(m[t][s])
    {
      assert MafRowOf(mins)(ts[t]) == Success(m[t]);
      MafRowCells(ts[t], mins, m[t]);
    }
  }

  /** A frequency row pairs each site's allele counts with its minor allele. */
  lemma {:induction false} MafRowCells(g: Genos, mins: seq<nat>, row: seq<Freq>)
    requires MafRow(g, mins) == Success(row) && |mins| == |g|
    ensures CountAlleles(g).Some? && |row| == |g|
    ensures forall s :: 0 <= s < |g| ==> CalcMaf(CountAlleles(g).value[s], mins[s]) == Success(row[s])
  {
    var c := CountAlleles(g).value;
    var pairs := ZipPairs(c, mins);
    assert |pairs| == |g|;
    forall s | 0 <= s < |g|
      ensures CalcMaf(c[s], mins[s]) == Success(row[s])
    {
      assert CalcMafPair(pairs[s]).Success?;
    }
  }

  /** `prep_ts_afs` as written: a loop over the timepoints, each row built
      by the inner loop of `MafRowLoop`. */
  method PrepTsAfs(genos: Genos, sizes: seq<nat>) returns (r: Result<seq<seq<Freq>>, GenoError>)
    ensures r == TsAfs(genos, sizes)
  {
    var ts := SplitArr(genos, sizes);
    var minAlleles := MinorAlleles(ts);
    if minAlleles.Failure? {
      return Failure(minAlleles.error);
    }
    var mins := minAlleles.value;
    var tsMafs: seq<seq<Freq>> := [];
    assert TsAfs(genos, sizes) == Traverse(ts, MafRowOf(mins));
    TraverseStart(ts, MafRowOf(mins));
    for t := 0 to |ts|
      invariant Then(tsMafs, Traverse(ts[t..], MafRowOf(mins))) == TsAfs(genos, sizes)
    {
      var counts := CountAlleles(ts[t]);
      if counts.None? {
        TraverseFail(ts, MafRowOf(mins), t, tsMafs);
        return Failure(EmptyGenotypeArray);
      }
      var row := MafRowLoop(counts.value, mins);
      assert row == MafRowOf(mins)(ts[t]);
      if row.Failure? {
        TraverseFail(ts, MafRowOf(mins), t, tsMafs);
        return Failure(row.error);
      }
      TraverseStep(ts, MafRowOf(mins), t, tsMafs);
      tsMafs := tsMafs + [row.value];
    }
    TraverseDone(ts, MafRowOf(mins), tsMafs);
    return Success(tsMafs);
  }

  /** The inner loop of `prep_ts_afs`: one frequency per (counts, minor
      allele) pair, appended in site order. */
  method MafRowLoop(counts: seq<seq<nat>>, mins: seq<nat>) returns (r: Result<seq<Freq>, GenoError>)
    ensures r == Traverse(ZipPairs(counts, mins), CalcMafPair)
  {
    var pairs := ZipPairs(counts, mins);
    var row: seq<Freq> := [];
    TraverseStart(pairs, CalcMafPair);
    for s := 0 to |pairs|
      invariant Then(row, Traverse(pairs[s..], CalcMafPair)) == Traverse(pairs, CalcMafPair)
    {
      var maf := CalcMaf(pairs[s].0, pairs[s].1);
      if maf.Failure? {
        TraverseFail(pairs, CalcMafPair, s, row);
        return Failure(maf.error);
      }
      TraverseStep(pairs, CalcMafPair, s, row);
      row := row + [maf.value];
    }
    TraverseDone(pairs, CalcMafPair, row);
    return Success(row);
  }

  // ---------------------------------------------------------------------
  // The per-center loop shared by run_afs_windows, run_hfs_windows and
  // run_fit_windows
  // ---------------------------------------------------------------------

  datatype ScanError =
    | Geno(error: GenoError)       // raised while building the frequency matrix
    | WindowOutOfRange(center: int) // a window index past the data
    | LocusWithoutMutType(center: int) // `snps[center][2]` on a (chrom, pos) pair
    | NoCapture                    // `center_afs` / `center_hfs` never assigned

  /** The loop's variables: `results_dict` and the plotting capture. */
  datatype ScanState<W, P> = ScanState(results: Dict<Locus, P>, capture: Option<W>)

  predicate CentersIn(snps: seq<Locus>, centers: seq<int>) {
    forall i :: 0 <= i < |centers| ==> 0 <= centers[i] < |snps|
  }

  /** The capture test: the locus is the selected mutation, or the center
      equals half the number of centers. */
  predicate Flagged(snps: seq<Locus>, centers: seq<int>, c: int)
    requires 0 <= c < |snps|
  {
    snps[c].mt == Some(2) || c == |centers| / 2
  }

  /** The loop after its first `k` centers. `view` builds a center's input
      (and may fail), `out` turns it into the stored result; `probe` is set
      for the two loops that read the mutation type and capture a window. */
  function Scan<W, P>(snps: seq<Locus>, centers: seq<int>, view: int -> Result<W, ScanError>,
                      out: W -> P, probe: bool, k: nat): Result<ScanState<W, P>, ScanError>
    requires k <= |centers| && CentersIn(snps, centers)
  {
    if k == 0 then Success(ScanState([], None))
    else
      match Scan(snps, centers, view, out, probe, k - 1)
      case Failure(e) => Failure(e)
      case Success(st) =>
        var c := centers[k - 1];
        match view(c)
        case Failure(e) => Failure(e)
        case Success(v) =>
          if probe && snps[c].mt.None? then Failure(LocusWithoutMutType(c))
          else
            var capture := if probe && Flagged(snps, centers, c) then Some(v) else st.capture;
            Success(ScanState(Put(st.results, snps[c], out(v)), capture))
  }

  /** Every one of the first `k` centers has a view and, when probed, a mutation type. */
  predicate AllOk<W>(snps: seq<Locus>, centers: seq<int>, view: int -> Result<W, ScanError>, probe: bool, k: nat)
    requires k <= |centers| && CentersIn(snps, centers)
  {
    forall j :: 0 <= j < k ==> view(centers[j]).Success? && (probe ==> snps[centers[j]].mt.Some?)
  }

  /** The loci of the first `k` centers, in visiting order. */
  function Loci(snps: seq<Locus>, centers: seq<int>, k: nat): (r: seq<Locus>)
    requires k <= |centers| && CentersIn(snps, centers)
    ensures |r| == k
  {
    seq(k, j requires 0 <= j < k => snps[centers[j]])
  }

  /** The stored result of each of the first `k` centers. */
  function Outs<W, P>(centers: seq<int>, view: int -> Result<W, ScanError>, out: W -> P, k: nat): (r: seq<P>)
    requires k <= |centers|
    requires forall j :: 0 <= j < k ==> view(centers[j]).Success?
    ensures |r| == k
  {
    seq(k, j requires 0 <= j < k => out(view(centers[j]).value))
  }

  /** The last of the first `k` centers that passes the capture test. */
  function LastFlagged(snps: seq<Locus>, centers: seq<int>, k: nat): (r: Option<nat>)
    requires k <= |centers| && CentersIn(snps, centers)
    ensures r.None? <==> forall j :: 0 <= j < k ==> !Flagged(snps, centers, centers[j])
    ensures r.Some? ==>
      && r.value < k && Flagged(snps, centers, centers[r.value])
      && forall j :: r.value < j < k ==> !Flagged(snps, centers, centers[j])
  {
    if k == 0 then None
    else if Flagged(snps, centers, centers[k - 1]) then Some(k - 1)
    else LastFlagged(snps, centers, k - 1)
  }

  /** One pass of the loop body, for the three ways it can end. */
  lemma {:induction false} ScanStep<W, P>(snps: seq<Locus>, centers: seq<int>, view: int -> Result<W, ScanError>,
                       out: W -> P, probe: bool, k: nat, st: ScanState<W, P>)
    requires k < |centers| && CentersIn(snps, centers)
    requires Scan(snps, centers, view, out, probe, k) == Success(st)
    ensures view(centers[k]).Failure? ==>
      Scan(snps, centers, view, out, probe, k + 1) == Failure(view(centers[k]).error)
    ensures view(centers[k]).Success? && probe && snps[centers[k]].mt.None? ==>
      Scan(snps, centers, view, out, probe, k + 1) == Failure(LocusWithoutMutType(centers[k]))
    ensures view(centers[k]).Success? && (probe ==> snps[centers[k]].mt.Some?) ==>
      var c := centers[k];
      var v := view(c).value;
      Scan(snps, centers, view, out, probe, k + 1) ==
        Success(ScanState(Put(st.results, snps[c], out(v)),
                          if probe && Flagged(snps, centers, c) then Some(v) else st.capture))
  {
  }

  /** The loop gets through its first `k` centers exactly when each has a
      view and, when probed, a mutation type. */
  lemma {:induction false} ScanOk<W, P>(snps: seq<Locus>, centers: seq<int>, view: int -> Result<W, ScanError>,
                                        out: W -> P, probe: bool, k: nat)
    requires k <= |centers| && CentersIn(snps, centers)
    ensures Scan(snps, centers, view, out, probe, k).Success? <==> AllOk(snps, centers, view, probe, k)
  {
    if k > 0 {
      ScanOk(snps, centers, view, out, probe, k - 1);
    }
  }

  /** A failure ends the loop: the later centers do not change it. */
  lemma {:induction false} ScanFailStays<W, P>(snps: seq<Locus>, centers: seq<int>, view: int -> Result<W, ScanError>,
                                               out: W -> P, probe: bool, k: nat, n: nat)
    requires k <= n <= |centers| && CentersIn(snps, centers)
    requires Scan(snps, centers, view, out, probe, k).Failure?
    ensures Scan(snps, centers, view, out, probe, n) == Scan(snps, centers, view, out, probe, k)
    decreases n - k
  {
    if k < n {
      ScanFailStays(snps, centers, view, out, probe, k + 1, n);
    }
  }

  /** The result map is what assigning each center's result under its locus,
      in center order, gives. */
  lemma {:induction false} ScanResults<W, P>(snps: seq<Locus>, centers: seq<int>, view: int -> Result<W, ScanError>,
                                             out: W -> P, probe: bool, k: nat)
    requires k <= |centers| && CentersIn(snps, centers)
    requires Scan(snps, centers, view, out, probe, k).Success?
    ensures AllOk(snps, centers, view, probe, k)
    ensures Scan(snps, centers, view, out, probe, k).value.results ==
      Fill(Loci(snps, centers, k), Outs(centers, view, out, k))
  {
    ScanOk(snps, centers, view, out, probe, k);
    if k > 0 {
      ScanResults(snps, centers, view, out, probe, k - 1);
      LociPrefix(snps, centers, k);
      OutsPrefix(centers, view, out, k);
    }
  }

  lemma {:induction false} LociPrefix(snps: seq<Locus>, centers: seq<int>, k: nat)
    requires 0 < k <= |centers| && CentersIn(snps, centers)
    ensures Loci(snps, centers, k)[..k - 1] == Loci(snps, centers, k - 1)
    ensures Loci(snps, centers, k)[k - 1] == snps[centers[k - 1]]
  {
    assert Loci(snps, centers, k)[..k - 1] == Loci(snps, centers, k - 1);
  }

  lemma {:induction false} OutsPrefix<W, P>(centers: seq<int>, view: int -> Result<W, ScanError>, out: W -> P, k: nat)
    requires 0 < k <= |centers|
    requires forall j :: 0 <= j < k ==> view(centers[j]).Success?
    ensures Outs(centers, view, out, k)[..k - 1] == Outs(centers, view, out, k - 1)
    ensures Outs(centers, view, out, k)[k - 1] == out(view(centers[k - 1]).value)
  {
    assert Outs(centers, view, out, k)[..k - 1] == Outs(centers, view, out, k - 1);
  }

  /** The capture holds the view of the last center that passed the capture
      test; none passed exactly when nothing was captured. */
  lemma {:induction false} ScanCapture<W, P>(snps: seq<Locus>, centers: seq<int>, view: int -> Result<W, ScanError>,
                                             out: W -> P, probe: bool, k: nat)
    requires k <= |centers| && CentersIn(snps, centers)
    requires Scan(snps, centers, view, out, probe, k).Success?
    ensures var cap := Scan(snps, centers, view, out, probe, k).value.capture;
      && (!probe ==> cap.None?)
      && (probe ==> (cap.None? <==> LastFlagged(snps, centers, k).None?))
      && (probe && cap.Some? ==> view(centers[LastFlagged(snps, centers, k).value]) == Success(cap.value))
  {
    if k > 0 {
      ScanCapture(snps, centers, view, out, probe, k - 1);
      var st := Scan(snps, centers, view, out, probe, k - 1).value;
      var c := centers[k - 1];
      var v := view(c).value;
      assert Scan(snps, centers, view, out, probe, k).value.capture ==
        if probe && Flagged(snps, centers, c) then Some(v) else st.capture;
    }
  }

  /** With distinct loci there is one entry per center, in center order,
      each holding that center's result. */
  lemma {:induction false} ScanDistinct<W, P>(snps: seq<Locus>, centers: seq<int>, view: int -> Result<W, ScanError>,
                           out: W -> P, probe: bool)
    requires CentersIn(snps, centers)
    requires Scan(snps, centers, view, out, probe, |centers|).Success?
    requires Distinct(Loci(snps, centers, |centers|))
    ensures var d := Scan(snps, centers, view, out, probe, |centers|).value.results;
      && |d| == |centers|
      && Keys(d) == Loci(snps, centers, |centers|)
      && forall j :: 0 <= j < |centers| ==>
        view(centers[j]).Success? && d[j] == (snps[centers[j]], out(view(centers[j]).value))
  {
    var n := |centers|;
    ScanResults(snps, centers, view, out, probe, n);
    FillDistinct(Loci(snps, centers, n), Outs(centers, view, out, n));
  }

  /** Whatever the loci, the map holds each visited locus once, and a locus
      holds the result of the last center with that locus. */
  lemma {:induction false} ScanLastWins<W, P>(snps: seq<Locus>, centers: seq<int>, view: int -> Result<W, ScanError>,
                           out: W -> P, probe: bool)
    requires CentersIn(snps, centers)
    requires Scan(snps, centers, view, out, probe, |centers|).Success?
    ensures var d := Scan(snps, centers, view, out, probe, |centers|).value.results;
      && Distinct(Keys(d))
      && (forall l :: l in Keys(d) <==> l in Loci(snps, centers, |centers|))
      && forall j :: 0 <= j < |centers| && (forall j' :: j < j' < |centers| ==> snps[centers[j']] != snps[centers[j]]) ==>
        view(centers[j]).Success? && Get(d, snps[centers[j]]) == Some(out(view(centers[j]).value))
  {
    var n := |centers|;
    ScanResults(snps, centers, view, out, probe, n);
    var ls := Loci(snps, centers, n);
    var os := Outs(centers, view, out, n);
    FillKeys(ls, os);
    FillLastWins(ls, os);
    forall j | 0 <= j < n && (forall j' :: j < j' < n ==> snps[centers[j']] != snps[centers[j]])
      ensures Get(Fill(ls, os), snps[centers[j]]) == Some(out(view(centers[j]).value))
    {
      assert ls[j] == snps[centers[j]] && os[j] == out(view(centers[j]).value);
      assert LastAt(ls, j);
    }
  }

  // ---------------------------------------------------------------------
  // run_afs_windows
  // ---------------------------------------------------------------------

  /** The network's output for one window: neutral, hard-sweep and
      soft-sweep scores. */
  datatype Probs = Probs(neut: real, hard: real, soft: real)

  /** Column `c` is inside the row. */
  predicate HasColumn(row: seq<Freq>, c: int) {
    0 <= c < |row|
  }

  /** Every timepoint row has every column of the window. A negative index
      counts as missing here, where NumPy would count from the end; no
      window reaches one, since every window index lies in the sites
      (`CenterWindowsIn`). */
  predicate ColumnsExist(m: seq<seq<Freq>>, idxs: seq<int>) {
    forall t, i :: 0 <= t < |m| && 0 <= i < |idxs| ==> HasColumn(m[t], idxs[i])
  }

  lemma {:induction false} ColumnsAt(m: seq<seq<Freq>>, idxs: seq<int>, t: int, i: int)
    requires ColumnsExist(m, idxs) && 0 <= t < |m| && 0 <= i < |idxs|
    ensures 0 <= idxs[i] < |m[t]|
  {
    assert HasColumn(m[t], idxs[i]);
  }

  /** Fancy indexing `m[:, idxs]` on a matrix that has every column. */
  function SelectColumns(m: seq<seq<Freq>>, idxs: seq<int>): (r: seq<seq<Freq>>)
    requires ColumnsExist(m, idxs)
    ensures |r| == |m|
    ensures forall t :: 0 <= t < |m| ==> |r[t]| == |idxs|
    ensures forall t, i :: 0 <= t < |m| && 0 <= i < |idxs| ==>
      HasColumn(m[t], idxs[i]) && r[t][i] == m[t][idxs[i]]
  {
    seq(|m|, t requires 0 <= t < |m| =>
      seq(|idxs|, i requires 0 <= i < |idxs| => ColumnsAt(m, idxs, t, i); m[t][idxs[i]]))
  }

  /** `ts_afs[:, win_idxs]`: the window's columns of every timepoint row. */
  function AfsWindow(m: seq<seq<Freq>>, winSize: nat, c: int): (r: Result<seq<seq<Freq>>, ScanError>)
    ensures r.Failure? ==> r.error == WindowOutOfRange(c)
    ensures r.Success? <==> ColumnsExist(m, WindowIdxs(c, winSize))
    ensures r.Success? ==>
      ColumnsExist(m, WindowIdxs(c, winSize)) && r.value == SelectColumns(m, WindowIdxs(c, winSize))
  {
    var idxs := WindowIdxs(c, winSize);
    if ColumnsExist(m, idxs) then Success(SelectColumns(m, idxs))
    else Failure(WindowOutOfRange(c))
  }

  function AfsView(m: seq<seq<Freq>>, winSize: nat): int -> Result<seq<seq<Freq>>, ScanError> {
    c => AfsWindow(m, winSize, c)
  }

  /** `run_afs_windows`: the result map and the captured window. */
  function AfsScan(snps: seq<Locus>, genos: Genos, sizes: seq<nat>, winSize: nat,
                   predict: seq<seq<Freq>> -> Probs): Result<(Dict<Locus, Probs>, seq<seq<Freq>>), ScanError>
  {
    match TsAfs(genos, sizes)
    case Failure(e) => Failure(Geno(e))
    case Success(m) =>
      var centers := Centers(|snps|, winSize);
      match Scan(snps, centers, AfsView(m, winSize), predict, true, |centers|)
      case Failure(e) => Failure(e)
      case Success(st) =>
        if st.capture.None? then Failure(NoCapture) else Success((st.results, st.capture.value))
  }

  /** `run_afs_windows` as written: the matrix, then one pass over the
      centers, then the captured window. */
  method RunAfsWindows(snps: seq<Locus>, genos: Genos, sizes: seq<nat>, winSize: nat,
                       predict: seq<seq<Freq>> -> Probs)
    returns (r: Result<(Dict<Locus, Probs>, seq<seq<Freq>>), ScanError>)
    ensures r == AfsScan(snps, genos, sizes, winSize, predict)
  {
    var tsAfs := PrepTsAfs(genos, sizes);
    if tsAfs.Failure? {
      return Failure(Geno(tsAfs.error));
    }
    var scan := AfsWindowsLoop(snps, tsAfs.value, winSize, predict);
    if scan.Failure? {
      return Failure(scan.error);
    }
    if scan.value.capture.None? {
      return Failure(NoCapture);
    }
    return Success((scan.value.results, scan.value.capture.value));
  }

  /** The loop of `run_afs_windows`: each window predicted and stored under
      its locus, the flagged window captured. */
  method AfsWindowsLoop(snps: seq<Locus>, m: seq<seq<Freq>>, winSize: nat, predict: seq<seq<Freq>> -> Probs)
    returns (r: Result<ScanState<seq<seq<Freq>>, Probs>, ScanError>)
    ensures var centers := Centers(|snps|, winSize);
      r == Scan(snps, centers, AfsView(m, winSize), predict, true, |centers|)
  {
    var resultsDict: Dict<Locus, Probs> := [];
    var centerAfs: Option<seq<seq<Freq>>> := None;
    var centers := Centers(|snps|, winSize);
    for k := 0 to |centers|
      invariant Scan(snps, centers, AfsView(m, winSize), predict, true, k) == Success(ScanState(resultsDict, centerAfs))
    {
      var center := centers[k];
      var window := AfsWindow(m, winSize, center);
      assert AfsView(m, winSize)(center) == window;
      ScanStep(snps, centers, AfsView(m, winSize), predict, true, k, ScanState(resultsDict, centerAfs));
      if window.Failure? {
        ScanFailStays(snps, centers, AfsView(m, winSize), predict, true, k + 1, |centers|);
        return Failure(window.error);
      }
      if snps[center].mt.None? {
        ScanFailStays(snps, centers, AfsView(m, winSize), predict, true, k + 1, |centers|);
        return Failure(LocusWithoutMutType(center));
      }
      if snps[center].mt == Some(2) || center == |centers| / 2 {
        centerAfs := Some(window.value);
      }
      resultsDict := Put(resultsDict, snps[center], predict(window.value));
    }
    return Success(ScanState(resultsDict, centerAfs));
  }

  /** What a finished AFS scan returns: with distinct loci one prediction per
      center, in center order, each made on that center's window; and the
      window of the last center that passed the capture test. */
  lemma {:induction false} AfsScanResult(snps: seq<Locus>, genos: Genos, sizes: seq<nat>, winSize: nat,
                      predict: seq<seq<Freq>> -> Probs)
    requires AfsScan(snps, genos, sizes, winSize, predict).Success?
    ensures TsAfs(genos, sizes).Success?
    ensures var m := TsAfs(genos, sizes).value;
      var centers := Centers(|snps|, winSize);
      var (d, cap) := AfsScan(snps, genos, sizes, winSize, predict).value;
      && LastFlagged(snps, centers, |centers|).Some?
      && AfsWindow(m, winSize, centers[LastFlagged(snps, centers, |centers|).value]) == Success(cap)
      && (Distinct(Loci(snps, centers, |centers|)) ==>
        && |d| == |centers|
        && forall j :: 0 <= j < |centers| ==>
          AfsWindow(m, winSize, centers[j]).Success? &&
          d[j] == (snps[centers[j]], predict(AfsWindow(m, winSize, centers[j]).value)))
  {
    var m := TsAfs(genos, sizes).value;
    var centers := Centers(|snps|, winSize);
    var scan := Scan(snps, centers, AfsView(m, winSize), predict, true, |centers|);
    assert scan.Success? && scan.value.capture.Some?;
    assert AfsScan(snps, genos, sizes, winSize, predict).value == (scan.value.results, scan.value.capture.value);
    WindowScanResult(snps, centers, m, winSize, predict);
  }

  /** A window scan that captured something: the capture is the window of
      the last flagged center, and with distinct loci each entry is the locus
      with the prediction on its window. */
  lemma {:induction false} WindowScanResult(snps: seq<Locus>, centers: seq<int>, m: seq<seq<Freq>>, winSize: nat,
                         predict: seq<seq<Freq>> -> Probs)
    requires CentersIn(snps, centers)
    requires Scan(snps, centers, AfsView(m, winSize), predict, true, |centers|).Success?
    requires Scan(snps, centers, AfsView(m, winSize), predict, true, |centers|).value.capture.Some?
    ensures var st := Scan(snps, centers, AfsView(m, winSize), predict, true, |centers|).value;
      && LastFlagged(snps, centers, |centers|).Some?
      && AfsWindow(m, winSize, centers[LastFlagged(snps, centers, |centers|).value]) == Success(st.capture.value)
      && (Distinct(Loci(snps, centers, |centers|)) ==>
        && |st.results| == |centers|
        && forall j :: 0 <= j < |centers| ==>
          AfsWindow(m, winSize, centers[j]).Success? &&
          st.results[j] == (snps[centers[j]], predict(AfsWindow(m, winSize, centers[j]).value)))
  {
    ScanCapture(snps, centers, AfsView(m, winSize), predict, true, |centers|);
    if Distinct(Loci(snps, centers, |centers|)) {
      ScanDistinct(snps, centers, AfsView(m, winSize), predict, true);
    }
  }

  // ---------------------------------------------------------------------
  // run_fit_windows
  // ---------------------------------------------------------------------

  /** The frequency increment test's output for one site. */
  datatype FitResult = FitResult(tval: real, pval: real)

  /** Every timepoint row has column `c`. */
  predicate ColumnExists(m: seq<seq<Freq>>, c: int) {
    forall t :: 0 <= t < |m| ==> HasColumn(m[t], c)
  }

  /** Indexing `m[:, c]` on a matrix that has the column. */
  function SelectColumn(m: seq<seq<Freq>>, c: int): (r: seq<Freq>)
    requires ColumnExists(m, c)
    ensures |r| == |m|
    ensures forall t :: 0 <= t < |m| ==> HasColumn(m[t], c) && r[t] == m[t][c]
  {
    seq(|m|, t requires 0 <= t < |m| => ColumnAt(m, c, t); m[t][c])
  }

  lemma {:induction false} ColumnAt(m: seq<seq<Freq>>, c: int, t: int)
    requires ColumnExists(m, c) && 0 <= t < |m|
    ensures 0 <= c < |m[t]|
  {
    assert HasColumn(m[t], c);
  }

  /** `ts_afs[:, idx]`: one site's frequency at every timepoint. */
  function AfsColumn(m: seq<seq<Freq>>, c: int): (r: Result<seq<Freq>, ScanError>)
    ensures r.Failure? ==> r.error == WindowOutOfRange(c)
    ensures r.Success? <==> ColumnExists(m, c)
    ensures r.Success? ==> ColumnExists(m, c) && r.value == SelectColumn(m, c)
  {
    if ColumnExists(m, c) then Success(SelectColumn(m, c))
    else Failure(WindowOutOfRange(c))
  }

  function ColumnView(m: seq<seq<Freq>>): int -> Result<seq<Freq>, ScanError> {
    c => AfsColumn(m, c)
  }

  function FitOut(fit: (seq<Freq>, seq<int>) -> FitResult, gens: seq<int>): seq<Freq> -> FitResult {
    col => fit(col, gens)
  }

  /** `run_fit_windows`: neither the mutation type nor a capture is involved. */
  function FitScan(snps: seq<Locus>, genos: Genos, sizes: seq<nat>, winSize: nat, gens: seq<int>,
                   fit: (seq<Freq>, seq<int>) -> FitResult): Result<Dict<Locus, FitResult>, ScanError>
  {
    match TsAfs(genos, sizes)
    case Failure(e) => Failure(Geno(e))
    case Success(m) =>
      var centers := Centers(|snps|, winSize);
      match Scan(snps, centers, ColumnView(m), FitOut(fit, gens), false, |centers|)
      case Failure(e) => Failure(e)
      case Success(st) => Success(st.results)
  }

  /** `run_fit_windows` as written: the matrix, then one pass over the centers. */
  method RunFitWindows(snps: seq<Locus>, genos: Genos, sizes: seq<nat>, winSize: nat, gens: seq<int>,
                       fit: (seq<Freq>, seq<int>) -> FitResult)
    returns (r: Result<Dict<Locus, FitResult>, ScanError>)
    ensures r == FitScan(snps, genos, sizes, winSize, gens, fit)
  {
    var tsAfs := PrepTsAfs(genos, sizes);
    if tsAfs.Failure? {
      return Failure(Geno(tsAfs.error));
    }
    var scan := FitWindowsLoop(snps, tsAfs.value, winSize, gens, fit);
    if scan.Failure? {
      return Failure(scan.error);
    }
    return Success(scan.value.results);
  }

  /** The loop of `run_fit_windows`: each center's column tested and the
      result stored under its locus. */
  method FitWindowsLoop(snps: seq<Locus>, m: seq<seq<Freq>>, winSize: nat, gens: seq<int>,
                        fit: (seq<Freq>, seq<int>) -> FitResult)
    returns (r: Result<ScanState<seq<Freq>, FitResult>, ScanError>)
    ensures var centers := Centers(|snps|, winSize);
      r == Scan(snps, centers, ColumnView(m), FitOut(fit, gens), false, |centers|)
  {
    var resultsDict: Dict<Locus, FitResult> := [];
    var centers := Centers(|snps|, winSize);
    for k := 0 to |centers|
      invariant Scan(snps, centers, ColumnView(m), FitOut(fit, gens), false, k) == Success(ScanState(resultsDict, None))
    {
      var idx := centers[k];
      var column := AfsColumn(m, idx);
      assert ColumnView(m)(idx) == column;
      ScanStep(snps, centers, ColumnView(m), FitOut(fit, gens), false, k, ScanState(resultsDict, None));
      if column.Failure? {
        ScanFailStays(snps, centers, ColumnView(m), FitOut(fit, gens), false, k + 1, |centers|);
        return Failure(column.error);
      }
      resultsDict := Put(resultsDict, snps[idx], fit(column.value, gens));
    }
    return Success(ScanState(resultsDict, None));
  }

  /** The test sees only the center's own column, never the window around
      it; with distinct loci there is one result per center, in order. The
      scan fails only when a center lies past the sites of the genotypes. */
  lemma {:induction false} FitScanResult(snps: seq<Locus>, genos: Genos, sizes: seq<nat>, winSize: nat, gens: seq<int>,
                      fit: (seq<Freq>, seq<int>) -> FitResult)
    requires TsAfs(genos, sizes).Success?
    ensures var centers := Centers(|snps|, winSize);
      FitScan(snps, genos, sizes, winSize, gens, fit).Success? <==>
        forall j :: 0 <= j < |centers| ==> centers[j] < |genos|
    ensures var m := TsAfs(genos, sizes).value;
      var centers := Centers(|snps|, winSize);
      FitScan(snps, genos, sizes, winSize, gens, fit).Success? && Distinct(Loci(snps, centers, |centers|)) ==>
        var d := FitScan(snps, genos, sizes, winSize, gens, fit).value;
        && |d| == |centers|
        && forall j :: 0 <= j < |centers| ==>
          AfsColumn(m, centers[j]).Success? &&
          d[j] == (snps[centers[j]], fit(AfsColumn(m, centers[j]).value, gens))
  {
    var m := TsAfs(genos, sizes).value;
    var centers := Centers(|snps|, winSize);
    TsAfsShape(genos, sizes);
    assert FitScan(snps, genos, sizes, winSize, gens, fit) ==
      match Scan(snps, centers, ColumnView(m), FitOut(fit, gens), false, |centers|)
      case Failure(e) => Failure(e)
      case Success(st) => Success(st.results);
    ColumnScanOk(snps, centers, m, |genos|, gens, fit);
  }

  /** On a non-empty matrix with `w` columns the column scan succeeds exactly
      when every center is below `w`; with distinct loci it holds one entry
      per center, each the locus with the test on its column. */
  lemma {:induction false} ColumnScanOk(snps: seq<Locus>, centers: seq<int>, m: seq<seq<Freq>>, w: nat, gens: seq<int>,
                     fit: (seq<Freq>, seq<int>) -> FitResult)
    requires CentersIn(snps, centers) && forall j :: 0 <= j < |centers| ==> 0 <= centers[j]
    requires |m| > 0 && forall t :: 0 <= t < |m| ==> |m[t]| == w
    ensures Scan(snps, centers, ColumnView(m), FitOut(fit, gens), false, |centers|).Success? <==>
      forall j :: 0 <= j < |centers| ==> centers[j] < w
    ensures (Scan(snps, centers, ColumnView(m), FitOut(fit, gens), false, |centers|).Success? &&
             Distinct(Loci(snps, centers, |centers|))) ==>
        var d := Scan(snps, centers, ColumnView(m), FitOut(fit, gens), false, |centers|).value.results;
        && |d| == |centers|
        && forall j :: 0 <= j < |centers| ==>
          AfsColumn(m, centers[j]).Success? &&
          d[j] == (snps[centers[j]], fit(AfsColumn(m, centers[j]).value, gens))
  {
    ScanOk(snps, centers, ColumnView(m), FitOut(fit, gens), false, |centers|);
    forall j | 0 <= j < |centers|
      ensures ColumnView(m)(centers[j]).Success? <==> centers[j] < w
    {
      assert HasColumn(m[0], centers[j]) <==> centers[j] < w;
    }
    if Scan(snps, centers, ColumnView(m), FitOut(fit, gens), false, |centers|).Success? {
      if Distinct(Loci(snps, centers, |centers|)) {
        ScanDistinct(snps, centers, ColumnView(m), FitOut(fit, gens), false);
      }
    }
  }

  // ---------------------------------------------------------------------
  // run_hfs_windows
  // ---------------------------------------------------------------------

  /** A haplotype matrix (sites × haplotypes) is rectangular. */
  predicate Rectangular(haps: seq<seq<int>>) {
    forall s :: 0 <= s < |haps| ==> |haps[s]| == |haps[0]|
  }

  /** `np.swapaxes(haps[win_idxs, :], 0, 1)`: the window's sites as columns,
      one row per haplotype. */
  function HapWindow(haps: seq<seq<int>>, winSize: nat, c: int): (r: Result<seq<seq<int>>, ScanError>)
    requires Rectangular(haps)
    ensures r.Failure? ==> r.error == WindowOutOfRange(c)
    ensures r.Success? <==> forall i :: 0 <= i < |WindowIdxs(c, winSize)| ==> 0 <= WindowIdxs(c, winSize)[i] < |haps|
    ensures r.Success? ==> |r.value| == |haps[0]| && forall h :: 0 <= h < |r.value| ==>
      |r.value[h]| == |WindowIdxs(c, winSize)| &&
      forall i :: 0 <= i < |r.value[h]| ==> r.value[h][i] == haps[WindowIdxs(c, winSize)[i]][h]
  {
    var idxs := WindowIdxs(c, winSize);
    if forall i :: 0 <= i < |idxs| ==> 0 <= idxs[i] < |haps| then
      var width := |haps[idxs[0]]|;
      Success(seq(width, h requires 0 <= h < width => seq(|idxs|, i requires 0 <= i < |idxs| => haps[idxs[i]][h])))
    else Failure(WindowOutOfRange(c))
  }

  /** `hu.getTSHapFreqs(hu.haps_to_strlist(window), samp_sizes)` for a
      center's window; both helpers are parameters of the model. */
  function HfsView(haps: seq<seq<int>>, sizes: seq<nat>, winSize: nat,
                   hapStrings: seq<seq<int>> -> seq<string>,
                   hapFreqs: (seq<string>, seq<nat>) -> seq<seq<real>>): int -> Result<seq<seq<real>>, ScanError>
    requires Rectangular(haps)
  {
    c => match HapWindow(haps, winSize, c)
         case Failure(e) => Failure(e)
         case Success(win) => Success(hapFreqs(hapStrings(win), sizes))
  }

  /** `run_hfs_windows`: the result map and the captured haplotype frequency spectrum. */
  function HfsScan(snps: seq<Locus>, haps: seq<seq<int>>, sizes: seq<nat>, winSize: nat,
                   hapStrings: seq<seq<int>> -> seq<string>,
                   hapFreqs: (seq<string>, seq<nat>) -> seq<seq<real>>,
                   predict: seq<seq<real>> -> Probs): Result<(Dict<Locus, Probs>, seq<seq<real>>), ScanError>
    requires Rectangular(haps)
  {
    var centers := Centers(|snps|, winSize);
    match Scan(snps, centers, HfsView(haps, sizes, winSize, hapStrings, hapFreqs), predict, true, |centers|)
    case Failure(e) => Failure(e)
    case Success(st) =>
      if st.capture.None? then Failure(NoCapture) else Success((st.results, st.capture.value))
  }

  /** `run_hfs_windows` as written (the repeated window computation before
      the prediction has no effect and is not repeated here). */
  method RunHfsWindows(snps: seq<Locus>, haps: seq<seq<int>>, sizes: seq<nat>, winSize: nat,
                       hapStrings: seq<seq<int>> -> seq<string>,
                       hapFreqs: (seq<string>, seq<nat>) -> seq<seq<real>>,
                       predict: seq<seq<real>> -> Probs)
    returns (r: Result<(Dict<Locus, Probs>, seq<seq<real>>), ScanError>)
    requires Rectangular(haps)
    ensures r == HfsScan(snps, haps, sizes, winSize, hapStrings, hapFreqs, predict)
  {
    var resultsDict: Dict<Locus, Probs> := [];
    var centerHfs: Option<seq<seq<real>>> := None;
    var centers := Centers(|snps|, winSize);
    ghost var view := HfsView(haps, sizes, winSize, hapStrings, hapFreqs);
    for k := 0 to |centers|
      invariant Scan(snps, centers, view, predict, true, k) == Success(ScanState(resultsDict, centerHfs))
    {
      var center := centers[k];
      var window := HapWindow(haps, winSize, center);
      ScanStep(snps, centers, view, predict, true, k, ScanState(resultsDict, centerHfs));
      if window.Failure? {
        ScanFailStays(snps, centers, view, predict, true, k + 1, |centers|);
        return Failure(window.error);
      }
      var strWindow := hapStrings(window.value);
      var hfs := hapFreqs(strWindow, sizes);
      assert view(center) == Success(hfs);
      if snps[center].mt.None? {
        ScanFailStays(snps, centers, view, predict, true, k + 1, |centers|);
        return Failure(LocusWithoutMutType(center));
      }
      if snps[center].mt == Some(2) || center == |centers| / 2 {
        centerHfs := Some(hfs);
      }
      resultsDict := Put(resultsDict, snps[center], predict(hfs));
    }
    if centerHfs.None? {
      return Failure(NoCapture);
    }
    return Success((resultsDict, centerHfs.value));
  }

  /** What a finished HFS scan returns: the spectrum of the last center that
      passed the capture test, and with distinct loci one prediction per
      center, in order, each made on that center's spectrum. */
  lemma {:induction false} HfsScanResult(snps: seq<Locus>, haps: seq<seq<int>>, sizes: seq<nat>, winSize: nat,
                      hapStrings: seq<seq<int>> -> seq<string>,
                      hapFreqs: (seq<string>, seq<nat>) -> seq<seq<real>>,
                      predict: seq<seq<real>> -> Probs)
    requires Rectangular(haps)
    requires HfsScan(snps, haps, sizes, winSize, hapStrings, hapFreqs, predict).Success?
    ensures var centers := Centers(|snps|, winSize);
      var (d, cap) := HfsScan(snps, haps, sizes, winSize, hapStrings, hapFreqs, predict).value;
      && LastFlagged(snps, centers, |centers|).Some?
      && var last := centers[LastFlagged(snps, centers, |centers|).value];
      && HapWindow(haps, winSize, last).Success?
      && cap == hapFreqs(hapStrings(HapWindow(haps, winSize, last).value), sizes)
      && (Distinct(Loci(snps, centers, |centers|)) ==>
        && |d| == |centers|
        && forall j :: 0 <= j < |centers| ==>
          HapWindow(haps, winSize, centers[j]).Success? &&
          d[j] == (snps[centers[j]], predict(hapFreqs(hapStrings(HapWindow(haps, winSize, centers[j]).value), sizes))))
  {
    var centers := Centers(|snps|, winSize);
    var view := HfsView(haps, sizes, winSize, hapStrings, hapFreqs);
    ScanCapture(snps, centers, view, predict, true, |centers|);
    if Distinct(Loci(snps, centers, |centers|)) {
      ScanDistinct(snps, centers, view, predict, true);
    }
  }
}
