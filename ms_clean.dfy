/** The ms-output cleaning of timesweeper/utils.py: splitting a SLiM log
    into one entry per simulation header, dropping what precedes the last
    restart, removing SLiM's own lines and making sure every entry carries
    the ms header line. */
module MsClean {
  import opened Wrappers
  import opened PyStrings

  /** The text that marks SLiM's ms header line. */
  const SlimHeader: string := "SLiM/build/slim"

  const Restarting: string := "RESTARTING"

  /** The two SLiM lines whose following line is a bare number. */
  const SeedMarker: string := "// Initial random seed:"
  const StartMarker: string := "// Starting run at generation <start>:"

  datatype MsError =
    | NoHeaderLine  // `idx_list[-1]` with no header line in the input
    | BlankLine     // `subMS[i].split()[0]` on a line without words

  predicate HasHeader(line: string) {
    Contains(line, SlimHeader)
  }

  // ---------------------------------------------------------------------
  // split_ms_to_list
  // ---------------------------------------------------------------------

  /** `idx_list` restricted to the first `k` lines: the indices of the header
      lines, in increasing order. */
  function HeaderIdxs(raw: seq<string>, k: nat): (r: seq<nat>)
    requires k <= |raw|
    ensures forall j :: 0 <= j < |r| ==> r[j] < k && HasHeader(raw[r[j]])
    ensures forall i, j :: 0 <= i < j < |r| ==> r[i] < r[j]
    ensures forall i :: 0 <= i < k && HasHeader(raw[i]) ==> i in r
  {
    Where(HeaderAt(raw), k)
  }

  /** Line `i` holds the header text. */
  function HeaderAt(raw: seq<string>): nat -> bool {
    (i: nat) => i < |raw| && HasHeader(raw[i])
  }

  /** Cut points that never go back and stay inside `raw`. */
  predicate Monotone(b: seq<nat>, size: nat) {
    && |b| > 0
    && (forall i, j :: 0 <= i <= j < |b| ==> b[i] <= b[j])
    && b[|b| - 1] <= size
  }

  /** The pieces of `raw` between consecutive cut points. */
  function Cuts(raw: seq<string>, b: seq<nat>): (r: seq<seq<string>>)
    requires Monotone(b, |raw|)
    ensures |r| == |b| - 1
  {
    seq(|b| - 1, j requires 0 <= j < |b| - 1 => raw[b[j]..b[j + 1]])
  }

  /** The cut points `split_ms_to_list` pairs up: `[0] + idx_list` against
      `idx_list + [size]`. */
  function Bounds(raw: seq<string>): (b: seq<nat>)
    requires HeaderIdxs(raw, |raw|) != []
    ensures Monotone(b, |raw|)
    ensures b[0] == 0 && b[|b| - 1] == |raw|
    ensures |b| == |HeaderIdxs(raw, |raw|)| + 2
    ensures forall j :: 1 <= j <= |HeaderIdxs(raw, |raw|)| ==> b[j] == HeaderIdxs(raw, |raw|)[j - 1]
  {
    var idx := HeaderIdxs(raw, |raw|);
    CutPoints(idx, |raw|);
    [0] + idx + [|raw|]
  }

  /** Increasing indices below `size`, framed by 0 and `size`, never go back. */
  lemma {:induction false} CutPoints(idx: seq<nat>, size: nat)
    requires forall j :: 0 <= j < |idx| ==> idx[j] < size
    requires forall i, j :: 0 <= i < j < |idx| ==> idx[i] < idx[j]
    ensures Monotone([0] + idx + [size], size)
    ensures forall j :: 1 <= j <= |idx| ==> ([0] + idx + [size])[j] == idx[j - 1]
  {
    var b := [0] + idx + [size];
    assert forall j :: 1 <= j <= |idx| ==> b[j] == idx[j - 1];
    forall i, j | 0 <= i <= j < |b| ensures b[i] <= b[j] {
      if 0 < i && i < j && j < |b| - 1 {
        assert idx[i - 1] <= idx[j - 1];
      }
    }
  }

  /** `split_ms_to_list`: the lines before the first header line, then one
      segment per header line running up to the next one. */
  function SplitMsToList(raw: seq<string>): (r: Result<seq<seq<string>>, MsError>)
    ensures r.Failure? <==> forall i :: 0 <= i < |raw| ==> !HasHeader(raw[i])
    ensures r.Failure? ==> r.error == NoHeaderLine
  {
    var idx := HeaderIdxs(raw, |raw|);
    if idx == [] then Failure(NoHeaderLine)
    else
      assert HasHeader(raw[idx[0]]);
      Success(Cuts(raw, Bounds(raw)))
  }

  /** Gluing the first `n` pieces back together gives the input up to the
      n-th cut point. */
  lemma {:induction false} FlattenCuts(raw: seq<string>, b: seq<nat>, n: nat)
    requires Monotone(b, |raw|) && n < |b|
    ensures Flatten(Cuts(raw, b)[..n]) == raw[b[0]..b[n]]
    decreases n
  {
    if n > 0 {
      FlattenCuts(raw, b, n - 1);
      var cs := Cuts(raw, b);
      MonotoneAt(b, |raw|, n);
      assert cs[..n][..n - 1] == cs[..n - 1];
      SliceConcat(raw, b[0], b[n - 1], b[n]);
    }
  }

  lemma {:induction false} MonotoneAt(b: seq<nat>, size: nat, n: nat)
    requires Monotone(b, size) && 0 < n < |b|
    ensures b[0] <= b[n - 1] <= b[n] <= size
  {
    assert b[n] <= b[|b| - 1];
  }

  lemma {:induction false} SliceConcat<T>(xs: seq<T>, lo: nat, mid: nat, hi: nat)
    requires lo <= mid <= hi <= |xs|
    ensures xs[lo..hi] == xs[lo..mid] + xs[mid..hi]
  {
  }

  /** The segments concatenate back to the input, one more of them than
      there are header lines. */
  lemma {:induction false} SplitMsRoundTrip(raw: seq<string>)
    requires SplitMsToList(raw).Success?
    ensures Flatten(SplitMsToList(raw).value) == raw
    ensures |SplitMsToList(raw).value| == |HeaderIdxs(raw, |raw|)| + 1
  {
    var b := Bounds(raw);
    FlattenCuts(raw, b, |b| - 1);
    assert Cuts(raw, b)[..|b| - 1] == Cuts(raw, b);
  }

  /** The first segment holds no header line; every later segment starts
      with a header line and holds no other. */
  lemma {:induction false} SplitMsSegments(raw: seq<string>)
    requires SplitMsToList(raw).Success?
    ensures var segs := SplitMsToList(raw).value;
      && (forall p :: 0 <= p < |segs[0]| ==> !HasHeader(segs[0][p]))
      && forall k :: 1 <= k < |segs| ==>
        && segs[k] != [] && HasHeader(segs[k][0])
        && forall p :: 1 <= p < |segs[k]| ==> !HasHeader(segs[k][p])
  {
    var segs := SplitMsToList(raw).value;
    SegmentZero(raw);
    forall k | 1 <= k < |segs|
      ensures segs[k] != [] && HasHeader(segs[k][0])
      ensures forall p :: 1 <= p < |segs[k]| ==> !HasHeader(segs[k][p])
    {
      SegmentAfterHeader(raw, k);
    }
  }

  lemma {:induction false} SegmentZero(raw: seq<string>)
    requires SplitMsToList(raw).Success?
    ensures var seg := SplitMsToList(raw).value[0];
      forall p :: 0 <= p < |seg| ==> !HasHeader(seg[p])
  {
    var idx := HeaderIdxs(raw, |raw|);
    var b := Bounds(raw);
    var seg := SplitMsToList(raw).value[0];
    assert seg == raw[0..idx[0]];
    forall p | 0 <= p < |seg| ensures !HasHeader(seg[p]) {
      assert seg[p] == raw[p];
      forall q | 0 <= q < |idx| ensures idx[q] != p {
        assert idx[0] <= idx[q];
      }
    }
  }

  lemma {:induction false} SegmentAfterHeader(raw: seq<string>, k: nat)
    requires SplitMsToList(raw).Success? && 1 <= k < |SplitMsToList(raw).value|
    ensures var seg := SplitMsToList(raw).value[k];
      && seg != [] && HasHeader(seg[0])
      && forall p :: 1 <= p < |seg| ==> !HasHeader(seg[p])
  {
    var idx := HeaderIdxs(raw, |raw|);
    var hi := SegmentBounds(raw, k);
    var lo := idx[k - 1];
    forall at | lo < at < hi ensures !HasHeader(raw[at]) {
      NoHeaderInGap(raw, k, at);
    }
    HeaderSlice(raw, lo, hi);
  }

  /** A slice that starts at a header line and has no other header line
      inside starts with a header and holds no other. */
  lemma {:induction false} HeaderSlice(raw: seq<string>, lo: nat, hi: nat)
    requires lo < hi <= |raw| && HasHeader(raw[lo])
    requires forall at :: lo < at < hi ==> !HasHeader(raw[at])
    ensures var seg := raw[lo..hi];
      && seg != [] && HasHeader(seg[0])
      && forall p :: 1 <= p < |seg| ==> !HasHeader(seg[p])
  {
    var seg := raw[lo..hi];
    forall p | 1 <= p < |seg| ensures !HasHeader(seg[p]) {
      assert seg[p] == raw[lo + p];
    }
  }

  /** A line strictly between two neighbouring header lines (or after the
      last one) holds no header text. */
  lemma {:induction false} NoHeaderInGap(raw: seq<string>, k: nat, at: nat)
    requires var idx := HeaderIdxs(raw, |raw|);
      && 1 <= k <= |idx| && idx[k - 1] < at < |raw|
      && (k < |idx| ==> at < idx[k])
    ensures !HasHeader(raw[at])
  {
    IncreasingGap(HeaderIdxs(raw, |raw|), k, at);
  }

  /** Segment `k` runs from header line `k - 1` up to the next header line
      or the end. */
  lemma {:induction false} SegmentBounds(raw: seq<string>, k: nat) returns (hi: nat)
    requires SplitMsToList(raw).Success? && 1 <= k < |SplitMsToList(raw).value|
    ensures var idx := HeaderIdxs(raw, |raw|);
      && k <= |idx| && idx[k - 1] < hi <= |raw|
      && (k < |idx| ==> hi == idx[k])
      && (k == |idx| ==> hi == |raw|)
      && SplitMsToList(raw).value[k] == raw[idx[k - 1]..hi]
  {
    var idx := HeaderIdxs(raw, |raw|);
    var b := Bounds(raw);
    hi := if k < |idx| then idx[k] else |raw|;
    assert b[k] == idx[k - 1] && b[k + 1] == hi;
  }

  /** No entry of an increasing sequence lies strictly between two
      neighbours (or after the last one and below `size`). */
  lemma {:induction false} IncreasingGap(idx: seq<nat>, k: nat, at: nat)
    requires forall i, j :: 0 <= i < j < |idx| ==> idx[i] < idx[j]
    requires 1 <= k <= |idx| && idx[k - 1] < at
    requires k < |idx| ==> at < idx[k]
    ensures at !in idx
  {
    forall q | 0 <= q < |idx| ensures idx[q] != at {
      if q < k - 1 {
        assert idx[q] < idx[k - 1];
      } else if q > k - 1 {
        assert idx[k] <= idx[q];
      }
    }
  }

  // ---------------------------------------------------------------------
  // get_last_restart
  // ---------------------------------------------------------------------

  /** The index the loop of `get_last_restart` holds after `k` lines: the
      last of them that mentions a restart, or 0. */
  function LastRestart(sub: seq<string>, k: nat): (r: nat)
    requires k <= |sub|
    ensures k > 0 ==> r < k
    ensures r == 0 || (r < k && Contains(sub[r], Restarting))
    ensures forall j :: r < j < k ==> !Contains(sub[j], Restarting)
  {
    if k == 0 then 0
    else if Contains(sub[k - 1], Restarting) then k - 1
    else LastRestart(sub, k - 1)
  }

  /** `get_last_restart` as written. */
  method GetLastRestart(sub: seq<string>) returns (lastRestart: nat)
    ensures lastRestart == LastRestart(sub, |sub|)
  {
    lastRestart := 0;
    for i := 0 to |sub|
      invariant lastRestart == LastRestart(sub, i)
    {
      if Contains(sub[i], Restarting) {
        lastRestart := i;
      }
    }
  }

  // ---------------------------------------------------------------------
  // filter_unwanted_slim
  // ---------------------------------------------------------------------

  /** The line is one of the two markers. */
  predicate IsMarker(line: string) {
    line == SeedMarker || line == StartMarker
  }

  /** `subMS[i - 1]`: the line before, the last line for the first. */
  function Prev(n: nat, i: nat): nat
    requires i < n
  {
    if i == 0 then n - 1 else i - 1
  }

  /** The line is a marker or follows one. */
  predicate Dropped(sub: seq<string>, i: nat)
    requires i < |sub|
  {
    IsMarker(sub[i]) || IsMarker(sub[Prev(|sub|, i)])
  }

  /** A "//"-led line of more than one word. */
  predicate IsSlimComment(line: string) {
    var ws := Words(line);
    ws != [] && ws[0] == "//" && |ws| > 1
  }

  predicate NoSemicolon(line: string) {
    ';' !in line
  }

  predicate NoHash(line: string) {
    '#' !in line
  }

  /** What the loop body does with line `i`: skip it (false), append it
      (true), or fail on a line without words (a blank one, see
      `WordsEmptyIffBlank`). */
  function LineVerdict(sub: seq<string>, i: nat): Result<bool, MsError>
    requires i < |sub|
  {
    if Dropped(sub, i) then Success(false)
    else if IsBlank(sub[i]) then Failure(BlankLine)
    else Success(!IsSlimComment(sub[i]))
  }

  /** The loop body reads line `i` without failing. */
  predicate Readable(sub: seq<string>, i: nat)
    requires i < |sub|
  {
    Dropped(sub, i) || !IsBlank(sub[i])
  }

  /** `cleaned_subMS` after the loop has seen the first `k` lines. */
  function Kept(sub: seq<string>, k: nat): Result<seq<string>, MsError>
    requires k <= |sub|
  {
    if k == 0 then Success([])
    else
      match Kept(sub, k - 1)
      case Failure(e) => Failure(e)
      case Success(ls) =>
        match LineVerdict(sub, k - 1)
        case Failure(e) => Failure(e)
        case Success(keep) => Success(if keep then ls + [sub[k - 1]] else ls)
  }

  /** `filter_unwanted_slim`: the loop, then the two comprehensions. */
  function FilterSlim(sub: seq<string>): Result<seq<string>, MsError> {
    match Kept(sub, |sub|)
    case Failure(e) => Failure(e)
    case Success(ls) => Success(Filter(Filter(ls, NoSemicolon), NoHash))
  }

  /** `filter_unwanted_slim` as written. */
  method FilterUnwantedSlim(sub: seq<string>) returns (r: Result<seq<string>, MsError>)
    ensures r == FilterSlim(sub)
  {
    var cleaned: seq<string> := [];
    for i := 0 to |sub|
      invariant Kept(sub, i) == Success(cleaned)
    {
      var prev := if i == 0 then sub[|sub| - 1] else sub[i - 1];
      if IsMarker(sub[i]) || IsMarker(prev) {
        continue;
      }
      var words := Words(sub[i]);
      WordsEmptyIffBlank(sub[i]);
      if words == [] {
        KeptFailStays(sub, i + 1, |sub|);
        return Failure(BlankLine);
      }
      if words[0] == "//" && |words| > 1 {
        continue;
      }
      cleaned := cleaned + [sub[i]];
    }
    cleaned := Filter(cleaned, NoSemicolon);
    cleaned := Filter(cleaned, NoHash);
    return Success(cleaned);
  }

  lemma {:induction false} KeptFailStays(sub: seq<string>, k: nat, n: nat)
    requires k <= n <= |sub| && Kept(sub, k).Failure?
    ensures Kept(sub, n) == Kept(sub, k)
    decreases n - k
  {
    if k < n {
      KeptFailStays(sub, k + 1, n);
    }
  }

  /** A line survives the filter: it is neither a marker nor after one, has
      words, is not a "//"-led comment, and holds neither ';' nor '#'. */
  predicate Wanted(sub: seq<string>, i: nat)
    requires i < |sub|
  {
    && !Dropped(sub, i)
    && !IsBlank(sub[i])
    && !IsSlimComment(sub[i])
    && NoSemicolon(sub[i])
    && NoHash(sub[i])
  }

  /** The indices of the wanted lines among the first `k`, in increasing order. */
  function WantedIdx(sub: seq<string>, k: nat): (r: seq<nat>)
    requires k <= |sub|
    ensures forall j :: 0 <= j < |r| ==> r[j] < k && Wanted(sub, r[j])
    ensures forall i, j :: 0 <= i < j < |r| ==> r[i] < r[j]
    ensures forall i :: 0 <= i < k && Wanted(sub, i) ==> i in r
  {
    Where(WantedAt(sub), k)
  }

  /** Line `i` survives the filter. */
  function WantedAt(sub: seq<string>): nat -> bool {
    (i: nat) => i < |sub| && Wanted(sub, i)
  }

  /** The lines of `sub` at the given indices. */
  function Pick(sub: seq<string>, idx: seq<nat>): (r: seq<string>)
    requires forall j :: 0 <= j < |idx| ==> idx[j] < |sub|
    ensures |r| == |idx|
  {
    seq(|idx|, j requires 0 <= j < |idx| => sub[idx[j]])
  }

  /** The loop fails exactly when a line it does not skip has no words. */
  lemma {:induction false} KeptOk(sub: seq<string>, k: nat)
    requires k <= |sub|
    ensures Kept(sub, k).Success? <==> forall i :: 0 <= i < k ==> Readable(sub, i)
  {
    if k > 0 {
      KeptOk(sub, k - 1);
      assert LineVerdict(sub, k - 1).Success? <==> Readable(sub, k - 1);
    }
  }

  /** After the two comprehensions, the loop's output is the wanted lines. */
  lemma {:induction false} KeptPick(sub: seq<string>, k: nat)
    requires k <= |sub| && Kept(sub, k).Success?
    ensures Filter(Filter(Kept(sub, k).value, NoSemicolon), NoHash) == Pick(sub, WantedIdx(sub, k))
  {
    if k > 0 {
      var i := k - 1;
      KeptStep(sub, i);
      KeptPick(sub, i);
      var ls := Kept(sub, i).value;
      var keep := LineVerdict(sub, i).value;
      var add: seq<string> := if keep then [sub[i]] else [];
      FilterAppend(ls, add, NoSemicolon);
      FilterAppend(Filter(ls, NoSemicolon), Filter(add, NoSemicolon), NoHash);
      FilterOne(sub[i], keep);
      WantedStep(sub, i);
      var w := WantedIdx(sub, i);
      var tail: seq<string> := if Wanted(sub, i) then [sub[i]] else [];
      assert Filter(Filter(add, NoSemicolon), NoHash) == tail;
      assert Filter(Filter(Kept(sub, k).value, NoSemicolon), NoHash) == Pick(sub, w) + tail;
      if Wanted(sub, i) {
        PickSnoc(sub, w, i);
      }
    }
  }

  lemma {:induction false} KeptStep(sub: seq<string>, i: nat)
    requires i < |sub| && Kept(sub, i + 1).Success?
    ensures Kept(sub, i).Success? && LineVerdict(sub, i).Success?
    ensures Kept(sub, i + 1).value ==
      Kept(sub, i).value + (if LineVerdict(sub, i).value then [sub[i]] else [])
  {
  }

  lemma {:induction false} WantedStep(sub: seq<string>, i: nat)
    requires i < |sub| && LineVerdict(sub, i).Success?
    ensures Wanted(sub, i) <==> LineVerdict(sub, i).value && NoSemicolon(sub[i]) && NoHash(sub[i])
    ensures WantedIdx(sub, i + 1) == WantedIdx(sub, i) + (if Wanted(sub, i) then [i] else [])
  {
  }

  lemma {:induction false} PickSnoc(sub: seq<string>, w: seq<nat>, i: nat)
    requires i < |sub| && forall j :: 0 <= j < |w| ==> w[j] < |sub|
    ensures Pick(sub, w + [i]) == Pick(sub, w) + [sub[i]]
  {
  }

  lemma {:induction false} FilterOne(line: string, keep: bool)
    ensures Filter(Filter(if keep then [line] else [], NoSemicolon), NoHash) ==
      if keep && NoSemicolon(line) && NoHash(line) then [line] else []
  {
    if keep {
      assert [line][..0] == [];
      if NoSemicolon(line) {
        assert Filter([line], NoSemicolon) == [line];
      }
    }
  }

  /** `filter_unwanted_slim` fails exactly when a line it does not skip has
      no words; otherwise it returns, in their original order, exactly the
      wanted lines. */
  lemma {:induction false} FilterSlimLines(sub: seq<string>)
    ensures FilterSlim(sub).Success? <==> forall i :: 0 <= i < |sub| ==> Readable(sub, i)
    ensures FilterSlim(sub).Success? ==> FilterSlim(sub).value == Pick(sub, WantedIdx(sub, |sub|))
  {
    KeptOk(sub, |sub|);
    if FilterSlim(sub).Success? {
      KeptPick(sub, |sub|);
    }
  }

  /** No output line holds ';' or '#', is a marker, or is a "//"-led line of
      several words; every output line is an input line, and there are at
      most as many lines as went in. */
  lemma {:induction false} FilterSlimOutput(sub: seq<string>)
    requires FilterSlim(sub).Success?
    ensures var out := FilterSlim(sub).value;
      && |out| <= |sub|
      && forall l :: l in out ==>
        && l in sub
        && ';' !in l && '#' !in l && l != SeedMarker && l != StartMarker && !IsSlimComment(l)
  {
    FilterSlimLines(sub);
    var w := WantedIdx(sub, |sub|);
    IncreasingBound(w, |sub|);
    forall l | l in FilterSlim(sub).value
      ensures l in sub
      ensures ';' !in l && '#' !in l && l != SeedMarker && l != StartMarker && !IsSlimComment(l)
    {
      var j :| 0 <= j < |w| && Pick(sub, w)[j] == l;
      assert Wanted(sub, w[j]);
      assert sub[w[j]] == l;
    }
  }

  /** Strictly increasing indices below `n` number at most `n`. */
  lemma {:induction false} IncreasingBound(idx: seq<nat>, n: nat)
    requires forall j :: 0 <= j < |idx| ==> idx[j] < n
    requires forall i, j :: 0 <= i < j < |idx| ==> idx[i] < idx[j]
    ensures |idx| <= n
    decreases n
  {
    if idx != [] {
      var m := |idx| - 1;
      forall j | 0 <= j < m ensures idx[..m][j] < idx[m] {
      }
      IncreasingBound(idx[..m], idx[m]);
    }
  }

  // ---------------------------------------------------------------------
  // insert_shic_header
  // ---------------------------------------------------------------------

  /** The entry after `insert_shic_header`. */
  function WithShicHeader(lines: seq<string>, header: string): seq<string> {
    if lines != [] && !HasHeader(lines[0]) then [header] + lines else lines
  }

  /** One ms entry, the list `insert_shic_header` changes in place. */
  class MsEntry {
    var lines: seq<string>

    constructor (lines: seq<string>)
      ensures this.lines == lines
    {
      this.lines := lines;
    }

    /** `insert_shic_header`: prepends the header line unless the entry is
        empty or already starts with a header line. */
    method InsertShicHeader(header: string)
      modifies this
      ensures lines == WithShicHeader(old(lines), header)
    {
      if lines != [] && !HasHeader(lines[0]) {
        lines := [header] + lines;
      }
    }
  }

  /** With a genuine header line, a non-empty entry ends up starting with a
      header line, keeps all its lines after it, and a second insertion
      changes nothing. */
  lemma {:induction false} ShicHeaderEnsured(lines: seq<string>, header: string)
    requires HasHeader(header)
    ensures lines == [] ==> WithShicHeader(lines, header) == []
    ensures lines != [] ==>
      var r := WithShicHeader(lines, header);
      && HasHeader(r[0])
      && (r == lines || r == [header] + lines)
    ensures WithShicHeader(WithShicHeader(lines, header), header) == WithShicHeader(lines, header)
  {
  }

  // ---------------------------------------------------------------------
  // clean_msOut, lines 81-96
  // ---------------------------------------------------------------------

  predicate NonEmpty(line: string) {
    line != []
  }

  /** One entry of the loop: the lines after the last restart (after line 0
      when there is none), without empty lines, filtered, with the header
      ensured. The slice clips as Python's does. */
  function CleanEntry(sub: seq<string>, header: string): Result<seq<string>, MsError> {
    match FilterSlim(Filter(AfterRestart(sub), NonEmpty))
    case Failure(e) => Failure(e)
    case Success(cleaned) => Success(WithShicHeader(cleaned, header))
  }

  /** `subMS[get_last_restart(subMS) + 1 : len(subMS)]`, clipped as Python
      clips slices. */
  function AfterRestart(sub: seq<string>): (r: seq<string>)
    ensures forall l :: l in r ==> l in sub
  {
    var from := LastRestart(sub, |sub|) + 1;
    if from <= |sub| then sub[from..] else []
  }

  /** The cleaning of one entry with a given header line. */
  function EntryCleaner(header: string): seq<string> -> Result<seq<string>, MsError> {
    sub => CleanEntry(sub, header)
  }

  /** The entries the loop writes after seeing the first `k` segments, each
      non-empty one cleaned by `clean`; an empty segment is skipped and
      writes nothing. */
  function CleanAll(msList: seq<seq<string>>, clean: seq<string> -> Result<seq<string>, MsError>, k: nat)
    : Result<seq<seq<string>>, MsError>
    requires k <= |msList|
  {
    if k == 0 then Success([])
    else
      match CleanAll(msList, clean, k - 1)
      case Failure(e) => Failure(e)
      case Success(outs) =>
        if msList[k - 1] == [] then Success(outs)
        else
          match clean(msList[k - 1])
          case Failure(e) => Failure(e)
          case Success(entry) => Success(outs + [entry])
  }

  /** The body of the loop of `clean_msOut` for one non-empty segment. */
  method CleanSegment(sub: seq<string>, header: string) returns (r: Result<seq<string>, MsError>)
    requires sub != []
    ensures r == CleanEntry(sub, header)
  {
    var subMS := sub;
    var lastRestart := GetLastRestart(subMS);
    subMS := subMS[lastRestart + 1..];
    assert subMS == AfterRestart(sub);
    subMS := Filter(subMS, NonEmpty);
    var cleaned := FilterUnwantedSlim(subMS);
    if cleaned.Failure? {
      return Failure(cleaned.error);
    }
    var entry := new MsEntry(cleaned.value);
    entry.InsertShicHeader(header);
    assert CleanEntry(sub, header) == Success(WithShicHeader(cleaned.value, header));
    return Success(entry.lines);
  }

  /** The loop of `clean_msOut`, collecting the entries it would write to
      the files `point_0`, `point_1`, ... in that order. */
  method CleanEntries(msList: seq<seq<string>>, header: string) returns (r: Result<seq<seq<string>>, MsError>)
    ensures r == CleanAll(msList, EntryCleaner(header), |msList|)
  {
    var written: seq<seq<string>> := [];
    for k := 0 to |msList|
      invariant CleanAll(msList, EntryCleaner(header), k) == Success(written)
    {
      var step := CleanTurn(msList, header, k, written);
      if step.Failure? {
        return step;
      }
      written := step.value;
    }
    return Success(written);
  }

  /** One turn of the loop: skip an empty segment, otherwise clean it and
      append it to what is written. */
  method CleanTurn(msList: seq<seq<string>>, header: string, k: nat, written: seq<seq<string>>)
    returns (r: Result<seq<seq<string>>, MsError>)
    requires k < |msList| && CleanAll(msList, EntryCleaner(header), k) == Success(written)
    ensures r == CleanAll(msList, EntryCleaner(header), k + 1)
    ensures r.Failure? ==> r == CleanAll(msList, EntryCleaner(header), |msList|)
  {
    if msList[k] == [] {
      CleanAllSkip(msList, EntryCleaner(header), k);
      return Success(written);
    }
    var entry := CleanSegment(msList[k], header);
    assert EntryCleaner(header)(msList[k]) == entry;
    CleanAllStep(msList, EntryCleaner(header), k, written, entry);
    if entry.Failure? {
      CleanAllFailStays(msList, EntryCleaner(header), k + 1, |msList|);
      return Failure(entry.error);
    }
    return Success(written + [entry.value]);
  }

  /** One turn of the loop over a non-empty segment. */
  lemma {:induction false} CleanAllStep(msList: seq<seq<string>>, clean: seq<string> -> Result<seq<string>, MsError>, k: nat,
                     written: seq<seq<string>>, entry: Result<seq<string>, MsError>)
    requires k < |msList| && msList[k] != []
    requires CleanAll(msList, clean, k) == Success(written)
    requires entry == clean(msList[k])
    ensures entry.Failure? ==> CleanAll(msList, clean, k + 1) == Failure(entry.error)
    ensures entry.Success? ==> CleanAll(msList, clean, k + 1) == Success(written + [entry.value])
  {
  }

  /** An empty segment writes nothing. */
  lemma {:induction false} CleanAllSkip(msList: seq<seq<string>>, clean: seq<string> -> Result<seq<string>, MsError>, k: nat)
    requires k < |msList| && msList[k] == []
    ensures CleanAll(msList, clean, k + 1) == CleanAll(msList, clean, k)
  {
  }

  lemma {:induction false} CleanAllFailStays(msList: seq<seq<string>>, clean: seq<string> -> Result<seq<string>, MsError>,
                                             k: nat, n: nat)
    requires k <= n <= |msList| && CleanAll(msList, clean, k).Failure?
    ensures CleanAll(msList, clean, n) == CleanAll(msList, clean, k)
    decreases n - k
  {
    if k < n {
      CleanAllFailStays(msList, clean, k + 1, n);
    }
  }

  /** A line as `strip` leaves it: empty, or not starting with whitespace. */
  predicate Stripped(line: string) {
    line == [] || !IsSpace(line[0])
  }

  /** On stripped lines the entry pipeline never fails: the empty lines are
      gone before the filter, so every line it reads has a first word. */
  lemma {:induction false} CleanEntryOk(sub: seq<string>, header: string)
    requires forall l :: l in sub ==> Stripped(l)
    ensures CleanEntry(sub, header).Success?
  {
    var ne := Filter(AfterRestart(sub), NonEmpty);
    forall i | 0 <= i < |ne| ensures !IsBlank(ne[i]) {
      FilterMember(AfterRestart(sub), NonEmpty, ne[i]);
      StrippedNotBlank(ne[i]);
    }
    FilterSlimOk(ne);
  }

  lemma {:induction false} StrippedNotBlank(line: string)
    requires Stripped(line) && line != []
    ensures !IsBlank(line)
  {
    assert !IsSpace(line[0]);
  }

  /** Without blank lines the filter never fails. */
  lemma {:induction false} FilterSlimOk(sub: seq<string>)
    requires forall i :: 0 <= i < |sub| ==> !IsBlank(sub[i])
    ensures FilterSlim(sub).Success?
  {
    KeptOk(sub, |sub|);
  }

  /** When `clean` succeeds on every non-empty segment, the loop never
      fails and writes one entry per non-empty segment. */
  lemma {:induction false} CleanAllCount(msList: seq<seq<string>>, clean: seq<string> -> Result<seq<string>, MsError>,
                                         k: nat)
    requires k <= |msList|
    requires forall i :: 0 <= i < k && msList[i] != [] ==> clean(msList[i]).Success?
    ensures CleanAll(msList, clean, k).Success?
    ensures |CleanAll(msList, clean, k).value| == |Filter(msList[..k], NonEmptySeg)|
  {
    if k > 0 {
      CleanAllCount(msList, clean, k - 1);
      assert msList[..k] == msList[..k - 1] + [msList[k - 1]];
      FilterAppend(msList[..k - 1], [msList[k - 1]], NonEmptySeg);
    }
  }

  /** What the loop writes: the non-empty segments, in order, each cleaned
      by `clean`, up to the first segment whose cleaning fails. */
  lemma {:induction false} CleanAllEntries(msList: seq<seq<string>>, clean: seq<string> -> Result<seq<string>, MsError>,
                                           k: nat)
    requires k <= |msList|
    ensures CleanAll(msList, clean, k) == Traverse(Filter(msList[..k], NonEmptySeg), clean)
  {
    if k == 0 {
      assert msList[..0] == [];
    } else {
      var s := msList[k - 1];
      var before := Filter(msList[..k - 1], NonEmptySeg);
      CleanAllEntries(msList, clean, k - 1);
      CleanAllSnoc(msList, clean, k);
      assert msList[..k][..k - 1] == msList[..k - 1];
      if s == [] {
        assert Filter(msList[..k], NonEmptySeg) == before + [];
        assert before + [] == before;
      } else {
        assert Filter(msList[..k], NonEmptySeg) == before + [s];
        TraverseSnoc(before, s, clean);
      }
    }
  }

  /** One more segment: skipped when empty, otherwise its cleaning extends
      what was written. */
  lemma {:induction false} CleanAllSnoc(msList: seq<seq<string>>, clean: seq<string> -> Result<seq<string>, MsError>,
                                        k: nat)
    requires 0 < k <= |msList|
    ensures CleanAll(msList, clean, k) ==
      if msList[k - 1] == [] then CleanAll(msList, clean, k - 1)
      else Snoc(CleanAll(msList, clean, k - 1), clean(msList[k - 1]))
  {
  }

  /** A successful loop writes, for each non-empty segment in order, that
      segment cleaned with the header line. */
  lemma {:induction false} CleanAllContents(msList: seq<seq<string>>, header: string)
    requires CleanAll(msList, EntryCleaner(header), |msList|).Success?
    ensures var segs := Filter(msList, NonEmptySeg);
      var out := CleanAll(msList, EntryCleaner(header), |msList|).value;
      && |out| == |segs|
      && forall j :: 0 <= j < |segs| ==> CleanEntry(segs[j], header) == Success(out[j])
  {
    CleanAllEntries(msList, EntryCleaner(header), |msList|);
    assert msList[..|msList|] == msList;
    var segs := Filter(msList, NonEmptySeg);
    forall j | 0 <= j < |segs| ensures EntryCleaner(header)(segs[j]) == CleanEntry(segs[j], header) {
    }
  }

  /** On stripped lines the whole loop never fails, and writes one entry
      per non-empty segment. */
  lemma {:induction false} CleanAllOk(msList: seq<seq<string>>, header: string)
    requires forall s, l :: s in msList && l in s ==> Stripped(l)
    ensures CleanAll(msList, EntryCleaner(header), |msList|).Success?
    ensures |CleanAll(msList, EntryCleaner(header), |msList|).value| == |Filter(msList, NonEmptySeg)|
  {
    forall i | 0 <= i < |msList| && msList[i] != []
      ensures EntryCleaner(header)(msList[i]).Success?
    {
      CleanEntryOk(msList[i], header);
    }
    CleanAllCount(msList, EntryCleaner(header), |msList|);
    assert msList[..|msList|] == msList;
  }

  predicate NonEmptySeg(s: seq<string>) {
    s != []
  }

  /** `rawMS`: every line of the file stripped of surrounding whitespace. */
  function StripAll(raw: seq<string>): (r: seq<string>)
    ensures |r| == |raw|
    ensures forall i :: 0 <= i < |r| ==> r[i] == Strip(raw[i]) && Stripped(r[i])
  {
    seq(|raw|, i requires 0 <= i < |raw| => Strip(raw[i]))
  }

  /** `clean_msOut` from the raw lines of the file to the entries it writes:
      strip every line, split at the header lines, take the first header
      line as the header, clean every non-empty segment. */
  function CleanMsOut(raw: seq<string>): Result<seq<seq<string>>, MsError> {
    var rawMS := StripAll(raw);
    match SplitMsToList(rawMS)
    case Failure(e) => Failure(e)
    case Success(msList) =>
      var headers := Filter(rawMS, HasHeader);
      if headers == [] then Failure(NoHeaderLine)
      else CleanAll(msList, EntryCleaner(headers[0]), |msList|)
  }

  /** Every line of every segment is a line of the input. */
  lemma {:induction false} SegmentsStripped(rawMS: seq<string>)
    requires forall i :: 0 <= i < |rawMS| ==> Stripped(rawMS[i])
    requires SplitMsToList(rawMS).Success?
    ensures forall s, l :: s in SplitMsToList(rawMS).value && l in s ==> Stripped(l)
  {
    var msList := SplitMsToList(rawMS).value;
    SplitMsRoundTrip(rawMS);
    forall s, l | s in msList && l in s ensures Stripped(l) {
      FlattenMember(msList, s, l);
      var p :| 0 <= p < |rawMS| && rawMS[p] == l;
    }
  }

  /** `clean_msOut` fails exactly when no stripped line holds the header
      text, and otherwise writes one entry per non-empty segment, in order:
      entry j is segment j cleaned with the first header line. */
  lemma {:induction false} CleanMsOutOk(raw: seq<string>)
    ensures CleanMsOut(raw).Success? <==> exists i :: 0 <= i < |raw| && HasHeader(Strip(raw[i]))
    ensures CleanMsOut(raw).Success? ==>
      var segs := Filter(SplitMsToList(StripAll(raw)).value, NonEmptySeg);
      var headers := Filter(StripAll(raw), HasHeader);
      && |CleanMsOut(raw).value| == |segs|
      && headers != []
      && forall j :: 0 <= j < |segs| ==> CleanEntry(segs[j], headers[0]) == Success(CleanMsOut(raw).value[j])
  {
    var rawMS := StripAll(raw);
    HeaderAfterStrip(raw);
    if SplitMsToList(rawMS).Success? {
      var msList := SplitMsToList(rawMS).value;
      CleanSplitOk(rawMS);
      CleanAllContents(msList, Filter(rawMS, HasHeader)[0]);
    }
  }

  /** The split fails exactly when no stripped line holds the header text. */
  lemma {:induction false} HeaderAfterStrip(raw: seq<string>)
    ensures SplitMsToList(StripAll(raw)).Success? <==> exists i :: 0 <= i < |raw| && HasHeader(Strip(raw[i]))
  {
    var rawMS := StripAll(raw);
    if exists i :: 0 <= i < |raw| && HasHeader(Strip(raw[i])) {
      var i :| 0 <= i < |raw| && HasHeader(Strip(raw[i]));
      assert HasHeader(rawMS[i]);
    }
  }

  /** After a successful split of stripped lines there is a header line, and
      cleaning every segment with it succeeds with one entry per non-empty
      segment. */
  lemma {:induction false} CleanSplitOk(rawMS: seq<string>)
    requires forall i :: 0 <= i < |rawMS| ==> Stripped(rawMS[i])
    requires SplitMsToList(rawMS).Success?
    ensures Filter(rawMS, HasHeader) != []
    ensures var msList := SplitMsToList(rawMS).value;
      var clean := CleanAll(msList, EntryCleaner(Filter(rawMS, HasHeader)[0]), |msList|);
      clean.Success? && |clean.value| == |Filter(msList, NonEmptySeg)|
  {
    var msList := SplitMsToList(rawMS).value;
    var i :| 0 <= i < |rawMS| && HasHeader(rawMS[i]);
    assert rawMS[i] in Filter(rawMS, HasHeader);
    SegmentsStripped(rawMS);
    CleanAllOk(msList, Filter(rawMS, HasHeader)[0]);
  }

  /** A line of a piece is a line of the pieces glued together. */
  lemma {:induction false} FlattenMember(xss: seq<seq<string>>, s: seq<string>, l: string)
    requires s in xss && l in s
    ensures l in Flatten(xss)
    decreases |xss|
  {
    var n := |xss| - 1;
    if xss[n] != s {
      assert s in xss[..n];
      FlattenMember(xss[..n], s, l);
    }
  }
}
