# Timesweeper core, modelled in Dafny

Timesweeper detects selective sweeps from time-series population samples.
This project models the data-handling core of its Python code:

- **SNP utilities** (`src/utils/snp_utils.py`): splitting a genotype array
  into timepoint blocks (`split_arr`), picking one minor allele per site from
  the last timepoint (`get_minor_alleles`), the minor-allele frequency of one
  site at one timepoint (`calc_mafs`), the locus tuples (`make_loc_tups`) and
  the contig ids of a VCF header (`get_vcf_contigs`).
- **Window classification** (`src/classify_windows.py`): the time-series
  allele-frequency matrix (`prep_ts_afs`), the window indices around a
  center, the three window scans (`run_afs_windows`, `run_fit_windows`,
  `run_hfs_windows`) with their result maps and their captured "center"
  window, the two report writers (`write_preds`, `write_fit`) and
  `add_file_label`.
- **ms cleaning** (`timesweeper/utils.py`): splitting a SLiM log into one
  entry per ms header line (`split_ms_to_list`), dropping everything before
  the last restart (`get_last_restart`), removing SLiM's own lines
  (`filter_unwanted_slim`), making sure every entry starts with the ms
  header (`insert_shic_header`), and the loop of `clean_msOut` that chains
  them.
- **Feature reshaping** (`src/networks.py`): `format_arr` (split into 15
  pieces, stack, transpose) and `get_ts_from_dir` (timepoints from a
  directory name).

Python's own semantics that the code relies on are modelled explicitly in
small modules: `Wrappers` (Option/Result, a list comprehension that raises
as a map whose first failure wins, `Flatten`, `Filter`), `PyStrings`
(substring `in`, `split` on a character and on whitespace, `strip`, the
first `\d+` match, `int()`, string ordering) and `PyDict` (an
insertion-ordered `dict`: assigning an existing key keeps its position,
a new key goes last).

Every place where the Python code raises is an error value of a `Result`:
`ts_genos[-1]` without timepoints, `max` over an empty genotype array,
`np.argmax` over an empty allele axis (no call above 0 at the last
timepoint), an allele index past the counts, a window index outside the matrix,
`snps[center][2]` on a locus without a mutation type, a capture variable that
was never assigned, `idx_list[-1]` without a header line,
`subMS[i].split()[0]` on a line without words, unpacking keys into three
names, `np.vstack` of unequal pieces, a missing third name field and
`int()` of text that is not a number.

The trained network, the FIT test and the haplotype-frequency helpers of
`hap_utils` are calls into code that is not part of this model; they are
parameters (`predict`, `fit`, `hapStrings`, `hapFreqs`) of the scans.

Where the loop of the source is the point (`split_arr`, `prep_ts_afs`, the
three window scans, `get_last_restart`, `filter_unwanted_slim`, the loop of
`clean_msOut`) the model is a `method` with that loop, proved equal to a
recursive specification function; the properties are lemmas about the
specification function. `insert_shic_header` changes its list in place and
is a method of the class `MsEntry`.

`calc_mafs` on a site without any counted allele divides 0 by 0, which
NumPy answers with NaN and a warning rather than an error, so the model
returns `NaN` there instead of failing.

## Model

| member | source | states |
|---|---|---|
| SnpUtils.SplitArr | src/utils/snp_utils.py:143-150 | the loop returns one block per sample size; block k holds, at every site, the sizes[k] sample columns that follow those of the earlier blocks (Python slice clipping included) |
| SnpUtils.BlocksShape | src/utils/snp_utils.py:131-150 | there is one block per size, every block keeps every site, and at site s block k is piece k of that site's samples |
| SnpUtils.PiecesReassemble | src/utils/snp_utils.py:143-147 | gluing a site's pieces in order gives that site's samples up to the sum of the sizes, clipped at the end |
| SnpUtils.SplitArrRoundTrip | src/utils/snp_utils.py:131-150 | when the sizes add up to the number of samples, the blocks together hold every sample exactly once, in order |
| SnpUtils.CountAllelesCounts | src/utils/snp_utils.py:166 | `count_alleles` fails exactly on an array without calls; otherwise entry a of a site's row counts the calls equal to a at that site |
| SnpUtils.MinorAlleles | src/utils/snp_utils.py:153-168 | fails without timepoints or on an empty last array; fails exactly when the last array's count rows have no allele past 0 (no call above 0, so `argmax` sees an empty axis); succeeds exactly otherwise, with one allele per site of the last timepoint |
| SnpUtils.MinorAllelesChoice | src/utils/snp_utils.py:153-168 | each site's allele is not 0, has the highest count at the last timepoint among the alleles other than 0, and is the lowest such index on a tie |
| SnpUtils.ArgMax | src/utils/snp_utils.py:168 | the index of a largest entry, the first one on a tie (NumPy's `argmax`) |
| SnpUtils.CalcMaf | src/utils/snp_utils.py:171-182 | fails exactly when the allele index is past the counts; NaN exactly when no allele was counted; otherwise a frequency in [0, 1] that times the total gives the allele's count |
| SnpUtils.MakeLocTups | src/utils/snp_utils.py:76-90 | as many tuples as the shortest zipped column; tuple i is (chrom i, pos i) and carries mutation type i exactly in benchmark mode |
| SnpUtils.MakeLocTupsUnzip | src/utils/snp_utils.py:76-90 | on columns of equal length, unzipping the tuples gives the columns back |
| SnpUtils.GetVcfContigs | src/utils/snp_utils.py:54-60 | fails exactly when a header line mentioning "contig" has no digit; otherwise one id per such line, in order, each the first run of digits of its line |
| PyStrings.FirstDigitRun | src/utils/snp_utils.py:58 | no match exactly when the text has no digit; otherwise the maximal run of digits starting at the first digit |
| ClassifyWindows.WindowIdxs | src/classify_windows.py:93-95 | 2*(w/2)+1 consecutive indices centred on the center, which sits in the middle; the length equals the window size exactly when the size is odd |
| ClassifyWindows.Centers | src/classify_windows.py:39-40 | the centers run from w/2 to n-1-w/2, none when n is at most two half-widths |
| ClassifyWindows.CenterWindowsIn | src/classify_windows.py:39-43 | every index of every center's window lies inside the n sites |
| ClassifyWindows.ProbeSiteVisited | src/classify_windows.py:46 | the site `int(len(centers) / 2)` is itself a center exactly when the sites exceed two half-widths and reach four |
| ClassifyWindows.ProbeSiteNotMiddle | src/classify_windows.py:46 | the middle center lies w/2 sites past that probe site, so the two coincide only for windows narrower than 2 |
| ClassifyWindows.ProbeSiteExample | src/classify_windows.py:46 | with 100 sites and windows of 51, the probe site is 25, the first center, while the middle center is 50 |
| ClassifyWindows.LastFlagged | src/classify_windows.py:46-47 | the last center among the first k whose locus has mutation type 2 or that equals the probe site, or none when there is no such center |
| ClassifyWindows.TsAfsCells | src/classify_windows.py:15-31 | the matrix has one row per timepoint and one column per site; cell (t, s) is the frequency at timepoint t of the allele chosen for site s at the last timepoint |
| ClassifyWindows.TsAfsShape | src/classify_windows.py:15-31 | a successful matrix has at least one row, and every row has one entry per site |
| ClassifyWindows.PrepTsAfs | src/classify_windows.py:15-31 | the nested loops compute exactly the matrix above, or its first error |
| ClassifyWindows.MafRowLoop | src/classify_windows.py:24-26 | the inner loop computes the frequencies of the zipped (counts, minor allele) pairs in order, stopping at the first error |
| ClassifyWindows.ScanOk | src/classify_windows.py:41-50 | a scan succeeds exactly when every center's window can be built and, when capturing, every locus has a mutation type |
| ClassifyWindows.ScanResults | src/classify_windows.py:38-50 | the result map is the loci of the centers, in order, assigned their outputs one after another, a repeated locus keeping its place and taking the later value |
| ClassifyWindows.ScanCapture | src/classify_windows.py:46-47 | the captured window is the window of the last flagged center, and is absent exactly when no center is flagged |
| ClassifyWindows.ScanDistinct | src/classify_windows.py:50 | with distinct loci the map has one entry per center, in center order, each the locus with its window's output |
| ClassifyWindows.ScanLastWins | src/classify_windows.py:50 | the map's keys are distinct and are exactly the scanned loci; a locus maps to the output of its last center |
| ClassifyWindows.AfsWindow | src/classify_windows.py:42-43 | fails exactly when a window index is outside a row; otherwise every timepoint row restricted to the window's columns, in order |
| ClassifyWindows.AfsWindowsLoop | src/classify_windows.py:38-50 | the loop over the centers computes exactly the scan that captures, on the AFS windows, with the prediction as output |
| ClassifyWindows.RunAfsWindows | src/classify_windows.py:34-52 | the function computes exactly the AFS scan: the map and the captured window, or the first error (also a capture that was never assigned) |
| ClassifyWindows.AfsScanResult | src/classify_windows.py:34-52 | on success a flagged center exists, the capture is its window, and with distinct loci each entry is the locus with the prediction on its window |
| ClassifyWindows.AfsColumn | src/classify_windows.py:60 | fails exactly when the column is outside a row; otherwise the column's value at every timepoint |
| ClassifyWindows.FitWindowsLoop | src/classify_windows.py:57-60 | the loop over the centers computes exactly the scan on the matrix columns, with the FIT test as output and no mutation-type test |
| ClassifyWindows.RunFitWindows | src/classify_windows.py:55-62 | the function computes exactly the FIT scan, with no capture |
| ClassifyWindows.FitScanResult | src/classify_windows.py:55-62 | the FIT scan succeeds exactly when every center is a site of the matrix; with distinct loci each entry is the locus with the test on its column |
| ClassifyWindows.HapWindow | src/classify_windows.py:71 | fails exactly when a window index is not a site; otherwise one row per haplotype holding its alleles at the window's sites |
| ClassifyWindows.RunHfsWindows | src/classify_windows.py:65-86 | the loop computes exactly the HFS scan: the map and the captured frequency spectrum, or the first error |
| ClassifyWindows.HfsScanResult | src/classify_windows.py:65-86 | on success the capture is the spectrum of the last flagged window, and with distinct loci each entry is the locus with the prediction on its spectrum |
| PyDict.FillDistinct | src/classify_windows.py:50 | assigning distinct keys in order gives one entry per key, in that order |
| PyDict.PutGet | src/classify_windows.py:50 | after `d[k] = v`, k maps to v and every other key keeps its value |
| PyDict.PutKeys | src/classify_windows.py:50 | a new key goes last; an existing key keeps the keys and their order; the keys are the old ones and k; distinct keys stay distinct |
| PyDict.FillKeys | src/classify_windows.py:50 | after assigning any keys in order, the map's keys are distinct and are exactly the assigned keys |
| PyDict.FillLastWins | src/classify_windows.py:50 | after assigning any keys in order, each key maps to the value of its last assignment |
| Reports.ArgMax3 | src/classify_windows.py:120-127 | the class with the highest score, the first of Neut, Hard, Soft on a tie |
| Reports.KeyLeTotal | src/classify_windows.py:139 | any two rows are ordered one way or the other by (Chrom, BP) |
| Reports.KeyLeTransitive | src/classify_windows.py:139 | the (Chrom, BP) order is transitive |
| PyStrings.LexLeAntisymmetric | src/classify_windows.py:139 | two chromosome names ordered both ways are equal |
| Reports.InsertSorted | src/classify_windows.py:139 | inserting a row into rows ordered by (Chrom, BP) keeps them ordered |
| Reports.SortRows | src/classify_windows.py:139 | the rows come out ordered by (Chrom, BP) and are a permutation of the rows that went in |
| Reports.WritePredsTable | src/classify_windows.py:119-141 | fails exactly on an empty map or a locus without a mutation type; otherwise one row per entry, ordered by (Chrom, BP), each an entry's locus and three scores labelled with the class of its highest score |
| Reports.WriteFitTable | src/classify_windows.py:106-116 | fails exactly on an empty map or a locus without a mutation type; otherwise one row per entry, ordered by (Chrom, BP), each an entry's locus with one minus its p-value |
| Reports.AddFileLabelStem | src/classify_windows.py:144-147 | the label goes before the last extension, and the dots of the stem are dropped |
| Reports.AddFileLabelNoDot | src/classify_windows.py:144-147 | a name without a dot becomes `_label.name` |
| PyStrings.ConcatSplit | src/classify_windows.py:146 | joining the dot-separated pieces with no separator drops exactly the dots |
| MsClean.HeaderIdxs | timesweeper/utils.py:117 | the indices of exactly the lines holding the SLiM header text, increasing |
| MsClean.SplitMsToList | timesweeper/utils.py:112-126 | fails exactly when no line holds the header text |
| MsClean.SplitMsRoundTrip | timesweeper/utils.py:112-126 | the segments glued together are the input, and there is one segment more than there are header lines |
| MsClean.SplitMsSegments | timesweeper/utils.py:119-124 | the first segment holds no header line; every later one starts with a header line and holds no other |
| MsClean.LastRestart | timesweeper/utils.py:129-147 | the index of the last line containing "RESTARTING", or 0 when there is none |
| MsClean.GetLastRestart | timesweeper/utils.py:139-147 | the loop returns exactly that index |
| MsClean.FilterUnwantedSlim | timesweeper/utils.py:161-184 | the loop and the two comprehensions compute exactly the filtered entry, or fail on the first line without words |
| MsClean.KeptOk | timesweeper/utils.py:164-178 | the loop fails exactly when some line it reads past the marker test has no words |
| MsClean.FilterSlimLines | timesweeper/utils.py:150-184 | the filter succeeds exactly when every such line has a word, and then keeps exactly the wanted lines, in their order |
| PyStrings.ContainsChar | timesweeper/utils.py:181-182 | a one-character substring test is the same as the character occurring |
| MsClean.FilterSlimOutput | timesweeper/utils.py:164-182 | no kept line holds ';' or '#', is a seed or start marker, or is a `//` comment of several words; every kept line is an input line, and there are no more lines than went in |
| MsClean.ShicHeaderEnsured | timesweeper/utils.py:187-203 | a non-empty entry ends up starting with a header line, either unchanged or with the header put in front; an empty one stays empty; applying it twice changes nothing more |
| MsClean.MsEntry.InsertShicHeader | timesweeper/utils.py:197-203 | the entry's lines become the lines with the header ensured |
| MsClean.StripAll | timesweeper/utils.py:73 | one line per input line, none starting with whitespace |
| MsClean.CleanSegment | timesweeper/utils.py:86-96 | one turn of the loop computes exactly the cleaned entry of a non-empty segment |
| MsClean.CleanTurn | timesweeper/utils.py:81-109 | one turn of the loop over the segments takes the written entries one segment further, and a failure is final |
| MsClean.CleanEntries | timesweeper/utils.py:80-109 | the loop computes exactly the entries written, skipping empty segments, or the first error |
| MsClean.CleanEntryOk | timesweeper/utils.py:86-96 | on stripped lines cleaning a segment never fails |
| MsClean.CleanAllEntries | timesweeper/utils.py:81-109 | the loop's result is the traversal of the non-empty segments in order: each cleaned, the first failure ending it |
| MsClean.CleanAllContents | timesweeper/utils.py:81-109 | a successful loop writes one entry per non-empty segment, entry j being segment j cleaned with the header line |
| MsClean.CleanAllOk | timesweeper/utils.py:80-109 | on stripped lines the loop never fails and writes one entry per non-empty segment |
| MsClean.CleanMsOutOk | timesweeper/utils.py:72-109 | `clean_msOut` fails exactly when no stripped line holds the header text, and otherwise writes one entry per non-empty segment of the stripped lines, entry j being segment j cleaned with the first stripped header line |
| PyStrings.WordsEmptyIffBlank | timesweeper/utils.py:174 | `split()` gives no words exactly for a blank line |
| Networks.ArraySplit | src/networks.py:179 | 15 pieces whose lengths differ by at most one, the longer ones first |
| Networks.ArraySplitFlatten | src/networks.py:179 | the pieces glued together give the input back |
| Networks.FormatArrFails | src/networks.py:179-181 | `format_arr` fails exactly when the length is not a multiple of 15 |
| Networks.FormatArrShape | src/networks.py:179-183 | for length 15m: m rows of 15 entries, entry j of row i being item j*m+i of the input |
| Networks.FormatArrKeepsAll | src/networks.py:179-183 | item p of the input is entry p/m of row p%m, so nothing is lost |
| Networks.GetTsFromDirFewFields | src/networks.py:689 | the name is refused for a missing third field exactly when it holds fewer than two dashes |
| PyStrings.SplitCount | src/networks.py:689 | splitting on a character gives one more piece than the character occurs |
| Networks.GetTsFromDirName | src/networks.py:689-691 | for a name `a-b-<n>Samp...` with no dash in a and b, the result is n |
| Networks.GetTsFromDirExample | src/networks.py:712 | the name onePop-selectiveSweep-10Samp-20Int gives 10 |
| Networks.GetTsFromDirNoNumber | src/networks.py:689-691 | a third field starting with "Samp" is refused as not a number |
| PyStrings.ParseShow | src/networks.py:691 | `int` of the decimal spelling of a number is the number |

## Left out

- Reading and writing files (the VCF, the SLiM log, the `point_k` files, the CSV tables), creating directories and building file paths are not modelled; the model starts from the lines and arrays that were read and ends with the values that would be written.
- The trained network (`model.predict`), the FIT test (`fit`) and `hap_utils.haps_to_strlist` / `getTSHapFreqs` are calls into code that is not part of this model; they are parameters of the scans, and nothing is claimed about what they compute.
- ClassifyWindows.HfsView: the repeated window computation at src/classify_windows.py:79-81 has no effect on the results and is not modelled separately.
- ClassifyWindows.HapWindow: requires the haplotype rows to have one length, as a NumPy array does.
- SnpUtils.CountAlleles: the width of the count rows follows scikit-allel's rule (largest call in the array plus one), taken from its documentation; scikit-allel itself is not part of this model, and negative (missing) calls are not counted.
- SnpUtils.CalcMaf: frequencies are exact rationals; NumPy's float64 rounding is not modelled.
- Reports.SortRows: `sort_values` is modelled as a stable insertion sort; the order pandas gives to rows with equal (Chrom, BP) is not claimed.
- Reports.WritePredsTable: the DataFrame column names and the tab-separated text are not modelled, only the rows and their order.
- PyStrings.ParseInt: Python's `int()` also accepts underscores between digits and non-ASCII digits; only surrounding whitespace, an optional sign and ASCII digits are modelled.
- PyStrings.FirstDigitRun: `\d` is taken as the ASCII digits only.
- The progress bars (`tqdm`), printing and the command-line parsing are not modelled.
- `write_predictions` in src/networks.py is not modelled: it is I/O only.
- Integer widths: positions, counts and indices are unbounded integers; NumPy's fixed-width integers do not overflow at the sizes this code handles.
