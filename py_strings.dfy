/** The handful of Python `str` operations the pipeline relies on, over
    `string` = `seq<char>`: substring tests, `split` on one character and on
    whitespace, `strip`, the first `\d+` match, `int()` and ordering. */
module PyStrings {
  import opened Wrappers

  // ---------------------------------------------------------------------
  // Substring test (`sub in s`)
  // ---------------------------------------------------------------------

  /** `sub` occurs in `s` at offset `i`. */
  predicate OccursAt(s: string, sub: string, i: int) {
    0 <= i && i + |sub| <= |s| && s[i..i + |sub|] == sub
  }

  /** Python's `sub in s`: `sub` occurs at some offset of `s`. */
  predicate Contains(s: string, sub: string) {
    exists i :: 0 <= i <= |s| - |sub| && OccursAt(s, sub, i)
  }

  /** A one-character needle is found exactly when the character occurs. */
  lemma {:induction false} ContainsChar(s: string, c: char)
    ensures Contains(s, [c]) <==> c in s
  {
    if c in s {
      var i :| 0 <= i < |s| && s[i] == c;
      assert s[i..i + 1] == [c];
      assert OccursAt(s, [c], i);
    }
    if Contains(s, [c]) {
      var i :| 0 <= i <= |s| - 1 && OccursAt(s, [c], i);
      assert s[i] == s[i..i + 1][0];
    }
  }

  // ---------------------------------------------------------------------
  // Python whitespace (the set `str.isspace`, `str.split()` and `str.strip()` use)
  // ---------------------------------------------------------------------

  predicate IsSpace(c: char) {
    c == ' ' || ('\t' <= c <= '\r') || ('\U{1c}' <= c <= '\U{1f}')
    || c == '\U{85}' || c == '\U{a0}' || c == '\U{1680}'
    || ('\U{2000}' <= c <= '\U{200a}') || c == '\U{2028}' || c == '\U{2029}'
    || c == '\U{202f}' || c == '\U{205f}' || c == '\U{3000}'
  }

  predicate IsBlank(s: string) {
    forall i :: 0 <= i < |s| ==> IsSpace(s[i])
  }

  // ---------------------------------------------------------------------
  // `s.split(c)` and `c.join(parts)` for a one-character separator
  // ---------------------------------------------------------------------

  /** `s.split(c)`: the maximal separator-free pieces, empty pieces included. */
  function Split(s: string, c: char): (r: seq<string>)
    ensures |r| >= 1
    ensures forall k :: 0 <= k < |r| ==> c !in r[k]
    decreases |s|
  {
    if s == [] then [""]
    else
      var rest := Split(s[1..], c);
      if s[0] == c then [""] + rest
      else [[s[0]] + rest[0]] + rest[1..]
  }

  /** How many times `c` occurs in `s`: `s.count(c)`. */
  function CountChar(s: string, c: char): nat
    decreases |s|
  {
    if s == [] then 0 else (if s[0] == c then 1 else 0) + CountChar(s[1..], c)
  }

  /** `s.split(c)` has one piece more than `s` has separators. */
  lemma {:induction false} SplitCount(s: string, c: char)
    ensures |Split(s, c)| == CountChar(s, c) + 1
    decreases |s|
  {
    if s != [] {
      SplitCount(s[1..], c);
    }
  }

  /** `c.join(parts)`. */
  function Join(parts: seq<string>, c: char): string
    requires |parts| >= 1
  {
    if |parts| == 1 then parts[0] else parts[0] + [c] + Join(parts[1..], c)
  }

  /** `s` with every occurrence of `c` removed. */
  function RemoveChar(s: string, c: char): (r: string)
    ensures c !in r
  {
    if s == [] then ""
    else (if s[0] == c then "" else [s[0]]) + RemoveChar(s[1..], c)
  }

  /** Splitting and joining again on the same character gives back the input. */
  lemma {:induction false} JoinSplit(s: string, c: char)
    ensures Join(Split(s, c), c) == s
    decreases |s|
  {
    if s != [] {
      var rest := Split(s[1..], c);
      JoinSplit(s[1..], c);
      if s[0] != c {
        var r := Split(s, c);
        if |rest| > 1 {
          assert r[1..] == rest[1..];
          assert Join(rest, c) == rest[0] + [c] + Join(rest[1..], c);
        }
      }
    }
  }

  /** Gluing the pieces without a separator drops exactly the separators. */
  lemma {:induction false} ConcatSplit(s: string, c: char)
    ensures Flatten(Split(s, c)) == RemoveChar(s, c)
    decreases |s|
  {
    if s != [] {
      var rest := Split(s[1..], c);
      ConcatSplit(s[1..], c);
      if s[0] == c {
        FlattenCons("", rest);
      } else {
        var r := Split(s, c);
        assert r == [[s[0]] + rest[0]] + rest[1..];
        assert rest == [rest[0]] + rest[1..];
        FlattenCons(rest[0], rest[1..]);
        FlattenCons([s[0]] + rest[0], rest[1..]);
      }
    }
  }

  /** A string without the separator is a single piece. */
  lemma {:induction false} SplitNoSep(s: string, c: char)
    requires c !in s
    ensures Split(s, c) == [s]
    decreases |s|
  {
    if s != [] {
      SplitNoSep(s[1..], c);
      assert s == [s[0]] + s[1..];
    }
  }

  /** Splitting `x + c + y` splits `x` and `y` separately. */
  lemma {:induction false} SplitAtSep(x: string, y: string, c: char)
    ensures Split(x + [c] + y, c) == Split(x, c) + Split(y, c)
    decreases |x|
  {
    var s := x + [c] + y;
    if x == [] {
      assert s[1..] == y;
    } else {
      assert s[1..] == x[1..] + [c] + y;
      SplitAtSep(x[1..], y, c);
    }
  }

  /** The first piece of `x + y`, when `x` holds no separator, starts with `x`. */
  lemma {:induction false} SplitHead(x: string, y: string, c: char)
    requires c !in x
    ensures Split(x + y, c)[0] == x + Split(y, c)[0]
    decreases |x|
  {
    if x != [] {
      assert (x + y)[1..] == x[1..] + y;
      SplitHead(x[1..], y, c);
      assert x == [x[0]] + x[1..];
    } else {
      assert x + y == y;
    }
  }

  // ---------------------------------------------------------------------
  // `s.split(sep)[0]` for a multi-character separator
  // ---------------------------------------------------------------------

  /** The part of `s` before the first occurrence of `sep` (all of `s` when
      there is none): the first element of Python's `s.split(sep)`. */
  function BeforeFirst(s: string, sep: string): (r: string)
    requires |sep| > 0
    ensures |r| <= |s| && r == s[..|r|]
    decreases |s|
  {
    if |s| < |sep| then s
    else if s[..|sep|] == sep then ""
    else [s[0]] + BeforeFirst(s[1..], sep)
  }

  /** The cut falls right after `x` when no occurrence of `sep` can start inside `x`. */
  lemma {:induction false} BeforeFirstAt(x: string, sep: string, y: string)
    requires |sep| > 0 && sep[0] !in x
    ensures BeforeFirst(x + sep + y, sep) == x
    decreases |x|
  {
    var s := x + sep + y;
    if x == [] {
      assert s[..|sep|] == sep;
    } else {
      assert s[0] == x[0] != sep[0];
      assert s[1..] == x[1..] + sep + y;
      BeforeFirstAt(x[1..], sep, y);
      assert x == [x[0]] + x[1..];
    }
  }

  // ---------------------------------------------------------------------
  // `s.split()` (whitespace) and `s.strip()`
  // ---------------------------------------------------------------------

  /** The longest whitespace-free prefix of `s`. */
  function LeadingWord(s: string): (w: string)
    ensures |w| <= |s| && w == s[..|w|]
    ensures forall i :: 0 <= i < |w| ==> !IsSpace(w[i])
    ensures |w| < |s| ==> IsSpace(s[|w|])
    decreases |s|
  {
    if s == [] || IsSpace(s[0]) then "" else [s[0]] + LeadingWord(s[1..])
  }

  /** `s.split()`: the maximal runs of non-whitespace characters, in order. */
  function Words(s: string): seq<string>
    decreases |s|
  {
    if s == [] then []
    else if IsSpace(s[0]) then Words(s[1..])
    else
      var w := LeadingWord(s);
      assert |w| > 0 by { assert !IsSpace(s[0]); }
      [w] + Words(s[|w|..])
  }

  /** `s.split()` is empty exactly for blank strings, which is when indexing
      its first element raises. */
  lemma {:induction false} WordsEmptyIffBlank(s: string)
    ensures Words(s) == [] <==> IsBlank(s)
    decreases |s|
  {
    if s != [] && IsSpace(s[0]) {
      WordsEmptyIffBlank(s[1..]);
      assert forall i :: 1 <= i < |s| ==> s[i] == s[1..][i - 1];
    }
  }

  lemma {:induction false} BlankConcat(a: string, b: string)
    requires IsBlank(a) && IsBlank(b)
    ensures IsBlank(a + b)
  {
    assert forall i :: |a| <= i < |a + b| ==> (a + b)[i] == b[i - |a|];
  }

  function StripLeft(s: string): (r: string)
    ensures |r| <= |s| && r == s[|s| - |r|..]
    ensures IsBlank(s[..|s| - |r|])
    ensures r == [] || !IsSpace(r[0])
    decreases |s|
  {
    if s != [] && IsSpace(s[0]) then
      var r := StripLeft(s[1..]);
      assert s[1..][|s| - 1 - |r|..] == s[|s| - |r|..];
      BlankConcat([s[0]], s[1..][..|s| - 1 - |r|]);
      assert s[..|s| - |r|] == [s[0]] + s[1..][..|s| - 1 - |r|];
      r
    else s
  }

  function StripRight(s: string): (r: string)
    ensures |r| <= |s| && r == s[..|r|]
    ensures IsBlank(s[|r|..])
    ensures r == [] || !IsSpace(r[|r| - 1])
    decreases |s|
  {
    if s != [] && IsSpace(s[|s| - 1]) then
      var r := StripRight(s[..|s| - 1]);
      assert s[..|s| - 1][..|r|] == s[..|r|];
      BlankConcat(s[..|s| - 1][|r|..], [s[|s| - 1]]);
      assert s[|r|..] == s[..|s| - 1][|r|..] + [s[|s| - 1]];
      r
    else s
  }

  /** `s.strip()`: `s` without its leading and trailing whitespace. */
  function Strip(s: string): (r: string)
    ensures r == [] || (!IsSpace(r[0]) && !IsSpace(r[|r| - 1]))
    ensures exists i :: StrippedAt(s, r, i)
  {
    var l := StripLeft(s);
    var r := StripRight(l);
    StripInside(s, l, r);
    r
  }

  /** What `strip` keeps of `s`: the slice from `i` of length `|r|`, with
      only whitespace before and after it. */
  predicate StrippedAt(s: string, r: string, i: nat) {
    && i + |r| <= |s| && r == s[i..i + |r|] && IsBlank(s[..i]) && IsBlank(s[i + |r|..])
  }

  /** A blank prefix cut off, then a blank suffix of what is left. */
  lemma {:induction false} StripInside(s: string, l: string, r: string)
    requires |l| <= |s| && l == s[|s| - |l|..] && IsBlank(s[..|s| - |l|])
    requires l == [] || !IsSpace(l[0])
    requires |r| <= |l| && r == l[..|r|] && IsBlank(l[|r|..])
    requires r == [] || !IsSpace(r[|r| - 1])
    ensures r == [] || (!IsSpace(r[0]) && !IsSpace(r[|r| - 1]))
    ensures exists i :: StrippedAt(s, r, i)
  {
    var i := |s| - |l|;
    assert r == s[i..i + |r|];
    assert s[i + |r|..] == l[|r|..];
    assert r == [] || r[0] == l[0];
    assert StrippedAt(s, r, i);
  }

  // ---------------------------------------------------------------------
  // Decimal digits: `re.findall("\d+", s)[0]` and `int(s)`
  // ---------------------------------------------------------------------

  predicate IsDigit(c: char) {
    '0' <= c <= '9'
  }

  /** The longest all-digit prefix of `s`. */
  function LeadingDigits(s: string): (d: string)
    ensures |d| <= |s| && d == s[..|d|]
    ensures forall i :: 0 <= i < |d| ==> IsDigit(d[i])
    ensures |d| < |s| ==> !IsDigit(s[|d|])
    decreases |s|
  {
    if s == [] || !IsDigit(s[0]) then "" else [s[0]] + LeadingDigits(s[1..])
  }

  /** `s` from its first digit on (empty when there is no digit). */
  function FromFirstDigit(s: string): (r: string)
    ensures |r| <= |s| && r == s[|s| - |r|..]
    ensures forall i :: 0 <= i < |s| - |r| ==> !IsDigit(s[i])
    ensures r == [] || IsDigit(r[0])
    decreases |s|
  {
    if s == [] || IsDigit(s[0]) then s else FromFirstDigit(s[1..])
  }

  /** `d` is a maximal run of digits of `s` starting at `k`, with no digit
      before `k`. */
  predicate FirstRunAt(s: string, k: nat, d: string) {
    && |d| > 0
    && k + |d| <= |s|
    && d == s[k..k + |d|]
    && (forall i :: 0 <= i < k ==> !IsDigit(s[i]))
    && (forall i :: 0 <= i < |d| ==> IsDigit(d[i]))
    && (k + |d| == |s| || !IsDigit(s[k + |d|]))
  }

  /** The first maximal run of decimal digits in `s`, if any: the first
      element of `re.findall("\d+", s)`. */
  function FirstDigitRun(s: string): (r: Option<string>)
    ensures r.None? <==> forall i :: 0 <= i < |s| ==> !IsDigit(s[i])
    ensures r.Some? ==> FirstRunAt(s, |s| - |FromFirstDigit(s)|, r.value)
  {
    var t := FromFirstDigit(s);
    if t == [] then None
    else
      LeadingDigitsAt(s, |s| - |t|, t);
      Some(LeadingDigits(t))
  }

  /** The leading digits of a suffix that starts with a digit, after no
      digit, are the first run. */
  lemma {:induction false} LeadingDigitsAt(s: string, k: nat, t: string)
    requires k <= |s| && t == s[k..] && t != [] && IsDigit(t[0])
    requires forall i :: 0 <= i < k ==> !IsDigit(s[i])
    ensures FirstRunAt(s, k, LeadingDigits(t))
  {
    var d := LeadingDigits(t);
    assert d == s[k..k + |d|];
    assert k + |d| < |s| ==> s[k + |d|] == t[|d|];
  }

  function DigitValue(c: char): nat
    requires IsDigit(c)
  {
    c as int - '0' as int
  }

  function DigitChar(d: nat): (c: char)
    requires d < 10
    ensures IsDigit(c) && DigitValue(c) == d
  {
    ('0' as int + d) as char
  }

  /** The value of a non-empty run of ASCII digits, or None. */
  function ParseDigits(ds: string): (r: Option<nat>)
    ensures r.Some? <==> ds != [] && forall i :: 0 <= i < |ds| ==> IsDigit(ds[i])
    decreases |ds|
  {
    if ds == [] || !IsDigit(ds[|ds| - 1]) then None
    else if |ds| == 1 then Some(DigitValue(ds[0]))
    else
      match ParseDigits(ds[..|ds| - 1])
      case None => None
      case Some(v) => Some(10 * v + DigitValue(ds[|ds| - 1]))
  }

  /** Python's `int(s)`: surrounding whitespace, then an optional sign
      followed by ASCII digits. */
  function ParseInt(s: string): Option<int> {
    ParseSigned(Strip(s))
  }

  /** An optional sign followed by ASCII digits. */
  function ParseSigned(t: string): Option<int> {
    if |t| > 0 && (t[0] == '+' || t[0] == '-') then
      match ParseDigits(t[1..])
      case None => None
      case Some(v) => Some(if t[0] == '-' then -(v as int) else v as int)
    else
      match ParseDigits(t)
      case None => None
      case Some(v) => Some(v)
  }

  /** A string without whitespace is left as it is by `strip`. */
  lemma {:induction false} StripNoSpace(s: string)
    requires forall i :: 0 <= i < |s| ==> !IsSpace(s[i])
    ensures Strip(s) == s
  {
    assert StripLeft(s) == s;
    assert StripRight(s) == s;
  }

  /** The decimal spelling of `n`, as Python's `str(n)`. */
  function ShowNat(n: nat): (s: string)
    ensures |s| > 0 && forall i :: 0 <= i < |s| ==> IsDigit(s[i])
  {
    if n < 10 then [DigitChar(n)] else ShowNat(n / 10) + [DigitChar(n % 10)]
  }

  /** Reading the digits of the spelling of a number gives the number back. */
  lemma {:induction false} ParseDigitsShow(n: nat)
    ensures ParseDigits(ShowNat(n)) == Some(n)
    decreases n
  {
    if n >= 10 {
      ParseDigitsShow(n / 10);
      var s := ShowNat(n);
      assert s[..|s| - 1] == ShowNat(n / 10);
    }
  }

  /** Digits are not whitespace, so `strip` leaves a run of digits alone. */
  lemma {:induction false} StripDigits(s: string)
    requires forall i :: 0 <= i < |s| ==> IsDigit(s[i])
    ensures Strip(s) == s
  {
    forall i | 0 <= i < |s| ensures !IsSpace(s[i]) {
      assert IsDigit(s[i]);
    }
    StripNoSpace(s);
  }

  /** `int` of a run of digits is the value of the digits. */
  lemma {:induction false} ParseUnsigned(s: string, v: nat)
    requires ParseDigits(s) == Some(v)
    ensures ParseInt(s) == Some(v)
  {
    StripDigits(s);
    SignedDigits(s, v);
  }

  /** A run of digits has no sign to read. */
  lemma {:induction false} SignedDigits(s: string, v: nat)
    requires ParseDigits(s) == Some(v)
    ensures ParseSigned(s) == Some(v)
  {
    assert IsDigit(s[0]);
  }

  /** `int(str(n)) == n`. */
  lemma {:induction false} ParseShow(n: nat)
    ensures ParseInt(ShowNat(n)) == Some(n)
  {
    ParseDigitsShow(n);
    ParseUnsigned(ShowNat(n), n);
  }

  // ---------------------------------------------------------------------
  // Python's string ordering (code point by code point)
  // ---------------------------------------------------------------------

  /** Python's `a <= b` on strings. */
  predicate LexLe(a: string, b: string)
    decreases |a|
  {
    a == [] || (b != [] && (a[0] < b[0] || (a[0] == b[0] && LexLe(a[1..], b[1..]))))
  }

  lemma {:induction false} LexLeTotal(a: string, b: string)
    ensures LexLe(a, b) || LexLe(b, a)
    decreases |a|
  {
    if a != [] && b != [] && a[0] == b[0] {
      LexLeTotal(a[1..], b[1..]);
    }
  }

  lemma {:induction false} LexLeTransitive(a: string, b: string, c: string)
    requires LexLe(a, b) && LexLe(b, c)
    ensures LexLe(a, c)
    decreases |a|
  {
    if a != [] && b != [] && c != [] && a[0] == b[0] == c[0] {
      LexLeTransitive(a[1..], b[1..], c[1..]);
    }
  }

  lemma {:induction false} LexLeAntisymmetric(a: string, b: string)
    requires LexLe(a, b) && LexLe(b, a)
    ensures a == b
    decreases |a|
  {
    if a != [] {
      LexLeAntisymmetric(a[1..], b[1..]);
      assert a == [a[0]] + a[1..] && b == [b[0]] + b[1..];
    }
  }
}
