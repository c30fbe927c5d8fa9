/**
 * The C library string routines the core relies on, on strings modelled as
 * the characters before the terminating NUL: character classes, `strtoul`
 * (ISO C 7.22.1.4, with the 32-bit `unsigned long` of Windows), `strspn` /
 * `strcspn`, DPDK's `rte_strsplit`, `%d` / `%0Nd` formatting and the
 * truncation `snprintf` applies to a bounded buffer.
 */
module CStrings {
  import opened CTypes

  // ---------------------------------------------------------------------
  // Character classes (ASCII; the "C" locale)
  // ---------------------------------------------------------------------

  predicate IsDigit(c: char) { '0' <= c <= '9' }

  predicate IsHexDigit(c: char)
  {
    IsDigit(c) || 'a' <= c <= 'f' || 'A' <= c <= 'F'
  }

  /** `IsCharAlpha`, restricted to ASCII letters. */
  predicate IsAlpha(c: char) { 'a' <= c <= 'z' || 'A' <= c <= 'Z' }

  /** `isspace` in the "C" locale. */
  predicate IsSpace(c: char)
  {
    c == ' ' || c == '\t' || c == '\n' || c == '\r' || c == 11 as char || c == 12 as char
  }

  /** A digit of the given base (10 or 16). */
  predicate IsBaseDigit(c: char, base: nat)
  {
    if base == 16 then IsHexDigit(c) else IsDigit(c)
  }

  function DigitValue(c: char): (d: nat)
    requires IsHexDigit(c)
    ensures d < 16
    ensures IsDigit(c) <==> d < 10
  {
    if IsDigit(c) then (c - '0') as nat
    else if 'a' <= c <= 'f' then (c - 'a') as nat + 10
    else (c - 'A') as nat + 10
  }

  function DigitChar(d: nat): (c: char)
    requires d < 10
    ensures IsDigit(c) && DigitValue(c) == d
  {
    ('0' as int + d) as char
  }

  // ---------------------------------------------------------------------
  // strtoul
  // ---------------------------------------------------------------------

  /** Number of leading characters of `s` that satisfy `IsSpace`. */
  function SpaceRun(s: string): (n: nat)
    ensures n <= |s|
    ensures forall i :: 0 <= i < n ==> IsSpace(s[i])
    ensures n < |s| ==> !IsSpace(s[n])
  {
    if |s| == 0 || !IsSpace(s[0]) then 0 else 1 + SpaceRun(s[1..])
  }

  /** Longest prefix of `s` made of digits of `base`. */
  function DigitRun(s: string, base: nat): (r: string)
    ensures |r| <= |s| && r == s[..|r|]
    ensures forall i :: 0 <= i < |r| ==> IsBaseDigit(r[i], base)
    ensures |r| < |s| ==> !IsBaseDigit(s[|r|], base)
  {
    if |s| == 0 || !IsBaseDigit(s[0], base) then [] else [s[0]] + DigitRun(s[1..], base)
  }

  /** Positional value of a digit string, most significant digit first. */
  function ValueOf(digits: string, base: nat): nat
    requires base == 10 || base == 16
    requires forall i :: 0 <= i < |digits| ==> IsBaseDigit(digits[i], base)
  {
    if |digits| == 0 then 0
    else
      var last := digits[|digits| - 1];
      assert IsBaseDigit(last, base);
      ValueOf(digits[..|digits| - 1], base) * base + DigitValue(last)
  }

  /** Length of an optional `0x`/`0X` prefix that `strtoul` accepts in base 16. */
  function HexPrefix(s: string, base: nat): (n: nat)
    ensures n == 0 || n == 2
    ensures n <= |s|
  {
    if base == 16 && |s| >= 3 && s[0] == '0' && (s[1] == 'x' || s[1] == 'X') && IsHexDigit(s[2]) then 2 else 0
  }

  /**
   * `strtoul(s, NULL, base)` with a 32-bit `unsigned long`: leading white
   * space and an optional sign are skipped, then the longest digit run is
   * converted; no digits give 0, a value above ULONG_MAX gives ULONG_MAX, and
   * a minus sign negates modulo 2^32.
   */
  function Strtoul(s: string, base: nat): (r: nat)
    requires base == 10 || base == 16
    ensures r <= U32_MAX
  {
    var i0 := SpaceRun(s);
    var neg := i0 < |s| && s[i0] == '-';
    var i1 := if i0 < |s| && (s[i0] == '+' || s[i0] == '-') then i0 + 1 else i0;
    var i2 := i1 + HexPrefix(s[i1..], base);
    var digits := DigitRun(s[i2..], base);
    var v := ValueOf(digits, base);
    if v > U32_MAX then U32_MAX
    else if neg then (U32_LIMIT - v) % U32_LIMIT
    else v
  }

  // ---------------------------------------------------------------------
  // Decimal formatting: printf's %d and %0Nd
  // ---------------------------------------------------------------------

  /** Decimal digits of `n`, without leading zeros ("0" for zero). */
  function DecimalDigits(n: nat): (s: string)
    ensures |s| >= 1
    ensures forall i :: 0 <= i < |s| ==> IsDigit(s[i])
    decreases n
  {
    if n < 10 then [DigitChar(n)] else DecimalDigits(n / 10) + [DigitChar(n % 10)]
  }

  function Zeros(n: nat): (s: string)
    ensures |s| == n
    ensures forall i :: 0 <= i < n ==> s[i] == '0'
  {
    if n == 0 then [] else ['0'] + Zeros(n - 1)
  }

  /** `printf("%0*d", width, v)`: sign, zero padding to `width`, digits; width 0 is plain `%d`. */
  function FormatInt(v: int, width: nat): (s: string)
    ensures |s| >= 1
  {
    var sign := if v < 0 then "-" else "";
    var digits := DecimalDigits(if v < 0 then -v else v);
    var pad := if width > |sign| + |digits| then width - |sign| - |digits| else 0;
    sign + Zeros(pad) + digits
  }

  /** Reading back the digits of `n` yields `n`: formatting and `ValueOf` are inverse. */
  lemma {:induction false} DecimalDigitsValue(n: nat)
    ensures ValueOf(DecimalDigits(n), 10) == n
    decreases n
  {
    var s := DecimalDigits(n);
    if n >= 10 {
      DecimalDigitsValue(n / 10);
      assert s[..|s| - 1] == DecimalDigits(n / 10);
    }
  }

  /** `%d` is one-to-one: different values print differently. */
  lemma FormatIntInjective(a: int, b: int)
    requires FormatInt(a, 0) == FormatInt(b, 0)
    ensures a == b
  {
    var da := DecimalDigits(if a < 0 then -a else a);
    var db := DecimalDigits(if b < 0 then -b else b);
    assert FormatInt(a, 0) == (if a < 0 then "-" else "") + da;
    assert FormatInt(b, 0) == (if b < 0 then "-" else "") + db;
    FormatIntSign(a);
    FormatIntSign(b);
    if a < 0 {
      assert da == FormatInt(a, 0)[1..] == FormatInt(b, 0)[1..] == db;
      DecimalDigitsValue(-a);
      DecimalDigitsValue(-b);
    } else {
      assert da == FormatInt(a, 0) == FormatInt(b, 0) == db;
      DecimalDigitsValue(a);
      DecimalDigitsValue(b);
    }
  }

  /** `%d` starts with a minus sign exactly for negative values. */
  lemma FormatIntSign(v: int)
    ensures FormatInt(v, 0)[0] == '-' <==> v < 0
  {
    var d := DecimalDigits(if v < 0 then -v else v);
    assert FormatInt(v, 0) == (if v < 0 then "-" else "") + d;
    assert IsDigit(d[0]);
  }

  /** A separator that occurs in neither first part splits both joins at the same place. */
  lemma SplitAtSeparator(a: string, b: string, c: string, d: string, sep: char)
    requires sep !in a && sep !in c
    requires a + [sep] + b == c + [sep] + d
    ensures a == c && b == d
  {
    var x := a + [sep] + b;
    CSpanPrefix(a, sep, b);
    CSpanPrefix(c, sep, d);
    assert a == x[..|a|] && c == x[..|c|];
    assert b == x[|a| + 1..] && d == x[|c| + 1..];
  }

  /** Two strings built around the same prefix and suffix agree in the middle only when the middles agree. */
  lemma SameFrameSameMiddle(pre: string, x: string, y: string, post: string)
    requires pre + x + post == pre + y + post
    ensures x == y
  {
    assert |x| == |y|;
    assert (pre + x + post)[|pre|..|pre| + |x|] == x;
    assert (pre + y + post)[|pre|..|pre| + |y|] == y;
  }

  lemma {:induction false} ValueOfLeadingZeros(z: nat, digits: string)
    requires forall i :: 0 <= i < |digits| ==> IsDigit(digits[i])
    ensures forall i :: 0 <= i < |Zeros(z) + digits| ==> IsDigit((Zeros(z) + digits)[i])
    ensures ValueOf(Zeros(z) + digits, 10) == ValueOf(digits, 10)
    decreases |digits|
  {
    var s := Zeros(z) + digits;
    assert forall i :: 0 <= i < |s| ==> IsDigit(s[i]) by {
      forall i | 0 <= i < |s| ensures IsDigit(s[i]) {
        if i < z { assert s[i] == Zeros(z)[i]; } else { assert s[i] == digits[i - z]; }
      }
    }
    if |digits| == 0 {
      ZerosValue(z);
      assert s == Zeros(z);
    } else {
      var d' := digits[..|digits| - 1];
      ValueOfLeadingZeros(z, d');
      assert s[..|s| - 1] == Zeros(z) + d';
    }
  }

  lemma {:induction false} ZerosValue(z: nat)
    ensures forall i :: 0 <= i < |Zeros(z)| ==> IsDigit(Zeros(z)[i])
    ensures ValueOf(Zeros(z), 10) == 0
    decreases z
  {
    if z > 0 {
      ZerosValue(z - 1);
      assert Zeros(z)[..z - 1] == Zeros(z - 1) by {
        ZerosSnoc(z);
      }
    }
  }

  lemma ZerosSnoc(z: nat)
    requires z > 0
    ensures Zeros(z) == Zeros(z - 1) + ['0']
  {
    assert forall i :: 0 <= i < z ==> Zeros(z)[i] == (Zeros(z - 1) + ['0'])[i];
  }

  /**
   * `strtoul` in base 10 reads back what `%0Nd` wrote for a value that fits
   * in 32 bits, whatever text follows, provided it does not start with a digit.
   */
  lemma StrtoulReadsFormatted(n: nat, width: nat, rest: string)
    requires n <= U32_MAX
    requires |rest| == 0 || !IsDigit(rest[0])
    ensures Strtoul(FormatInt(n, width) + rest, 10) == n
  {
    var f := FormatInt(n, width);
    var digits := DecimalDigits(n);
    var pad := if width > |digits| then width - |digits| else 0;
    assert f == Zeros(pad) + digits;
    ValueOfLeadingZeros(pad, digits);
    DecimalDigitsValue(n);
    DigitRunOf(f, rest);
    StrtoulLeadingDigit(f + rest);
  }

  /** On text that starts with a digit, base-10 `strtoul` is the value of the leading digit run, saturated. */
  lemma StrtoulLeadingDigit(s: string)
    requires |s| > 0 && IsDigit(s[0])
    ensures var v := ValueOf(DigitRun(s, 10), 10);
      Strtoul(s, 10) == if v > U32_MAX then U32_MAX else v
  {
    assert !IsSpace(s[0]);
    assert SpaceRun(s) == 0;
    assert s[0] != '+' && s[0] != '-';
    assert HexPrefix(s[0..], 10) == 0;
    assert s[0..] == s;
  }

  /** The same in either base, for text whose first digit is not the start of a `0x` prefix. */
  lemma StrtoulFromDigit(s: string, base: nat)
    requires base == 10 || base == 16
    requires |s| > 0 && IsBaseDigit(s[0], base) && HexPrefix(s, base) == 0
    ensures var v := ValueOf(DigitRun(s, base), base);
      Strtoul(s, base) == if v > U32_MAX then U32_MAX else v
  {
    assert !IsSpace(s[0]);
    assert SpaceRun(s) == 0;
    assert s[0] != '+' && s[0] != '-';
    assert s[0..] == s;
  }

  /** The digit run of a digit string followed by a non-digit is that string. */
  lemma {:induction false} DigitRunOf(d: string, rest: string)
    requires forall i :: 0 <= i < |d| ==> IsDigit(d[i])
    requires |rest| == 0 || !IsDigit(rest[0])
    ensures DigitRun(d + rest, 10) == d
    decreases |d|
  {
    if |d| == 0 {
      assert d + rest == rest;
    } else {
      assert (d + rest)[1..] == d[1..] + rest;
      DigitRunOf(d[1..], rest);
    }
  }

  function Pow10(k: nat): (r: nat)
    ensures r >= 1
  {
    if k == 0 then 1 else 10 * Pow10(k - 1)
  }

  /** A number below 10^m has at most m digits. */
  lemma {:induction false} DecimalDigitsLength(n: nat, m: nat)
    requires m >= 1 && n < Pow10(m)
    ensures |DecimalDigits(n)| <= m
    decreases m
  {
    if n >= 10 {
      DecimalDigitsLength(n / 10, m - 1);
    }
  }

  /** `%0wd` of a number with at most `m` digits, `w <= m`, takes at most `m` characters. */
  lemma FormatIntLength(n: nat, w: nat, m: nat)
    requires m >= 1 && n < Pow10(m) && w <= m
    ensures |FormatInt(n, w)| <= m
  {
    DecimalDigitsLength(n, m);
  }

  /** A negative value prints its sign too: at most one character more than its digits. */
  lemma FormatSignedLength(v: int, w: nat, m: nat)
    requires m >= 1 && (if v < 0 then -v else v) < Pow10(m) && w <= m + 1
    ensures |FormatInt(v, w)| <= m + 1
  {
    DecimalDigitsLength(if v < 0 then -v else v, m);
  }

  /** Whatever the width, the printed text starts with '-' exactly for a negative value. */
  lemma FormatIntLeadingSign(v: int, w: nat)
    ensures FormatInt(v, w)[0] == '-' <==> v < 0
  {
    var d := DecimalDigits(if v < 0 then -v else v);
    assert IsDigit(d[0]);
  }

  /** `%0wd` of a number below 10^w is exactly `w` digits that read back as the number. */
  lemma FixedWidthField(n: nat, w: nat)
    requires w >= 1 && n < Pow10(w)
    ensures |FormatInt(n, w)| == w
    ensures forall i :: 0 <= i < w ==> IsDigit(FormatInt(n, w)[i])
    ensures ValueOf(FormatInt(n, w), 10) == n
  {
    DecimalDigitsLength(n, w);
    var digits := DecimalDigits(n);
    var pad := w - |digits|;
    assert FormatInt(n, w) == Zeros(pad) + digits;
    ValueOfLeadingZeros(pad, digits);
    DecimalDigitsValue(n);
  }

  // ---------------------------------------------------------------------
  // strspn / strcspn
  // ---------------------------------------------------------------------

  /** `strspn(s, accept)`: length of the longest prefix made of characters in `accept`. */
  function Span(s: string, accept: set<char>): (n: nat)
    ensures n <= |s|
    ensures forall i :: 0 <= i < n ==> s[i] in accept
    ensures n < |s| ==> s[n] !in accept
  {
    if |s| == 0 || s[0] !in accept then 0 else 1 + Span(s[1..], accept)
  }

  /** `strcspn(s, reject)`: length of the longest prefix free of characters in `reject`. */
  function CSpan(s: string, reject: set<char>): (n: nat)
    ensures n <= |s|
    ensures forall i :: 0 <= i < n ==> s[i] !in reject
    ensures n < |s| ==> s[n] in reject
  {
    if |s| == 0 || s[0] in reject then 0 else 1 + CSpan(s[1..], reject)
  }

  // ---------------------------------------------------------------------
  // rte_strsplit
  // ---------------------------------------------------------------------

  /**
   * The tokens `rte_strsplit` finds when no cap applies: a token starts at the
   * beginning of the string and after every delimiter that is not the last
   * character, and runs to the next delimiter or the end of the string.
   */
  function Segments(s: string, delim: char): (toks: seq<string>)
    ensures |s| == 0 <==> |toks| == 0
    ensures forall k :: 0 <= k < |toks| ==> delim !in toks[k]
    decreases |s|
  {
    if |s| == 0 then []
    else
      var k := CSpan(s, {delim});
      if k == |s| then [s]
      else [s[..k]] + Segments(s[k + 1..], delim)
  }

  /**
   * `rte_strsplit(s, len, tokens, max, delim)` for a string shorter than
   * `len`. The loop stops as soon as `max` tokens have started, so the last
   * one is not cut at its delimiters: it keeps the rest of the string, or is
   * empty when it starts at a delimiter.
   */
  function StrSplit(s: string, delim: char, maxTokens: nat): (toks: seq<string>)
    ensures |toks| <= maxTokens
    ensures |toks| == 0 <==> |s| == 0 || maxTokens == 0
    decreases |s|
  {
    if |s| == 0 || maxTokens == 0 then []
    else
      var k := CSpan(s, {delim});
      if maxTokens == 1 then [if k == 0 then [] else s]
      else if k == |s| then [s]
      else [s[..k]] + StrSplit(s[k + 1..], delim, maxTokens - 1)
  }

  /**
   * Below the cap the split is the plain one; at the cap every token but
   * the last is the plain token, and the last is empty exactly when the
   * plain token there is.
   */
  lemma {:induction false} StrSplitSegments(s: string, delim: char, maxTokens: nat)
    ensures var toks := StrSplit(s, delim, maxTokens);
      |toks| == if |Segments(s, delim)| < maxTokens then |Segments(s, delim)| else maxTokens
    ensures |Segments(s, delim)| < maxTokens ==> StrSplit(s, delim, maxTokens) == Segments(s, delim)
    ensures var toks := StrSplit(s, delim, maxTokens);
      |toks| > 0 ==>
        toks[..|toks| - 1] == Segments(s, delim)[..|toks| - 1] &&
        (toks[|toks| - 1] == [] <==> Segments(s, delim)[|toks| - 1] == [])
  {
    StrSplitCount(s, delim, maxTokens);
    StrSplitPrefix(s, delim, maxTokens);
  }

  /** The number of tokens, and the plain segments when the cap is not reached. */
  lemma {:induction false} StrSplitCount(s: string, delim: char, maxTokens: nat)
    ensures var toks := StrSplit(s, delim, maxTokens);
      |toks| == if |Segments(s, delim)| < maxTokens then |Segments(s, delim)| else maxTokens
    ensures |Segments(s, delim)| < maxTokens ==> StrSplit(s, delim, maxTokens) == Segments(s, delim)
    decreases |s|
  {
    if |s| > 0 && maxTokens > 0 {
      var k := CSpan(s, {delim});
      if k == |s| {
        assert Segments(s, delim) == [s];
      } else {
        SegmentsStep(s, delim);
        if maxTokens > 1 {
          SplitStep(s, delim, maxTokens);
          StrSplitCount(s[k + 1..], delim, maxTokens - 1);
        }
      }
    }
  }

  /**
   * `toks` is no longer than `segs`, every token but the last is the segment
   * at its place, and the last is empty exactly when the segment there is.
   */
  predicate AgreeBeforeLast(toks: seq<string>, segs: seq<string>)
  {
    |toks| <= |segs| &&
    (|toks| > 0 ==>
      toks[..|toks| - 1] == segs[..|toks| - 1] &&
      (toks[|toks| - 1] == [] <==> segs[|toks| - 1] == []))
  }

  /** A common first token keeps the agreement. */
  lemma AgreeCons(a: string, t: seq<string>, u: seq<string>)
    requires AgreeBeforeLast(t, u) && (|t| == 0 ==> |u| == 0)
    ensures AgreeBeforeLast([a] + t, [a] + u)
  {
    if |t| > 0 {
      PrefixCons(a, t, u);
    } else {
      assert [a] + t == [a] + u;
    }
  }

  /** Every token but the last is the plain segment, and the last is empty exactly when the segment there is. */
  lemma {:induction false} StrSplitPrefix(s: string, delim: char, maxTokens: nat)
    ensures AgreeBeforeLast(StrSplit(s, delim, maxTokens), Segments(s, delim))
    decreases |s|
  {
    if |s| > 0 && maxTokens > 0 {
      var k := CSpan(s, {delim});
      if k == |s| {
        WholeTokenAgrees(s, delim, maxTokens);
      } else if maxTokens == 1 {
        FirstTokenAgrees(s, delim);
      } else {
        StrSplitPrefix(s[k + 1..], delim, maxTokens - 1);
        PrefixStep(s, delim, maxTokens);
      }
    }
  }

  /** A string without the delimiter is one token and one segment. */
  lemma WholeTokenAgrees(s: string, delim: char, maxTokens: nat)
    requires |s| > 0 && maxTokens > 0 && CSpan(s, {delim}) == |s|
    ensures AgreeBeforeLast(StrSplit(s, delim, maxTokens), Segments(s, delim))
  {
    assert Segments(s, delim) == [s];
    assert StrSplit(s, delim, maxTokens) == [s];
  }

  /** Below the cap, agreement on the rest after the first delimiter gives agreement on the whole. */
  lemma PrefixStep(s: string, delim: char, maxTokens: nat)
    requires |s| > 0 && maxTokens > 1 && CSpan(s, {delim}) < |s|
    requires var k := CSpan(s, {delim});
      AgreeBeforeLast(StrSplit(s[k + 1..], delim, maxTokens - 1), Segments(s[k + 1..], delim))
    ensures AgreeBeforeLast(StrSplit(s, delim, maxTokens), Segments(s, delim))
  {
    var k := CSpan(s, {delim});
    SegmentsStep(s, delim);
    SplitStep(s, delim, maxTokens);
    AgreeCons(s[..k], StrSplit(s[k + 1..], delim, maxTokens - 1), Segments(s[k + 1..], delim));
  }

  /** A cap of one token agrees with the plain segments. */
  lemma FirstTokenAgrees(s: string, delim: char)
    requires |s| > 0 && CSpan(s, {delim}) < |s|
    ensures AgreeBeforeLast(StrSplit(s, delim, 1), Segments(s, delim))
  {
    var k := CSpan(s, {delim});
    SegmentsStep(s, delim);
    assert StrSplit(s, delim, 1) == [if k == 0 then [] else s];
    assert Segments(s, delim)[0] == s[..k];
  }

  /** The last token, or the empty string when there is none. */
  function LastToken(toks: seq<string>): string
  {
    if |toks| == 0 then [] else toks[|toks| - 1]
  }

  /** Joining `toks` gives `s` back whenever the last token is not empty. */
  predicate JoinsBack(toks: seq<string>, delim: char, s: string)
  {
    LastToken(toks) != [] ==> Join(toks, delim) == s
  }

  /**
   * A capped split whose last token is not empty loses nothing: joining the
   * tokens gives the whole string back, delimiters after the cap included.
   */
  lemma {:induction false} StrSplitKeepsRest(s: string, delim: char, maxTokens: nat)
    requires 0 < maxTokens <= |Segments(s, delim)|
    ensures JoinsBack(StrSplit(s, delim, maxTokens), delim, s)
    decreases |s|
  {
    var k := CSpan(s, {delim});
    if maxTokens == 1 || k == |s| {
      SingleTokenJoinsBack(s, delim, maxTokens);
    } else {
      var rest := s[k + 1..];
      SplitStep(s, delim, maxTokens);
      SegmentsStep(s, delim);
      CutAt(s, k, delim);
      StrSplitKeepsRest(rest, delim, maxTokens - 1);
      JoinsBackCons(s[..k], StrSplit(rest, delim, maxTokens - 1), delim, rest);
    }
  }

  /** A split that stops after its first token joins back to the string. */
  lemma SingleTokenJoinsBack(s: string, delim: char, maxTokens: nat)
    requires |s| > 0 && maxTokens > 0 && (maxTokens == 1 || CSpan(s, {delim}) == |s|)
    ensures JoinsBack(StrSplit(s, delim, maxTokens), delim, s)
  {
    var k := CSpan(s, {delim});
    assert StrSplit(s, delim, maxTokens) == [if maxTokens == 1 && k == 0 then [] else s];
  }

  /** A first token and a delimiter in front of a split that joins back. */
  lemma JoinsBackCons(a: string, t: seq<string>, delim: char, rest: string)
    requires |t| > 0 && JoinsBack(t, delim, rest)
    ensures JoinsBack([a] + t, delim, a + [delim] + rest)
  {
    assert LastToken([a] + t) == LastToken(t);
    JoinCons(a, t, delim);
  }

  /** The cap in action: "a,b,c" split into at most 2 tokens is "a" and "b,c". */
  lemma StrSplitCapExample()
    ensures StrSplit("a,b,c", ',', 2) == ["a", "b,c"]
  {
    var s := "a,b,c";
    assert s[0] == 'a' && s[1] == ',';
    assert CSpan(s, {','}) == 1 by {
      assert CSpan(s[1..], {','}) == 0;
    }
    assert s[..1] == "a" && s[2..] == "b,c";
    assert CSpan("b,c", {','}) == 1 by {
      assert "b,c"[1..] == ",c";
    }
  }

  /** Tokens joined back with the delimiter. */
  function Join(toks: seq<string>, delim: char): string
  {
    if |toks| == 0 then []
    else if |toks| == 1 then toks[0]
    else toks[0] + [delim] + Join(toks[1..], delim)
  }

  /**
   * Splitting loses nothing but a trailing delimiter: joining the tokens gives
   * the string back, minus its last character when that is the delimiter.
   */
  lemma {:induction false} SegmentsJoin(s: string, delim: char)
    ensures |s| > 0 && s[|s| - 1] == delim ==> Join(Segments(s, delim), delim) == s[..|s| - 1]
    ensures |s| == 0 || s[|s| - 1] != delim ==> Join(Segments(s, delim), delim) == s
    decreases |s|
  {
    if |s| > 0 {
      var k := CSpan(s, {delim});
      if k == |s| {
        assert delim !in s;
        SegmentsNoDelim(s, delim);
      } else {
        var a, rest := s[..k], s[k + 1..];
        assert s == a + [delim] + rest;
        SegmentsCons(a, delim, rest);
        SegmentsJoin(rest, delim);
        var tail := Segments(rest, delim);
        if |rest| == 0 {
          assert Join(Segments(s, delim), delim) == a;
        } else {
          JoinCons(a, tail, delim);
          if s[|s| - 1] == delim {
            assert s[..|s| - 1] == a + [delim] + rest[..|rest| - 1];
          }
        }
      }
    }
  }

  /**
   * The other direction: splitting the join of delimiter-free tokens, the
   * last one non-empty, gives the tokens back.
   */
  lemma {:induction false} SegmentsOfJoin(toks: seq<string>, delim: char)
    requires |toks| > 0 && |toks[|toks| - 1]| > 0
    requires forall k :: 0 <= k < |toks| ==> delim !in toks[k]
    ensures Segments(Join(toks, delim), delim) == toks
    decreases |toks|
  {
    if |toks| == 1 {
      SegmentsNoDelim(toks[0], delim);
    } else {
      var tail := toks[1..];
      JoinCons(toks[0], tail, delim);
      assert [toks[0]] + tail == toks;
      SegmentsCons(toks[0], delim, Join(tail, delim));
      SegmentsOfJoin(tail, delim);
    }
  }

  /** Below the cap, a delimiter inside the string ends the first token and the split goes on after it. */
  lemma SplitStep(s: string, delim: char, maxTokens: nat)
    requires |s| > 0 && maxTokens > 1 && CSpan(s, {delim}) < |s|
    ensures var k := CSpan(s, {delim});
      StrSplit(s, delim, maxTokens) == [s[..k]] + StrSplit(s[k + 1..], delim, maxTokens - 1)
  {
  }

  /** A string is the text before position `k`, the character there and the text after it. */
  lemma CutAt(s: string, k: nat, c: char)
    requires k < |s| && s[k] == c
    ensures s == s[..k] + [c] + s[k + 1..]
  {
    assert s == s[..k] + s[k..];
    assert s[k..] == [c] + s[k + 1..];
  }

  /** A delimiter inside the string ends the first plain segment. */
  lemma SegmentsStep(s: string, delim: char)
    requires |s| > 0 && CSpan(s, {delim}) < |s|
    ensures var k := CSpan(s, {delim});
      Segments(s, delim) == [s[..k]] + Segments(s[k + 1..], delim)
  {
  }

  /** Putting the same head on two lists keeps their agreement on a prefix. */
  lemma PrefixCons(a: string, t: seq<string>, u: seq<string>)
    requires 0 < |t| <= |u| && t[..|t| - 1] == u[..|t| - 1]
    ensures ([a] + t)[..|t|] == ([a] + u)[..|t|]
    ensures ([a] + t)[|t|] == t[|t| - 1] && ([a] + u)[|t|] == u[|t| - 1]
  {
    assert ([a] + t)[..|t|] == [a] + t[..|t| - 1];
    assert ([a] + u)[..|t|] == [a] + u[..|t| - 1];
  }

  lemma JoinCons(a: string, toks: seq<string>, delim: char)
    requires |toks| > 0
    ensures Join([a] + toks, delim) == a + [delim] + Join(toks, delim)
  {
    assert ([a] + toks)[1..] == toks;
  }

  /** Joining adds no character but the delimiter. */
  lemma {:induction false} JoinNoDelim(toks: seq<string>, delim: char, c: char)
    requires c != delim && forall k :: 0 <= k < |toks| ==> c !in toks[k]
    ensures c !in Join(toks, delim)
    decreases |toks|
  {
    if |toks| > 1 {
      JoinNoDelim(toks[1..], delim, c);
      assert c !in toks[0];
    }
  }

  /** The joined text is at least as long as its last token. */
  lemma {:induction false} JoinLast(toks: seq<string>, delim: char)
    requires |toks| > 0
    ensures |Join(toks, delim)| >= |toks[|toks| - 1]|
    decreases |toks|
  {
    if |toks| > 1 {
      JoinLast(toks[1..], delim);
    }
  }

  /** A string without the delimiter is a single token (or none when empty). */
  lemma SegmentsNoDelim(s: string, delim: char)
    requires delim !in s
    ensures Segments(s, delim) == if |s| == 0 then [] else [s]
  {
    if |s| > 0 {
      assert CSpan(s, {delim}) == |s|;
    }
  }

  /** Splitting `a + [d] + b`, where `a` is non-empty and has no `d`, gives `a` then the tokens of `b`. */
  lemma SegmentsCons(a: string, delim: char, b: string)
    requires delim !in a
    ensures Segments(a + [delim] + b, delim) == [a] + Segments(b, delim)
  {
    var s := a + [delim] + b;
    CSpanPrefix(a, delim, b);
    assert s[..|a|] == a;
    assert s[|a| + 1..] == b;
  }

  lemma CSpanPrefix(a: string, delim: char, b: string)
    requires delim !in a
    ensures CSpan(a + [delim] + b, {delim}) == |a|
  {
    var s := a + [delim] + b;
    assert s[|a|] == delim;
    assert forall i :: 0 <= i < |a| ==> s[i] == a[i];
  }

  // ---------------------------------------------------------------------
  // snprintf
  // ---------------------------------------------------------------------

  /**
   * What `snprintf(buf, n, ...)` stores when the full output is `full`: at
   * most n - 1 characters (then the NUL); nothing for n == 0.
   */
  function Truncate(full: string, n: nat): (r: string)
    ensures n > 0 ==> |r| < n
    ensures |full| < n ==> r == full
    ensures |r| <= |full| && r == full[..|r|]
  {
    if n == 0 then [] else if |full| < n then full else full[..n - 1]
  }
}
