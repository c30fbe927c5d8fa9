/**
 * The text parsers of the Windows PCI bus driver: the number reader used
 * on registry strings, the location string ("PCI bus 5, device 35,
 * function 0") and the hardware ID ("PCI\VEN_8086&DEV_153A&SUBSYS_00008086&REV_04").
 *
 * A C string is the sequence of characters before its NUL. Besides a value
 * and the -1 return, a parse can dereference a NULL token (`Fault`) or spin
 * forever on the 8-bit index of the number reader (`Hang`).
 */
module PciParse {
  import opened CTypes
  import opened CStrings

  const MAX_STR_TOKENS: nat := 8
  const DEC: nat := 10
  const HEX: nat := 16

  /** Limit of the `uint8_t` index of the number reader. */
  const INDEX_LIMIT: nat := 256

  datatype Parse<T> = Parsed(value: T) | Malformed | Fault | Hang

  /** A failed parse, carried over to another result type. */
  function Failed<T, U>(p: Parse<T>): (r: Parse<U>)
    requires !p.Parsed?
    ensures r.Malformed? == p.Malformed? && r.Fault? == p.Fault? && r.Hang? == p.Hang?
  {
    match p
    case Malformed => Malformed
    case Fault => Fault
    case Hang => Hang
  }

  // -------------------------------------------------------------------
  // get_numerical_value
  // -------------------------------------------------------------------

  /**
   * The letter test of the base-10 reader, `IsCharAlpha`, which follows the
   * code page of the process: which characters beyond the ASCII letters it
   * accepts is a parameter of the model.
   */
  type LetterTest = char -> bool

  /** What every code page agrees on: on ASCII characters the test is the ASCII letter test. */
  predicate CodePageLetters(alpha: LetterTest)
  {
    forall c: char :: (c as int) < 128 ==> (alpha(c) <==> IsAlpha(c))
  }

  /**
   * The character at which the reader hands over to `strtoul`: in base 10
   * anything that is neither a letter nor a space, in base 16 a hex digit
   * (the letter test is not consulted there).
   */
  predicate Starts(c: char, base: nat, alpha: LetterTest)
  {
    if base == DEC then !alpha(c) && c != ' ' else base == HEX && IsHexDigit(c)
  }

  /** The first index from `i` on, below both the length and 256, holding a start character. */
  function FirstStart(s: string, base: nat, alpha: LetterTest, i: nat): (r: Option<nat>)
    requires i <= INDEX_LIMIT
    ensures r.Some? ==> i <= r.value < |s| && r.value < INDEX_LIMIT && Starts(s[r.value], base, alpha)
    ensures r.Some? ==> forall k :: i <= k < r.value ==> !Starts(s[k], base, alpha)
    ensures r.None? ==> forall k :: i <= k < |s| && k < INDEX_LIMIT ==> !Starts(s[k], base, alpha)
    decreases INDEX_LIMIT - i
  {
    if i == INDEX_LIMIT || i >= |s| then None
    else if Starts(s[i], base, alpha) then Some(i)
    else FirstStart(s, base, alpha, i + 1)
  }

  /**
   * `get_numerical_value(s, base)`: `strtoul` from the first start character,
   * 0 when the string ends first. The index is a `uint8_t`, so on a string of
   * 256 or more characters without a start character among the first 256 it
   * wraps to 0 and the loop never ends (None).
   */
  function NumericalValue(s: string, base: nat, alpha: LetterTest): (r: Option<nat>)
    requires base == DEC || base == HEX
    ensures |s| < INDEX_LIMIT ==> r.Some?
    ensures r.Some? ==> r.value <= U32_MAX
  {
    match FirstStart(s, base, alpha, 0)
    case Some(j) => Some(Strtoul(s[j..], base))
    case None => if |s| < INDEX_LIMIT then Some(0) else None
  }

  /**
   * The reader spins exactly on long strings with no start character among
   * the first 256, and returns 0 when the string has no start character.
   */
  lemma NumericalValueOutcomes(s: string, base: nat, alpha: LetterTest)
    requires base == DEC || base == HEX
    ensures NumericalValue(s, base, alpha).None? <==> |s| >= INDEX_LIMIT && forall k :: 0 <= k < INDEX_LIMIT ==> !Starts(s[k], base, alpha)
    ensures (forall k :: 0 <= k < |s| ==> !Starts(s[k], base, alpha)) && |s| < INDEX_LIMIT ==> NumericalValue(s, base, alpha) == Some(0)
  {
  }

  /** The scan stops at the first start character when every earlier one is not one. */
  lemma {:induction false} FirstStartAt(s: string, base: nat, alpha: LetterTest, i: nat, j: nat)
    requires i <= j < |s| && j < INDEX_LIMIT && Starts(s[j], base, alpha)
    requires forall k :: i <= k < j ==> !Starts(s[k], base, alpha)
    ensures FirstStart(s, base, alpha, i) == Some(j)
    decreases j - i
  {
    if i < j {
      FirstStartAt(s, base, alpha, i + 1, j);
    }
  }

  /** Base 16 never consults the letter test: any two tests give the same scan. */
  lemma {:induction false} HexScanIgnoresLetters(s: string, a1: LetterTest, a2: LetterTest, i: nat)
    requires i <= INDEX_LIMIT
    ensures FirstStart(s, HEX, a1, i) == FirstStart(s, HEX, a2, i)
    decreases INDEX_LIMIT - i
  {
    if i < INDEX_LIMIT && i < |s| && !Starts(s[i], HEX, a1) {
      HexScanIgnoresLetters(s, a1, a2, i + 1);
    }
  }

  /** So the base-16 reader's value does not depend on the code page. */
  lemma HexIgnoresLetters(s: string, a1: LetterTest, a2: LetterTest)
    ensures NumericalValue(s, HEX, a1) == NumericalValue(s, HEX, a2)
  {
    HexScanIgnoresLetters(s, a1, a2, 0);
  }

  /**
   * Base 10 depends on it: in a code page where 'ä' is a letter, "Gerät 35"
   * reads 35; with only the ASCII letters the reader stops at 'ä' and
   * `strtoul` finds no digits there.
   */
  lemma CodePageDecides(alpha: LetterTest)
    requires CodePageLetters(alpha) && alpha('ä')
    ensures NumericalValue("Gerät 35", DEC, alpha) == Some(35)
    ensures NumericalValue("Gerät 35", DEC, IsAlpha) == Some(0)
  {
    LocalizedWord(alpha);
    AsciiStopsAtUmlaut();
  }

  lemma LocalizedWord(alpha: LetterTest)
    requires CodePageLetters(alpha) && alpha('ä')
    ensures NumericalValue("Gerät 35", DEC, alpha) == Some(35)
  {
    assert Words("Gerät ", alpha);
    assert FormatInt(35, 0) == "35";
    assert "Gerät 35" == "Gerät " + FormatInt(35, 0) + "";
    ReadsDecimalAfterWords("Gerät ", 35, "", alpha);
  }

  lemma AsciiStopsAtUmlaut()
    ensures NumericalValue("Gerät 35", DEC, IsAlpha) == Some(0)
  {
    var t := "Gerät 35";
    assert t[0] == 'G' && t[1] == 'e' && t[2] == 'r' && t[3] == 'ä';
    FirstStartAt(t, DEC, IsAlpha, 0, 3);
    assert t[3..] == "ät 35";
    StrtoulNoDigits("ät 35", DEC);
  }

  /** `strtoul` at a character that is no space, sign or digit reads nothing. */
  lemma StrtoulNoDigits(s: string, base: nat)
    requires base == DEC || base == HEX
    requires |s| > 0 && !IsSpace(s[0]) && s[0] != '+' && s[0] != '-' && !IsBaseDigit(s[0], base)
    ensures Strtoul(s, base) == 0
  {
    assert SpaceRun(s) == 0;
    assert HexPrefix(s, base) == 0;
    assert s[0..] == s;
    assert DigitRun(s, base) == [];
  }

  /**
   * Base 10: after a prefix of letters and spaces shorter than 256, the
   * reader returns the decimal number written there, whatever follows it
   * (unless a digit follows).
   */
  lemma ReadsDecimalAfterWords(prefix: string, n: nat, rest: string, alpha: LetterTest)
    requires CodePageLetters(alpha) && Words(prefix, alpha)
    requires n <= U32_MAX && (|rest| == 0 || !IsDigit(rest[0]))
    ensures NumericalValue(prefix + FormatInt(n, 0) + rest, DEC, alpha) == Some(n)
  {
    PlainFormat(n);
    DigitsStartAfterWords(prefix, FormatInt(n, 0), rest, alpha);
    StrtoulReadsFormatted(n, 0, rest);
  }

  /** Base 10: the scan skips a prefix of letters and spaces and stops at the digit after it. */
  lemma DigitsStartAfterWords(prefix: string, f: string, rest: string, alpha: LetterTest)
    requires CodePageLetters(alpha) && Words(prefix, alpha)
    requires |f| > 0 && IsDigit(f[0])
    ensures FirstStart(prefix + f + rest, DEC, alpha, 0) == Some(|prefix|)
    ensures (prefix + f + rest)[|prefix|..] == f + rest
  {
    var s := prefix + f + rest;
    assert s[|prefix|] == f[0];
    FirstStartAt(s, DEC, alpha, 0, |prefix|);
    assert s[|prefix|..] == f + rest;
  }

  /** Hexadecimal digit strings have the value bound their length gives. */
  lemma {:induction false} HexValueBound(h: string)
    requires forall k :: 0 <= k < |h| ==> IsHexDigit(h[k])
    ensures ValueOf(h, HEX) < Pow2(4 * |h|)
    decreases |h|
  {
    if |h| > 0 {
      var init := h[..|h| - 1];
      HexValueBound(init);
      Pow2Add(4 * |init|, 4);
      assert Pow2(4) == 16;
    }
  }

  /** Base 16: on a string of one to eight hex digits the reader returns their value. */
  lemma ReadsHexDigits(h: string)
    requires 1 <= |h| <= 8 && forall k :: 0 <= k < |h| ==> IsHexDigit(h[k])
    ensures NumericalValue(h, HEX, IsAlpha) == Some(ValueOf(h, HEX))
  {
    FirstStartAt(h, HEX, IsAlpha, 0, 0);
    assert h[0..] == h;
    StrtoulHexDigits(h);
  }

  /** `strtoul` in base 16 on one to eight hex digits is their value. */
  lemma StrtoulHexDigits(h: string)
    requires 1 <= |h| <= 8 && forall k :: 0 <= k < |h| ==> IsHexDigit(h[k])
    ensures Strtoul(h, HEX) == ValueOf(h, HEX)
  {
    assert HexPrefix(h, HEX) == 0 by {
      if |h| >= 3 {
        assert IsHexDigit(h[1]);
      }
    }
    StrtoulFromDigit(h, HEX);
    WholeHexRun(h);
    HexValueFitsU32(h);
  }

  /** A string of hex digits is its own digit run. */
  lemma WholeHexRun(h: string)
    requires forall k :: 0 <= k < |h| ==> IsHexDigit(h[k])
    ensures DigitRun(h, HEX) == h
  {
    var r := DigitRun(h, HEX);
    assert |r| == |h|;
  }

  /** Eight hex digits or fewer fit in 32 bits. */
  lemma HexValueFitsU32(h: string)
    requires |h| <= 8 && forall k :: 0 <= k < |h| ==> IsHexDigit(h[k])
    ensures ValueOf(h, HEX) <= U32_MAX
  {
    HexValueBound(h);
    Pow2Monotone(4 * |h|, 32);
    Pow2Widths();
  }

  lemma FormatIntHasNoComma(n: nat)
    ensures ',' !in FormatInt(n, 0)
  {
    PlainFormat(n);
  }

  /** `%d` of a non-negative value is its plain decimal digits. */
  lemma PlainFormat(n: nat)
    ensures FormatInt(n, 0) == DecimalDigits(n)
    ensures forall k :: 0 <= k < |FormatInt(n, 0)| ==> IsDigit(FormatInt(n, 0)[k])
  {
    assert Zeros(0) == [];
  }

  // -------------------------------------------------------------------
  // parse_pci_addr_format
  // -------------------------------------------------------------------

  /** `struct rte_pci_addr`. */
  datatype PciAddr = PciAddr(domain: nat, bus: nat, devid: nat, func: nat)

  /** Token `k` read as a number, or the NULL dereference of a missing token. */
  function TokenValue(toks: seq<string>, k: nat, base: nat, alpha: LetterTest): (r: Parse<nat>)
    requires base == DEC || base == HEX
    ensures r.Fault? <==> k >= |toks|
    ensures !r.Malformed?
    ensures r.Parsed? ==> r.value <= U32_MAX
  {
    if k >= |toks| then Fault
    else match NumericalValue(toks[k], base, alpha)
      case None => Hang
      case Some(v) => Parsed(v)
  }

  /**
   * `parse_pci_addr_format`: split at ',' into at most 8 tokens; 8 tokens is
   * an error; domain 0, and bus, device and function from tokens 0, 1 and 2,
   * each cut to 8 bits.
   */
  function ParseLocation(s: string, alpha: LetterTest): (r: Parse<PciAddr>)
    ensures r.Malformed? <==> |Segments(s, ',')| >= MAX_STR_TOKENS
    ensures |Segments(s, ',')| == 0 ==> r.Fault?
    ensures |Segments(s, ',')| < 3 ==> r.Fault? || r.Hang?
    ensures r.Parsed? ==> r.value.domain == 0 && IsU8(r.value.bus) && IsU8(r.value.devid) && IsU8(r.value.func)
    ensures r.Parsed? ==>
      var toks := Segments(s, ',');
      3 <= |toks| < MAX_STR_TOKENS &&
      NumericalValue(toks[0], DEC, alpha).Some? && NumericalValue(toks[1], DEC, alpha).Some? && NumericalValue(toks[2], DEC, alpha).Some? &&
      r.value.bus == ToU8(NumericalValue(toks[0], DEC, alpha).value) &&
      r.value.devid == ToU8(NumericalValue(toks[1], DEC, alpha).value) &&
      r.value.func == ToU8(NumericalValue(toks[2], DEC, alpha).value)
  {
    StrSplitSegments(s, ',', MAX_STR_TOKENS);
    var toks := StrSplit(s, ',', MAX_STR_TOKENS);
    if |toks| > MAX_STR_TOKENS - 1 then Malformed
    else
      var b := TokenValue(toks, 0, DEC, alpha);
      if !b.Parsed? then Failed(b)
      else
        var d := TokenValue(toks, 1, DEC, alpha);
        if !d.Parsed? then Failed(d)
        else
          var f := TokenValue(toks, 2, DEC, alpha);
          if !f.Parsed? then Failed(f)
          else Parsed(PciAddr(0, ToU8(b.value), ToU8(d.value), ToU8(f.value)))
  }

  /** Letters and spaces only, shorter than the reader's index range: text the base-10 reader skips. */
  predicate Words(w: string, alpha: LetterTest)
  {
    |w| < INDEX_LIMIT && forall k :: 0 <= k < |w| ==> alpha(w[k]) || w[k] == ' '
  }

  /** A location text: three comma-separated parts, each words followed by a number. */
  function LocationText(w0: string, bus: nat, w1: string, dev: nat, w2: string, func: nat): string
  {
    Join([w0 + FormatInt(bus, 0), w1 + FormatInt(dev, 0), w2 + FormatInt(func, 0)], ',')
  }

  /** Three tokens with readable numbers parse to those numbers, cut to 8 bits. */
  lemma ParseLocationOf(s: string, a: string, b: string, c: string, x: nat, y: nat, z: nat, alpha: LetterTest)
    requires Segments(s, ',') == [a, b, c]
    requires NumericalValue(a, DEC, alpha) == Some(x) && NumericalValue(b, DEC, alpha) == Some(y) && NumericalValue(c, DEC, alpha) == Some(z)
    ensures ParseLocation(s, alpha) == Parsed(PciAddr(0, ToU8(x), ToU8(y), ToU8(z)))
  {
    StrSplitSegments(s, ',', MAX_STR_TOKENS);
    assert StrSplit(s, ',', MAX_STR_TOKENS) == [a, b, c];
  }

  /** Words followed by a number read as that number. */
  lemma WordsThenNumber(words: string, n: nat, alpha: LetterTest)
    requires CodePageLetters(alpha) && Words(words, alpha) && n <= U32_MAX
    ensures NumericalValue(words + FormatInt(n, 0), DEC, alpha) == Some(n)
    ensures ',' !in words + FormatInt(n, 0)
  {
    ReadsDecimalAfterWords(words, n, "", alpha);
    assert words + FormatInt(n, 0) == words + FormatInt(n, 0) + "";
    FormatIntHasNoComma(n);
  }

  /**
   * A location text parses back to its three numbers, each cut to 8 bits,
   * with domain 0. Windows writes "PCI bus B, device D, function F".
   */
  lemma ParseLocationText(w0: string, bus: nat, w1: string, dev: nat, w2: string, func: nat, alpha: LetterTest)
    requires CodePageLetters(alpha) && Words(w0, alpha) && Words(w1, alpha) && Words(w2, alpha)
    requires bus <= U32_MAX && dev <= U32_MAX && func <= U32_MAX
    ensures ParseLocation(LocationText(w0, bus, w1, dev, w2, func), alpha) == Parsed(PciAddr(0, ToU8(bus), ToU8(dev), ToU8(func)))
  {
    var p := [w0 + FormatInt(bus, 0), w1 + FormatInt(dev, 0), w2 + FormatInt(func, 0)];
    WordsThenNumber(w0, bus, alpha);
    WordsThenNumber(w1, dev, alpha);
    WordsThenNumber(w2, func, alpha);
    SegmentsOfJoin(p, ',');
    ParseLocationOf(LocationText(w0, bus, w1, dev, w2, func), p[0], p[1], p[2], bus, dev, func, alpha);
  }

  /** The words Windows puts before each number of a location. */
  lemma LocationWords(alpha: LetterTest)
    requires CodePageLetters(alpha)
    ensures Words("PCI bus ", alpha) && Words(" device ", alpha) && Words(" function ", alpha)
  {
  }

  lemma LocationExampleText()
    ensures LocationText("PCI bus ", 5, " device ", 35, " function ", 0) == "PCI bus 5, device 35, function 0"
  {
    ExampleNumbers();
    Join3("PCI bus " + "5", " device " + "35", " function " + "0", ',');
    ExampleLocationLiteral();
  }

  lemma ExampleNumbers()
    ensures FormatInt(5, 0) == "5" && FormatInt(35, 0) == "35" && FormatInt(0, 0) == "0"
  {
  }

  lemma ExampleLocationLiteral()
    ensures "PCI bus 5, device 35, function 0" == "PCI bus " + "5" + "," + " device " + "35" + "," + " function " + "0"
  {
  }

  lemma Join3(a: string, b: string, c: string, delim: char)
    ensures Join([a, b, c], delim) == a + [delim] + b + [delim] + c
  {
    assert [a, b, c][1..] == [b, c];
    Join2(b, c, delim);
  }

  /** The example the source's comment gives. */
  lemma ParseLocationExample(alpha: LetterTest)
    requires CodePageLetters(alpha)
    ensures ParseLocation("PCI bus 5, device 35, function 0", alpha) == Parsed(PciAddr(0, 5, 35, 0))
  {
    LocationWords(alpha);
    LocationExampleText();
    ParseLocationText("PCI bus ", 5, " device ", 35, " function ", 0, alpha);
  }

  // -------------------------------------------------------------------
  // parse_hardware_ids
  // -------------------------------------------------------------------

  /** What `parse_hardware_ids` stores: the first value, and the second when the ID has eight characters. */
  datatype IdPair = IdPair(val1: nat, val2: Option<nat>)

  /**
   * `parse_hardware_ids` on one `&` segment: split at '_' into at most 8
   * tokens (8 is an error); the ID is token 1; eight characters are two
   * 4-digit hex values, anything else one hex value; each is cut to 16 bits.
   * The reader runs in base 16, where the letter test plays no part
   * (`HexIgnoresLetters`), so the ASCII test stands in for it.
   */
  function ParseHardwareIds(seg: string): (r: Parse<IdPair>)
    ensures r.Malformed? <==> |Segments(seg, '_')| >= MAX_STR_TOKENS
    ensures |Segments(seg, '_')| < 2 ==> r.Fault?
    ensures r.Parsed? ==> IsU16(r.value.val1) && (r.value.val2.Some? ==> IsU16(r.value.val2.value))
    ensures r.Parsed? ==>
      var id := Segments(seg, '_')[1];
      r.value.val2.Some? <==> |id| == 8
  {
    StrSplitSegments(seg, '_', MAX_STR_TOKENS);
    var ids := StrSplit(seg, '_', MAX_STR_TOKENS);
    if |ids| > MAX_STR_TOKENS - 1 then Malformed
    else if |ids| < 2 then Fault
    else
      var id := ids[1];
      if |id| == 8 then
        var v1 := NumericalValue(id[..4], HEX, IsAlpha);
        var v2 := NumericalValue(id[4..], HEX, IsAlpha);
        Parsed(IdPair(ToU16(v1.value), Some(ToU16(v2.value))))
      else
        match NumericalValue(id, HEX, IsAlpha)
        case None => Hang
        case Some(v) => Parsed(IdPair(ToU16(v), None))
  }

  predicate HexString(h: string)
  {
    forall k :: 0 <= k < |h| ==> IsHexDigit(h[k])
  }

  /** No character of `h` is one of the separators the hardware ID parser splits at. */
  predicate Unseparated(h: string)
  {
    '_' !in h && '&' !in h && '\\' !in h
  }

  lemma HexIsUnseparated(h: string)
    requires HexString(h)
    ensures Unseparated(h)
  {
  }

  /** One `NAME_ID` segment of a hardware ID. */
  function IdField(name: string, id: string): string
  {
    name + ['_'] + id
  }

  /** What a segment whose ID is `id` yields: 4 digits give one value, 8 digits two. */
  function IdValues(id: string): IdPair
    requires HexString(id) && (|id| == 4 || |id| == 8)
  {
    if |id| == 4 then IdPair(ValueOf(id, HEX), None)
    else IdPair(ValueOf(id[..4], HEX), Some(ValueOf(id[4..], HEX)))
  }

  /** A `NAME_ID` segment splits at '_' into the name and the ID. */
  lemma IdFieldSegments(name: string, id: string)
    requires Unseparated(name) && Unseparated(id) && |id| > 0
    ensures Segments(IdField(name, id), '_') == [name, id]
  {
    SegmentsOfJoin([name, id], '_');
    Join2(name, id, '_');
  }

  /** A segment whose two tokens are a name and a 4- or 8-digit hex ID. */
  lemma ParseIdTokens(seg: string, name: string, id: string)
    requires Segments(seg, '_') == [name, id]
    requires HexString(id) && (|id| == 4 || |id| == 8)
    ensures ParseHardwareIds(seg) == Parsed(IdValues(id))
  {
    StrSplitSegments(seg, '_', MAX_STR_TOKENS);
    assert StrSplit(seg, '_', MAX_STR_TOKENS) == [name, id];
    if |id| == 4 {
      ReadsHexWord(id);
    } else {
      ReadsHexWord(id[..4]);
      ReadsHexWord(id[4..]);
    }
  }

  /** Four hex digits read back as their value, which `uint16_t` holds unchanged. */
  lemma ReadsHexWord(h: string)
    requires |h| == 4 && HexString(h)
    ensures NumericalValue(h, HEX, IsAlpha) == Some(ValueOf(h, HEX))
    ensures ToU16(ValueOf(h, HEX)) == ValueOf(h, HEX)
  {
    Pow2Widths();
    ReadsHexDigits(h);
    HexValueBound(h);
  }

  /** A segment `NAME_hhhh` yields the 4-digit value; `NAME_hhhhhhhh` yields both halves. */
  lemma ParseHardwareIdsOf(name: string, id: string)
    requires Unseparated(name) && HexString(id) && (|id| == 4 || |id| == 8)
    ensures ParseHardwareIds(IdField(name, id)) == Parsed(IdValues(id))
  {
    HexIsUnseparated(id);
    IdFieldSegments(name, id);
    ParseIdTokens(IdField(name, id), name, id);
  }

  // -------------------------------------------------------------------
  // parse_pci_hardware_id_format
  // -------------------------------------------------------------------

  /** The IDs the scan stores; the subsystem vendor stays indeterminate (None) unless the third segment has eight digits. */
  datatype HwIds = HwIds(vendor: nat, device: nat, subvendor: Option<nat>, subdevice: nat)

  /**
   * The token array after the second split: the '&' split writes its tokens
   * over the first entries of the array the '\' split filled, and entries
   * past both stay as the '\' split left them (NULL past its tokens).
   */
  function Overlay(first: seq<string>, second: seq<string>): (str: seq<string>)
    ensures |str| == if |first| > |second| then |first| else |second|
    ensures forall k :: 0 <= k < |second| ==> str[k] == second[k]
    ensures forall k :: |second| <= k < |str| ==> str[k] == first[k]
  {
    if |first| > |second| then second + first[|second|..] else second
  }

  /** Segment `k` of the token array parsed as an ID, or the NULL dereference of a missing entry. */
  function IdsAt(str: seq<string>, k: nat): (r: Parse<IdPair>)
    ensures k >= |str| ==> r.Fault?
  {
    if k >= |str| then Fault else ParseHardwareIds(str[k])
  }

  /** The three ID segments of the token array, in the source's order: vendor, device, subsystem. */
  function IdsFrom(str: seq<string>): (r: Parse<HwIds>)
    ensures r.Parsed? ==> 3 <= |str|
    ensures r.Parsed? ==>
      IdsAt(str, 0).Parsed? && IdsAt(str, 1).Parsed? && IdsAt(str, 2).Parsed? &&
      r.value == HwIds(IdsAt(str, 0).value.val1, IdsAt(str, 1).value.val1,
                       IdsAt(str, 2).value.val2, IdsAt(str, 2).value.val1)
  {
    match IdsAt(str, 0)
    case Parsed(ven) =>
      (match IdsAt(str, 1)
       case Parsed(dev) =>
         (match IdsAt(str, 2)
          case Parsed(sub) => Parsed(HwIds(ven.val1, dev.val1, sub.val2, sub.val1))
          case other => Failed(other))
       case other => Failed(other))
    case other => Failed(other)
  }

  /**
   * `parse_pci_hardware_id_format` as written: split at '\' (8 tokens is an
   * error, but that exit frees `buf_copy_stripped` before it is assigned, so
   * the outcome is undefined: `Fault`); duplicate token 1 (NULL when missing,
   * and the split of NULL returns -1 without touching the array); split it
   * at '&' into the same array; parse entries 0, 1, 2.
   */
  function ParseHardwareIdAsWritten(s: string): (r: Parse<HwIds>)
    ensures |Segments(s, '\\')| >= MAX_STR_TOKENS ==> r.Fault?
  {
    StrSplitSegments(s, '\\', MAX_STR_TOKENS);
    var first := StrSplit(s, '\\', MAX_STR_TOKENS);
    if |first| > MAX_STR_TOKENS - 1 then Fault
    else HardwareIdSegments(first)
  }

  /** The part after the '\' split, common to both versions. */
  function HardwareIdSegments(first: seq<string>): (r: Parse<HwIds>)
    requires |first| < MAX_STR_TOKENS
    ensures |first| >= 2 && |Segments(first[1], '&')| >= MAX_STR_TOKENS ==> r.Malformed?
  {
    if |first| < 2 then IdsFrom(first)
    else
      StrSplitSegments(first[1], '&', MAX_STR_TOKENS);
      var second := StrSplit(first[1], '&', MAX_STR_TOKENS);
      if |second| > MAX_STR_TOKENS - 1 then Malformed
      else IdsFrom(Overlay(first, second))
  }

  /** The same with the 8-token exit returning -1 like every other length error. */
  function ParseHardwareId(s: string): (r: Parse<HwIds>)
    ensures |Segments(s, '\\')| >= MAX_STR_TOKENS ==> r.Malformed?
    ensures |Segments(s, '\\')| < MAX_STR_TOKENS ==> r == ParseHardwareIdAsWritten(s)
    ensures r.Parsed? ==> IsU16(r.value.vendor) && IsU16(r.value.device) && IsU16(r.value.subdevice)
  {
    StrSplitSegments(s, '\\', MAX_STR_TOKENS);
    var first := StrSplit(s, '\\', MAX_STR_TOKENS);
    if |first| > MAX_STR_TOKENS - 1 then Malformed
    else
      var r := HardwareIdSegments(first);
      assert r.Parsed? ==> IdsAt(Overlay(first, StrSplit(first[1], '&', MAX_STR_TOKENS)), 0).Parsed? || |first| < 2;
      r
  }

  /**
   * Any hardware ID with eight or more '\'-separated parts: the source's
   * exit frees a pointer it has not assigned yet; the corrected parser
   * rejects the ID.
   */
  lemma EightBackslashTokens(toks: seq<string>)
    requires |toks| >= MAX_STR_TOKENS && |toks[|toks| - 1]| > 0
    requires forall k :: 0 <= k < |toks| ==> '\\' !in toks[k]
    ensures ParseHardwareIdAsWritten(Join(toks, '\\')).Fault?
    ensures ParseHardwareId(Join(toks, '\\')).Malformed?
  {
    SegmentsOfJoin(toks, '\\');
  }

  /** A concrete ID that reaches the unassigned free: `a\b\c\d\e\f\g\h`. */
  lemma EightBackslashExample()
    ensures ParseHardwareIdAsWritten(Join(["a", "b", "c", "d", "e", "f", "g", "h"], '\\')).Fault?
    ensures ParseHardwareId(Join(["a", "b", "c", "d", "e", "f", "g", "h"], '\\')).Malformed?
  {
    EightBackslashTokens(["a", "b", "c", "d", "e", "f", "g", "h"]);
  }

  /** A hardware ID: the enumerator, '\', then `NAME_ID` fields separated by '&'. */
  function HardwareId(enumerator: string, fields: seq<string>): string
  {
    Join([enumerator, Join(fields, '&')], '\\')
  }

  /** A hardware ID with at least two fields keeps its fields as the token array the IDs are read from. */
  lemma HardwareIdFields(enumerator: string, fields: seq<string>)
    requires Unseparated(enumerator) && 2 <= |fields| < MAX_STR_TOKENS && |fields[|fields| - 1]| > 0
    requires forall k :: 0 <= k < |fields| ==> '&' !in fields[k] && '\\' !in fields[k]
    ensures ParseHardwareId(HardwareId(enumerator, fields)) == IdsFrom(fields)
  {
    var rest := Join(fields, '&');
    SegmentsOfJoin(fields, '&');
    JoinNoDelim(fields, '&', '\\');
    assert |rest| > 0 by { JoinLast(fields, '&'); }
    SegmentsOfJoin([enumerator, rest], '\\');
    var first := [enumerator, rest];
    StrSplitSegments(HardwareId(enumerator, fields), '\\', MAX_STR_TOKENS);
    assert StrSplit(HardwareId(enumerator, fields), '\\', MAX_STR_TOKENS) == first;
    StrSplitSegments(rest, '&', MAX_STR_TOKENS);
    assert StrSplit(rest, '&', MAX_STR_TOKENS) == fields;
    assert Overlay(first, fields) == fields;
  }

  /**
   * A hardware ID whose first three fields carry a 4-digit vendor ID, a
   * 4-digit device ID and an 8-digit subsystem ID yields the vendor, the
   * device, the subsystem device (first half) and the subsystem vendor
   * (second half), whatever follows.
   */
  lemma ParseHardwareIdOf(enumerator: string, names: seq<string>, ven: string, dev: string, sub: string, more: seq<string>)
    requires Unseparated(enumerator) && |names| == 3
    requires forall k :: 0 <= k < 3 ==> Unseparated(names[k])
    requires HexString(ven) && HexString(dev) && HexString(sub)
    requires |ven| == 4 && |dev| == 4 && |sub| == 8
    requires |more| < MAX_STR_TOKENS - 3 && (|more| > 0 ==> |more[|more| - 1]| > 0)
    requires forall k :: 0 <= k < |more| ==> '&' !in more[k] && '\\' !in more[k]
    ensures ParseHardwareId(HardwareId(enumerator, [IdField(names[0], ven), IdField(names[1], dev), IdField(names[2], sub)] + more)) ==
      Parsed(HwIds(ValueOf(ven, HEX), ValueOf(dev, HEX), Some(ValueOf(sub[4..], HEX)), ValueOf(sub[..4], HEX)))
  {
    var f := [IdField(names[0], ven), IdField(names[1], dev), IdField(names[2], sub)] + more;
    HexIsUnseparated(ven);
    HexIsUnseparated(dev);
    HexIsUnseparated(sub);
    assert forall k :: 0 <= k < |f| ==> '&' !in f[k] && '\\' !in f[k] by {
      forall k | 0 <= k < |f|
        ensures '&' !in f[k] && '\\' !in f[k]
      {
        if k < 3 {
          assert f[k] == IdField(names[k], [ven, dev, sub][k]);
        } else {
          assert f[k] == more[k - 3];
        }
      }
    }
    assert |f[|f| - 1]| > 0;
    HardwareIdFields(enumerator, f);
    IdsFromFields(f, names, ven, dev, sub);
  }

  /** Three ID segments `NAME_hhhh`, `NAME_hhhh`, `NAME_hhhhhhhh` give the vendor, the device and both subsystem halves. */
  lemma IdsFromFields(f: seq<string>, names: seq<string>, ven: string, dev: string, sub: string)
    requires |names| == 3 && Unseparated(names[0]) && Unseparated(names[1]) && Unseparated(names[2])
    requires HexString(ven) && HexString(dev) && HexString(sub)
    requires |ven| == 4 && |dev| == 4 && |sub| == 8 && |f| >= 3
    requires f[0] == IdField(names[0], ven) && f[1] == IdField(names[1], dev) && f[2] == IdField(names[2], sub)
    ensures IdsFrom(f) == Parsed(HwIds(ValueOf(ven, HEX), ValueOf(dev, HEX), Some(ValueOf(sub[4..], HEX)), ValueOf(sub[..4], HEX)))
  {
    ParseHardwareIdsOf(names[0], ven);
    ParseHardwareIdsOf(names[1], dev);
    ParseHardwareIdsOf(names[2], sub);
  }

  /** The names Windows gives the fields of a PCI hardware ID. */
  lemma WindowsIdNames()
    ensures Unseparated("PCI") && Unseparated("VEN") && Unseparated("DEV") && Unseparated("SUBSYS")
    ensures '&' !in "REV_04" && '\\' !in "REV_04" && |"REV_04"| > 0
  {
  }

  lemma Join2(a: string, b: string, delim: char)
    ensures Join([a, b], delim) == a + [delim] + b
  {
    assert [a, b][1..] == [b];
  }

  lemma HexValue8086()
    ensures HexString("8086") && ValueOf("8086", HEX) == 0x8086
  {
    assert "8086"[..3] == "808" && "808"[..2] == "80" && "80"[..1] == "8" && "8"[..0] == "";
  }

  lemma HexValue153A()
    ensures HexString("153A") && ValueOf("153A", HEX) == 0x153A
  {
    assert "153A"[..3] == "153" && "153"[..2] == "15" && "15"[..1] == "1" && "1"[..0] == "";
  }

  lemma HexValue0000()
    ensures HexString("0000") && ValueOf("0000", HEX) == 0
  {
    assert "0000"[..3] == "000" && "000"[..2] == "00" && "00"[..1] == "0" && "0"[..0] == "";
  }

  lemma ExampleIdValues()
    ensures HexString("8086") && HexString("153A") && HexString("00008086")
    ensures ValueOf("8086", HEX) == 0x8086 && ValueOf("153A", HEX) == 0x153A
    ensures "00008086"[..4] == "0000" && "00008086"[4..] == "8086" && ValueOf("0000", HEX) == 0
  {
    HexValue8086();
    HexValue153A();
    HexValue0000();
  }

  /** The example the source's comment gives, `PCI\VEN_8086&DEV_153A&SUBSYS_00008086&REV_04`. */
  lemma ParseHardwareIdExample()
    ensures ParseHardwareId("PCI\\VEN_8086&DEV_153A&SUBSYS_00008086&REV_04") ==
      Parsed(HwIds(0x8086, 0x153A, Some(0x8086), 0x0000))
  {
    WindowsIdNames();
    ExampleIdValues();
    ParseHardwareIdOf("PCI", ["VEN", "DEV", "SUBSYS"], "8086", "153A", "00008086", ["REV_04"]);
    ExampleIdText();
  }

  /** The example ID is the enumerator and four `NAME_ID` fields. */
  lemma ExampleIdText()
    ensures HardwareId("PCI", [IdField("VEN", "8086"), IdField("DEV", "153A"), IdField("SUBSYS", "00008086")] + ["REV_04"]) ==
      "PCI\\VEN_8086&DEV_153A&SUBSYS_00008086&REV_04"
  {
    assert IdField("VEN", "8086") == "VEN_8086";
    assert IdField("DEV", "153A") == "DEV_153A";
    assert IdField("SUBSYS", "00008086") == "SUBSYS_00008086";
    var f := ["VEN_8086", "DEV_153A", "SUBSYS_00008086", "REV_04"];
    assert [IdField("VEN", "8086"), IdField("DEV", "153A"), IdField("SUBSYS", "00008086")] + ["REV_04"] == f;
    assert f[1..][1..][1..] == ["REV_04"];
    LiteralRev();
    assert Join(f[1..][1..], '&') == "SUBSYS_00008086&REV_04";
    LiteralSubsys();
    assert Join(f[1..], '&') == "DEV_153A&SUBSYS_00008086&REV_04";
    LiteralDev();
    assert Join(f, '&') == "VEN_8086&DEV_153A&SUBSYS_00008086&REV_04";
    LiteralPci();
  }

  lemma LiteralRev()
    ensures "SUBSYS_00008086" + "&" + "REV_04" == "SUBSYS_00008086&REV_04"
  {
  }

  lemma LiteralSubsys()
    ensures "DEV_153A" + "&" + "SUBSYS_00008086&REV_04" == "DEV_153A&SUBSYS_00008086&REV_04"
  {
  }

  lemma LiteralDev()
    ensures "VEN_8086" + "&" + "DEV_153A&SUBSYS_00008086&REV_04" == "VEN_8086&DEV_153A&SUBSYS_00008086&REV_04"
  {
    var x := "VEN_8086" + "&" + "DEV_153A&SUBSYS_00008086&REV_04";
    var y := "VEN_8086&DEV_153A&SUBSYS_00008086&REV_04";
    forall i | 0 <= i < |y|
      ensures x[i] == y[i]
    {
    }
  }

  lemma LiteralPci()
    ensures "PCI" + "\\" + "VEN_8086&DEV_153A&SUBSYS_00008086&REV_04" == "PCI\\VEN_8086&DEV_153A&SUBSYS_00008086&REV_04"
  {
    assert "PCI" + "\\" == "PCI\\";
    LiteralPciTail();
  }

  lemma LiteralPciTail()
    ensures "PCI\\" + "VEN_8086&DEV_153A&SUBSYS_00008086&REV_04" == "PCI\\VEN_8086&DEV_153A&SUBSYS_00008086&REV_04"
  {
  }
}
