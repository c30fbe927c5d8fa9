/**
 * The string routines the Windows port supplies itself: `strtok_r` and
 * `WinStrSep` (which `strsep` is defined to).
 *
 * Both work in place on the C string the cursor points at: they return a
 * pointer into it, write a NUL where the token ends, and move the cursor
 * the caller keeps (`*nextp`, `*ppString`). Here the string is the
 * characters before its NUL (so its terminator sits at offset `|s|`), the
 * returned token is its text once the NUL is written, and pointers are
 * offsets from the start of the string.
 *
 * Both are stated against one reference notion, `Fields`: the pieces a
 * string falls into when it is cut at every separator character.
 */
module WinStrings {
  import opened CTypes
  import opened CStrings

  // ---------------------------------------------------------------------
  // Reference: the fields of a string
  // ---------------------------------------------------------------------

  /** The pieces of `s` between separators, empty ones included: one more than there are separators. */
  function Fields(s: string, seps: set<char>): (fs: seq<string>)
    ensures |fs| >= 1
  {
    if |s| == 0 then [[]]
    else
      var f := Fields(s[1..], seps);
      if s[0] in seps then [[]] + f else [[s[0]] + f[0]] + f[1..]
  }

  /** The non-empty fields, in order. */
  function NonEmpty(fs: seq<string>): (r: seq<string>)
    ensures forall k :: 0 <= k < |r| ==> |r[k]| > 0
  {
    if |fs| == 0 then []
    else (if |fs[0]| == 0 then [] else [fs[0]]) + NonEmpty(fs[1..])
  }

  /** The fields with a last, empty one dropped. */
  function DropEmptyLast(fs: seq<string>): (r: seq<string>)
  {
    if |fs| > 0 && |fs[|fs| - 1]| == 0 then fs[..|fs| - 1] else fs
  }

  /** The first field runs to the first separator; the others are the fields after it. */
  lemma {:induction false} FieldsAt(s: string, seps: set<char>)
    ensures var n := CSpan(s, seps);
      Fields(s, seps) == if n == |s| then [s] else [s[..n]] + Fields(s[n + 1..], seps)
  {
    if |s| > 0 && s[0] !in seps {
      var t := s[1..];
      FieldsAt(t, seps);
      var m := CSpan(t, seps);
      assert CSpan(s, seps) == 1 + m;
      if m < |t| {
        assert [s[0]] + t[..m] == s[..m + 1];
        assert t[m + 1..] == s[m + 2..];
      } else {
        assert [s[0]] + t == s;
      }
    }
  }

  /** Leading separators only contribute empty fields. */
  lemma {:induction false} SkipSeparators(s: string, seps: set<char>)
    ensures NonEmpty(Fields(s, seps)) == NonEmpty(Fields(s[Span(s, seps)..], seps))
  {
    if |s| > 0 && s[0] in seps {
      SkipSeparators(s[1..], seps);
      assert s[1..][Span(s[1..], seps)..] == s[Span(s, seps)..];
      assert Fields(s, seps) == [[]] + Fields(s[1..], seps);
      assert NonEmpty([[]] + Fields(s[1..], seps)) == NonEmpty(Fields(s[1..], seps));
    }
  }

  /** A string of separators only has no non-empty field. */
  lemma {:induction false} OnlySeparators(s: string, seps: set<char>)
    requires forall k :: 0 <= k < |s| ==> s[k] in seps
    ensures NonEmpty(Fields(s, seps)) == []
  {
    if |s| > 0 {
      OnlySeparators(s[1..], seps);
      assert NonEmpty([[]] + Fields(s[1..], seps)) == NonEmpty(Fields(s[1..], seps));
    }
  }

  // ---------------------------------------------------------------------
  // strtok_r
  // ---------------------------------------------------------------------

  /**
   * The outcome of one `strtok_r` call on a string: NULL with `*nextp` left
   * alone, or the token at offset `at` (its text once the NUL is written)
   * with `*nextp` moved to offset `next`.
   */
  datatype TokStep = NoToken | Token(at: nat, text: string, next: nat)

  /**
   * `strtok_r(str, delim, nextp)` on the string at `str` (or at `*nextp` when
   * `str` is NULL): skip the leading delimiters; if the string ends there,
   * return NULL. Otherwise the token runs to the next delimiter, which is
   * overwritten with NUL, and `*nextp` points just past it, or at the
   * terminator when no delimiter follows.
   */
  function StrtokR(s: string, delim: set<char>): (r: TokStep)
    ensures r.NoToken? <==> forall k :: 0 <= k < |s| ==> s[k] in delim
    ensures r.Token? ==> r.at + |r.text| <= r.next <= |s| && s[r.at..r.at + |r.text|] == r.text
    ensures r.Token? ==> forall k :: 0 <= k < r.at ==> s[k] in delim
    ensures r.Token? ==> |r.text| > 0 && forall k :: 0 <= k < |r.text| ==> r.text[k] !in delim
    ensures r.Token? && r.next < |s| ==> r.next == r.at + |r.text| + 1 && s[r.next - 1] in delim
    ensures r.Token? && r.next == |s| ==> r.at + |r.text| == |s| || s[|s| - 1] in delim
  {
    var a := Span(s, delim);
    if a == |s| then NoToken
    else
      var t := s[a..];
      var n := CSpan(t, delim);
      assert t[0] !in delim;
      if a + n < |s| then
        assert s[a..a + n] == t[..n] && s[a + n] == t[n];
        Token(a, t[..n], a + n + 1)
      else
        assert t[..n] == t;
        Token(a, t, a + n)
  }

  /** One call takes off the first non-empty field; the others are the fields of the string at `*nextp`. */
  lemma StrtokRNext(s: string, delim: set<char>)
    ensures var r := StrtokR(s, delim);
      if r.NoToken? then NonEmpty(Fields(s, delim)) == []
      else NonEmpty(Fields(s, delim)) == [r.text] + NonEmpty(Fields(s[r.next..], delim))
  {
    var a := Span(s, delim);
    SkipSeparators(s, delim);
    if a == |s| {
      OnlySeparators(s, delim);
    } else {
      var t := s[a..];
      var r := StrtokR(s, delim);
      assert r.Token? && r.at == a;
      FirstField(t, delim);
      var n := CSpan(t, delim);
      if n < |t| {
        assert r.text == t[..n] && r.next == a + n + 1;
        assert t[n + 1..] == s[r.next..];
      } else {
        assert t[..n] == t && t[n..] == [];
        assert r.text == t && r.next == |s|;
        assert s[r.next..] == t[n..];
      }
    }
  }

  /** On a string that starts with a token, the first field is that token. */
  lemma FirstField(t: string, delim: set<char>)
    requires |t| > 0 && t[0] !in delim
    ensures var n := CSpan(t, delim);
      NonEmpty(Fields(t, delim)) == [t[..n]] + NonEmpty(Fields(t[if n < |t| then n + 1 else n..], delim))
  {
    FieldsAt(t, delim);
    var n := CSpan(t, delim);
    if n < |t| {
      NonEmptyCons(t[..n], Fields(t[n + 1..], delim));
    } else {
      assert t[..n] == t;
      assert Fields(t[n..], delim) == [[]];
      NonEmptyCons(t, []);
    }
  }

  /** A non-empty first field is kept. */
  lemma NonEmptyCons(x: string, fs: seq<string>)
    requires |x| > 0
    ensures NonEmpty([x] + fs) == [x] + NonEmpty(fs)
  {
    assert ([x] + fs)[1..] == fs;
  }

  /** The tokens successive calls return on one string, until one returns NULL. */
  function Tokens(s: string, delim: set<char>): seq<string>
    decreases |s|
  {
    var r := StrtokR(s, delim);
    if r.NoToken? then [] else [r.text] + Tokens(s[r.next..], delim)
  }

  /** Tokenizing with `strtok_r` yields exactly the non-empty fields of the string. */
  lemma {:induction false} TokensAreFields(s: string, delim: set<char>)
    ensures Tokens(s, delim) == NonEmpty(Fields(s, delim))
    decreases |s|
  {
    StrtokRNext(s, delim);
    var r := StrtokR(s, delim);
    if r.Token? {
      TokensAreFields(s[r.next..], delim);
    }
  }

  // ---------------------------------------------------------------------
  // WinStrSep (strsep)
  // ---------------------------------------------------------------------

  /** What becomes of `*ppString`: left alone, set to NULL, or moved to an offset in the string. */
  datatype Cursor = Unchanged | Null | At(offset: nat)

  /** The token `WinStrSep` returns (NULL is `None`) and what it does to `*ppString`. */
  datatype SepStep = SepStep(token: Option<string>, cursor: Cursor)

  /**
   * `WinStrSep(ppString, pSeparator)`, as written. `pp` is `ppString`: NULL
   * (`None`), pointing at a NULL `*ppString` (`Some(None)`), or at a string.
   * A NULL or empty string gives NULL and changes nothing. Otherwise the
   * token is cut at the first separator and `*ppString` is set one past that
   * position. The NULL test on `pStrStart + strcspn(...)` can never succeed,
   * so when no separator follows, the cursor lands one past the string's
   * terminator.
   */
  function WinStrSep(pp: Option<Option<string>>, seps: set<char>): (r: SepStep)
    ensures r.token.None? <==> pp.None? || pp.value.None? || |pp.value.value| == 0
    ensures r.token.None? ==> r.cursor == Unchanged
    ensures r.token.Some? ==> var s := pp.value.value;
      |r.token.value| <= |s| && r.token.value == s[..|r.token.value|] && r.cursor == At(|r.token.value| + 1)
    ensures r.token.Some? ==> forall k :: 0 <= k < |r.token.value| ==> r.token.value[k] !in seps
  {
    if pp.None? || pp.value.None? || |pp.value.value| == 0 then SepStep(None, Unchanged)
    else
      var s := pp.value.value;
      var p := CSpan(s, seps);
      SepStep(Some(s[..p]), At(p + 1))
  }

  /** Without a separator, the cursor is left one past the terminator, outside the string. */
  lemma WinStrSepOverrun(s: string, seps: set<char>)
    requires |s| > 0 && forall k :: 0 <= k < |s| ==> s[k] !in seps
    ensures WinStrSep(Some(Some(s)), seps) == SepStep(Some(s), At(|s| + 1))
    ensures WinStrSep(Some(Some(s)), seps).cursor.offset > |s|
  {
    NoSeparatorSpan(s, seps);
    assert s[..|s|] == s;
  }

  /** For example, "a" with separator ',' returns "a" and leaves the cursor at offset 2, past the NUL at offset 1. */
  lemma WinStrSepOverrunExample()
    ensures WinStrSep(Some(Some("a")), {','}) == SepStep(Some("a"), At(2))
  {
    WinStrSepOverrun("a", {','});
  }

  lemma {:induction false} NoSeparatorSpan(s: string, seps: set<char>)
    requires forall k :: 0 <= k < |s| ==> s[k] !in seps
    ensures CSpan(s, seps) == |s|
  {
    if |s| > 0 {
      NoSeparatorSpan(s[1..], seps);
    }
  }

  /**
   * `strsep` as the NULL test evidently means it: when no separator follows,
   * the token is the rest of the string and `*ppString` becomes NULL.
   */
  function StrSep(pp: Option<Option<string>>, seps: set<char>): (r: SepStep)
    ensures r.token.None? <==> pp.None? || pp.value.None? || |pp.value.value| == 0
    ensures r.token.None? ==> r.cursor == Unchanged
    ensures r.token.Some? ==> var s := pp.value.value;
      |r.token.value| <= |s| && r.token.value == s[..|r.token.value|]
      && (r.cursor == Null <==> |r.token.value| == |s|)
      && (r.cursor != Null ==> r.cursor == At(|r.token.value| + 1) && s[|r.token.value|] in seps)
    ensures r.token.Some? ==> forall k :: 0 <= k < |r.token.value| ==> r.token.value[k] !in seps
  {
    if pp.None? || pp.value.None? || |pp.value.value| == 0 then SepStep(None, Unchanged)
    else
      var s := pp.value.value;
      var p := CSpan(s, seps);
      if p == |s| then SepStep(Some(s), Null) else SepStep(Some(s[..p]), At(p + 1))
  }

  /** The tokens successive `strsep` calls return on one string, until one returns NULL. */
  function SepTokens(s: string, seps: set<char>): seq<string>
    decreases |s|
  {
    var r := StrSep(Some(Some(s)), seps);
    if r.token.None? then []
    else if r.cursor.At? && r.cursor.offset <= |s| then [r.token.value] + SepTokens(s[r.cursor.offset..], seps)
    else [r.token.value]
  }

  /** Splitting with `strsep` yields every field, empty ones included, except an empty last one. */
  lemma {:induction false} SepTokensAreFields(s: string, seps: set<char>)
    ensures SepTokens(s, seps) == DropEmptyLast(Fields(s, seps))
    decreases |s|
  {
    FieldsAt(s, seps);
    var p := CSpan(s, seps);
    if |s| == 0 {
    } else if p == |s| {
      assert s[..p] == s;
    } else {
      var rest := s[p + 1..];
      SepTokensAreFields(rest, seps);
      var fs := Fields(rest, seps);
      assert Fields(s, seps) == [s[..p]] + fs;
      assert |fs[|fs| - 1]| == 0 ==> ([s[..p]] + fs)[..|fs|] == [s[..p]] + fs[..|fs| - 1];
      if |rest| == 0 {
        assert fs == [[]];
      }
    }
  }
}
