/**
 * Shared vocabulary for the model: fixed-width integer ranges, C-string
 * helpers (NUL at the end, ASCII case folding, strtok-style tokenising,
 * decimal and hexadecimal rendering) and positional file writes.
 */
module Common {

  datatype Option<T> = None | Some(value: T)

  type byte = x: int | 0 <= x < 0x100
  type u16 = x: int | 0 <= x < 0x1_0000
  type u32 = x: int | 0 <= x < 0x1_0000_0000

  const U32: int := 0x1_0000_0000

  /** A shell command's return code: CMD_ERROR_NONE, _SYNTAX, _FAIL or _INVALID. */
  datatype CmdResult = CmdOk | CmdSyntax | CmdFail | CmdInvalid

  // ---------------------------------------------------------------------
  // C strings. A Dafny string stands for the characters before the NUL;
  // reading one position past the end yields the terminator.
  // ---------------------------------------------------------------------

  /** The character at position i of a C string ('\0' at or past the end). */
  function At(s: string, i: nat): char
  {
    if i < |s| then s[i] else '\0'
  }

  /** A string a C program can hold: no embedded NUL. */
  predicate IsCString(s: string)
  {
    forall i :: 0 <= i < |s| ==> s[i] != '\0'
  }

  /** ASCII tolower. */
  function Lower(c: char): (r: char)
    ensures 'A' <= c <= 'Z' ==> 'a' <= r <= 'z'
    ensures !('A' <= c <= 'Z') ==> r == c
  {
    if 'A' <= c <= 'Z' then (c as int + 32) as char else c
  }

  /** strcasecmp(a, b) == 0 */
  predicate EqualIgnoreCase(a: string, b: string)
  {
    |a| == |b| && forall i :: 0 <= i < |a| ==> Lower(a[i]) == Lower(b[i])
  }

  /**
   * strncasecmp(t, kw, strlen(t)) == 0 for a NUL-free t: the first |t|
   * characters agree ignoring case, and kw does not end early (its NUL
   * would differ from a character of t).
   */
  predicate PrefixIgnoreCase(t: string, kw: string)
  {
    |t| <= |kw| && forall i :: 0 <= i < |t| ==> Lower(t[i]) == Lower(kw[i])
  }

  /** strrchr(s, c) as an index, or None. */
  function LastIndexOf(s: string, c: char): (r: Option<nat>)
    ensures r.Some? ==> r.value < |s| && s[r.value] == c &&
                        forall j :: r.value < j < |s| ==> s[j] != c
    ensures r.None? ==> forall j :: 0 <= j < |s| ==> s[j] != c
  {
    if |s| == 0 then None
    else if s[|s| - 1] == c then Some(|s| - 1)
    else LastIndexOf(s[..|s| - 1], c)
  }

  /** Index of the first character of s that is in delims, or |s|. */
  function RunLength(s: string, delims: set<char>): (n: nat)
    ensures n <= |s|
    ensures forall i :: 0 <= i < n ==> s[i] !in delims
    ensures n < |s| ==> s[n] in delims
  {
    if s == [] || s[0] in delims then 0 else 1 + RunLength(s[1..], delims)
  }

  /**
   * The tokens strtok/strtok_r hands out for s: the maximal non-empty runs
   * of characters outside delims, left to right.
   */
  function Tokens(s: string, delims: set<char>): (ts: seq<string>)
    ensures forall k :: 0 <= k < |ts| ==> |ts[k]| > 0
    ensures forall k, i :: 0 <= k < |ts| && 0 <= i < |ts[k]| ==> ts[k][i] !in delims
    decreases |s|
  {
    if s == [] then []
    else if s[0] in delims then Tokens(s[1..], delims)
    else
      var n := RunLength(s, delims);
      [s[..n]] + Tokens(s[n..], delims)
  }

  /** A string with no delimiter at all is a single token (or none if empty). */
  lemma {:induction false} TokensOfPlain(s: string, delims: set<char>)
    requires forall i :: 0 <= i < |s| ==> s[i] !in delims
    ensures Tokens(s, delims) == if s == [] then [] else [s]
  {
    if s != [] {
      var n := RunLength(s, delims);
      assert n == |s|;
      assert s[n..] == [];
      assert s[..n] == s;
    }
  }

  /** A run of plain characters stops at a delimiter whatever follows it. */
  lemma RunLengthBeforeDelim(a: string, d: char, b: string, delims: set<char>)
    requires d in delims
    ensures RunLength(a + [d] + b, delims) == RunLength(a, delims)
  {
    var x := a + [d] + b;
    assert forall i :: 0 <= i < |a| ==> x[i] == a[i];
    assert x[|a|] == d;
  }

  /**
   * Tokenising around a delimiter: the tokens of a, then those of b. This
   * is what lets a list such as "x,y" be read one entry at a time.
   */
  lemma {:induction false} TokensAround(a: string, d: char, b: string, delims: set<char>)
    requires d in delims
    ensures Tokens(a + [d] + b, delims) == Tokens(a, delims) + Tokens(b, delims)
    decreases |a|
  {
    var x := a + [d] + b;
    if a == [] {
      assert x[1..] == b;
    } else if a[0] in delims {
      assert x[1..] == a[1..] + [d] + b;
      TokensAround(a[1..], d, b, delims);
    } else {
      var n := RunLength(a, delims);
      RunLengthBeforeDelim(a, d, b, delims);
      assert x[..n] == a[..n];
      assert x[n..] == a[n..] + [d] + b;
      TokensAround(a[n..], d, b, delims);
    }
  }

  /** Number of delimiters at the front of s (what strtok skips first). */
  function Lead(s: string, delims: set<char>): (n: nat)
    ensures n <= |s|
    ensures forall i :: 0 <= i < n ==> s[i] in delims
    ensures n < |s| ==> s[n] !in delims
  {
    if s == [] || s[0] !in delims then 0 else 1 + Lead(s[1..], delims)
  }

  /**
   * The C string left in a buffer after strtok_r has walked all of it:
   * strtok_r writes a NUL over the delimiter that ends each token, so what
   * remains readable is the leading delimiters and the first token.
   */
  function AfterStrtok(s: string, delims: set<char>): (r: string)
    ensures r <= s
  {
    var lead := Lead(s, delims);
    s[..lead + RunLength(s[lead..], delims)]
  }

  /** What remains after strtok_r holds exactly the first token, if any. */
  lemma {:induction false} TokensAfterStrtok(s: string, delims: set<char>)
    ensures Tokens(AfterStrtok(s, delims), delims) == Prefix(Tokens(s, delims), 1)
    decreases |s|
  {
    if s == [] {
    } else if s[0] in delims {
      TokensAfterStrtok(s[1..], delims);
      var r := AfterStrtok(s, delims);
      assert Lead(s, delims) == 1 + Lead(s[1..], delims);
      assert s[Lead(s, delims)..] == s[1..][Lead(s[1..], delims)..];
      assert r[1..] == AfterStrtok(s[1..], delims);
    } else {
      var n := RunLength(s, delims);
      assert Lead(s, delims) == 0;
      assert s[0..] == s;
      TokensOfPlain(s[..n], delims);
    }
  }

  /** The first n elements of s, or all of s when it is shorter. */
  function Prefix<T>(s: seq<T>, n: nat): (r: seq<T>)
    ensures |r| == if n < |s| then n else |s|
    ensures r <= s
  {
    if n < |s| then s[..n] else s
  }

  // ---------------------------------------------------------------------
  // Numbers as text.
  // ---------------------------------------------------------------------

  function DigitChar(d: nat): char
    requires d < 16
  {
    "0123456789ABCDEF"[d]
  }

  /** The value of one digit "%u" or "%X" prints. */
  function DigitValue(c: char): nat
  {
    if '0' <= c <= '9' then c as int - '0' as int
    else if 'A' <= c <= 'F' then c as int - 'A' as int + 10
    else 0
  }

  /** The number a text of digits in the given base reads back as. */
  function DigitsValue(s: string, base: nat): nat
  {
    if s == [] then 0 else DigitsValue(s[..|s| - 1], base) * base + DigitValue(s[|s| - 1])
  }

  /** printf("%u", n): decimal digits that read back as n. */
  function Decimal(n: nat): (s: string)
    ensures |s| > 0
    ensures forall i :: 0 <= i < |s| ==> '0' <= s[i] <= '9'
    ensures DigitsValue(s, 10) == n
  {
    if n < 10 then [DigitChar(n)]
    else
      var d := Decimal(n / 10);
      assert (d + [DigitChar(n % 10)])[..|d|] == d;
      d + [DigitChar(n % 10)]
  }

  /** printf("%d", n) */
  function SignedDecimal(n: int): (s: string)
    ensures |s| > 0
  {
    if n < 0 then "-" + Decimal(-n) else Decimal(n)
  }

  /** printf("%X", n): upper-case hex digits that read back as n. */
  function Hex(n: nat): (s: string)
    ensures |s| > 0
    ensures forall i :: 0 <= i < |s| ==> '0' <= s[i] <= '9' || 'A' <= s[i] <= 'F'
    ensures DigitsValue(s, 16) == n
  {
    if n < 16 then [DigitChar(n)]
    else
      var h := Hex(n / 16);
      assert (h + [DigitChar(n % 16)])[..|h|] == h;
      h + [DigitChar(n % 16)]
  }

  /** Leading zeros do not change the value a text of digits reads back as. */
  lemma {:induction false} LeadingZerosValue(k: nat, s: string, base: nat)
    ensures DigitsValue(Repeat('0', k) + s, base) == DigitsValue(s, base)
    decreases |s|
  {
    if s == [] {
      ZerosValue(k, base);
      assert Repeat('0', k) + s == Repeat('0', k);
    } else {
      var z := Repeat('0', k) + s;
      assert z[..|z| - 1] == Repeat('0', k) + s[..|s| - 1];
      LeadingZerosValue(k, s[..|s| - 1], base);
    }
  }

  lemma {:induction false} ZerosValue(k: nat, base: nat)
    ensures DigitsValue(Repeat('0', k), base) == 0
  {
    if k > 0 {
      var z := Repeat('0', k);
      assert z[..k - 1] == Repeat('0', k - 1);
      ZerosValue(k - 1, base);
    }
  }

  /** printf("%0<w>X", n): left-padded with '0' to at least w characters, still reading back as n. */
  function HexPadded(n: nat, w: nat): (s: string)
    ensures |s| >= w
    ensures forall i :: 0 <= i < |s| ==> '0' <= s[i] <= '9' || 'A' <= s[i] <= 'F'
    ensures DigitsValue(s, 16) == n
  {
    var h := Hex(n);
    if |h| >= w then h
    else
      LeadingZerosValue(w - |h|, h, 16);
      Repeat('0', w - |h|) + h
  }

  function Repeat<T>(x: T, n: nat): (r: seq<T>)
    ensures |r| == n
    ensures forall i :: 0 <= i < n ==> r[i] == x
  {
    if n == 0 then [] else [x] + Repeat(x, n - 1)
  }

  // ---------------------------------------------------------------------
  // Files as byte sequences.
  // ---------------------------------------------------------------------

  /**
   * fseek(f, off, SEEK_SET) followed by fwrite(b): a gap past the end of
   * the file reads back as zero bytes.
   */
  function WriteAt(f: seq<byte>, off: nat, b: seq<byte>): (r: seq<byte>)
    ensures |r| == if off + |b| <= |f| then |f| else off + |b|
    ensures forall i :: off <= i < off + |b| ==> r[i] == b[i - off]
    ensures forall i :: 0 <= i < |r| && !(off <= i < off + |b|) ==>
              r[i] == (if i < |f| then f[i] else 0)
  {
    var padded := if off <= |f| then f else f + Repeat(0, off - |f|);
    var tail := if off + |b| <= |padded| then padded[off + |b|..] else [];
    padded[..off] + b + tail
  }

  /** The n bytes of f starting at off; bytes past the end read as 0. */
  function ReadAt(f: seq<byte>, off: nat, n: nat): (r: seq<byte>)
    ensures |r| == n
    ensures forall i :: 0 <= i < n ==> r[i] == (if off + i < |f| then f[off + i] else 0)
  {
    seq(n, i requires 0 <= i < n => if off + i < |f| then f[off + i] else 0)
  }

  /** The first n bytes of b, zero-filled when b is shorter. */
  function Fit(b: seq<byte>, n: nat): (r: seq<byte>)
    ensures |r| == n
    ensures n <= |b| ==> r == b[..n]
  {
    ReadAt(b, 0, n)
  }
}
