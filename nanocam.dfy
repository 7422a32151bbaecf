/**
 * The NanoCam shell commands (clients/nanocam2/cmd_nanocam.c): the store
 * format names, the colour of a histogram cell, the scaling of the
 * histogram bars printed after a snap, the minimum timeout of
 * `cam recoverfs`, and the chunked memory dump of `cam peek`.
 *
 * The camera link is abstract: the outcome of each request is an input.
 * atoi and sscanf are parameters or their results are inputs.
 */
module NanoCam {
  import opened Common
  import MinMax

  // ---------------------------------------------------------------------
  // Store formats. The codes are the ones the `cam format` help text gives.
  // ---------------------------------------------------------------------

  const RAW: byte := 0
  const BMP: byte := 1
  const JPG: byte := 2
  const DNG: byte := 3
  const RAW10: byte := 4

  const RAW_NAME: string := "RAW"
  const BMP_NAME: string := "BMP"
  const JPG_NAME: string := "JPG"
  const DNG_NAME: string := "DNG"
  const RAW10_NAME: string := RAW_NAME + "10"
  const UNKNOWN_NAME: string := "unknown"

  /** format_to_string */
  function FormatName(f: byte): (r: string)
    ensures f > RAW10 <==> r == UNKNOWN_NAME
  {
    if f == RAW then RAW_NAME
    else if f == BMP then BMP_NAME
    else if f == JPG then JPG_NAME
    else if f == DNG then DNG_NAME
    else if f == RAW10 then RAW10_NAME
    else UNKNOWN_NAME
  }

  /**
   * string_to_format: the five names in any case, otherwise whatever atoi
   * makes of the text, cut to a uint8_t.
   */
  function ParseFormat(s: string, atoi: string -> int): (r: byte)
    ensures EqualIgnoreCase(s, RAW_NAME) ==> r == RAW
    ensures (!EqualIgnoreCase(s, RAW_NAME) && !EqualIgnoreCase(s, BMP_NAME) && !EqualIgnoreCase(s, JPG_NAME) &&
             !EqualIgnoreCase(s, DNG_NAME) && !EqualIgnoreCase(s, RAW10_NAME)) ==> r == atoi(s) % 0x100
  {
    if EqualIgnoreCase(s, RAW_NAME) then RAW
    else if EqualIgnoreCase(s, BMP_NAME) then BMP
    else if EqualIgnoreCase(s, JPG_NAME) then JPG
    else if EqualIgnoreCase(s, DNG_NAME) then DNG
    else if EqualIgnoreCase(s, RAW10_NAME) then RAW10
    else atoi(s) % 0x100
  }

  lemma UpperNamesDiffer(a: string, b: string, i: nat)
    requires i < |a| == |b| && 'A' <= a[i] <= 'Z' && 'A' <= b[i] <= 'Z' && a[i] != b[i]
    ensures !EqualIgnoreCase(a, b)
  {
  }

  /** Each known format's name reads back as that format, whatever atoi does. */
  lemma {:induction false} FormatRoundTrip(f: byte, atoi: string -> int)
    requires f <= RAW10
    ensures ParseFormat(FormatName(f), atoi) == f
  {
    assert EqualIgnoreCase(FormatName(f), FormatName(f));
    assert |RAW10_NAME| == 5 && |RAW_NAME| == 3;
    assert !EqualIgnoreCase(RAW10_NAME, RAW_NAME) && !EqualIgnoreCase(RAW10_NAME, BMP_NAME);
    assert !EqualIgnoreCase(RAW10_NAME, JPG_NAME) && !EqualIgnoreCase(RAW10_NAME, DNG_NAME);
    if f == BMP {
      UpperNamesDiffer(BMP_NAME, RAW_NAME, 0);
    } else if f == JPG {
      UpperNamesDiffer(JPG_NAME, RAW_NAME, 0);
      UpperNamesDiffer(JPG_NAME, BMP_NAME, 0);
    } else if f == DNG {
      UpperNamesDiffer(DNG_NAME, RAW_NAME, 0);
      UpperNamesDiffer(DNG_NAME, BMP_NAME, 0);
      UpperNamesDiffer(DNG_NAME, JPG_NAME, 0);
    }
  }

  /** strcasecmp agreement carries over: s matches t exactly when a, which s matches, does. */
  lemma EqualIgnoreCaseVia(s: string, a: string, t: string)
    requires EqualIgnoreCase(s, a)
    ensures EqualIgnoreCase(s, t) <==> EqualIgnoreCase(a, t)
  {
  }

  /**
   * Each of the five names is recognised in any mix of upper and lower
   * case ("bmp", "Jpg", "raw10"), whatever atoi does.
   */
  lemma {:induction false} ParseFormatIgnoresCase(s: string, f: byte, atoi: string -> int)
    requires f <= RAW10 && EqualIgnoreCase(s, FormatName(f))
    ensures ParseFormat(s, atoi) == f
  {
    FormatRoundTrip(f, atoi);
    EqualIgnoreCaseVia(s, FormatName(f), RAW_NAME);
    EqualIgnoreCaseVia(s, FormatName(f), BMP_NAME);
    EqualIgnoreCaseVia(s, FormatName(f), JPG_NAME);
    EqualIgnoreCaseVia(s, FormatName(f), DNG_NAME);
    EqualIgnoreCaseVia(s, FormatName(f), RAW10_NAME);
  }

  /** The shell's `cam` settings: the store format and the request timeout. */
  class Settings {
    var format: byte
    var timeout: u32

    /** JPEG and 5000 ms until changed. */
    constructor()
      ensures format == JPG && timeout == 5000
    {
      format := JPG;
      timeout := 5000;
    }

    /** cmd_cam_format: with an argument, store the format it names. */
    method SetFormat(argv: seq<string>, atoi: string -> int) returns (r: CmdResult)
      modifies this`format
      ensures r == CmdOk
      ensures |argv| < 2 ==> format == old(format)
      ensures |argv| >= 2 ==> format == ParseFormat(argv[1], atoi)
    {
      if |argv| >= 2 {
        format := ParseFormat(argv[1], atoi);
      }
      return CmdOk;
    }

    /**
     * cmd_cam_set_timeout: `scanned` is what "%u" made of the arguments
     * (None when it converted nothing, which is a syntax error).
     */
    method SetTimeout(argc: nat, scanned: Option<u32>) returns (r: CmdResult)
      modifies this`timeout
      ensures argc < 2 ==> r == CmdOk && timeout == old(timeout)
      ensures argc >= 2 && scanned.None? ==> r == CmdSyntax && timeout == old(timeout)
      ensures argc >= 2 && scanned.Some? ==> r == CmdOk && timeout == scanned.value
    {
      if argc < 2 {
        return CmdOk;
      }
      if scanned.None? {
        return CmdSyntax;
      }
      timeout := scanned.value;
      return CmdOk;
    }
  }

  // ---------------------------------------------------------------------
  // Histogram
  // ---------------------------------------------------------------------

  /** The colours of util/color_printf.h, in their enumeration order. */
  datatype Color = NoColor | Black | Red | Green | Yellow | Blue | Magenta | Cyan | White

  /** Which of red, green and blue light a colour of the terminal mixes. */
  function Channels(c: Color): (bool, bool, bool)
  {
    match c
    case NoColor => (false, false, false)
    case Black => (false, false, false)
    case Red => (true, false, false)
    case Green => (false, true, false)
    case Yellow => (true, true, false)
    case Blue => (false, false, true)
    case Magenta => (true, false, true)
    case Cyan => (false, true, true)
    case White => (true, true, true)
  }

  /** hist_bin_color: the colour a cell with these channels is drawn in. */
  function BinColor(red: bool, green: bool, blue: bool): (c: Color)
    ensures c != Black
    ensures c == NoColor <==> !red && !green && !blue
  {
    if red && green && blue then White
    else if red && green then Yellow
    else if red && blue then Magenta
    else if green && blue then Cyan
    else if red then Red
    else if green then Green
    else if blue then Blue
    else NoColor
  }

  /** The colour mixes exactly the channels asked for. */
  lemma BinColorMixesChannels(red: bool, green: bool, blue: bool)
    ensures Channels(BinColor(red, green, blue)) == (red, green, blue)
  {
  }

  /** Every colour but black is the colour of its own channels. */
  lemma BinColorOfChannels(c: Color)
    requires c != Black
    ensures BinColor(Channels(c).0, Channels(c).1, Channels(c).2) == c
  {
  }

  const HIST_WIDTH: nat := 50

  /** The largest count in the histogram (0 when there is none). */
  function Peak(hist: seq<seq<nat>>): (m: nat)
    ensures forall j, i :: 0 <= j < |hist| && 0 <= i < |hist[j]| ==> hist[j][i] <= m
    ensures m == 0 || exists j, i :: 0 <= j < |hist| && 0 <= i < |hist[j]| && hist[j][i] == m
  {
    if hist == [] then 0
    else
      var rest := Peak(hist[1..]);
      var here := RowPeak(hist[0]);
      assert forall j :: 1 <= j < |hist| ==> hist[j] == hist[1..][j - 1];
      if here > rest then here else rest
  }

  function RowPeak(row: seq<nat>): (m: nat)
    ensures forall i :: 0 <= i < |row| ==> row[i] <= m
    ensures m == 0 || exists i :: 0 <= i < |row| && row[i] == m
  {
    if row == [] then 0
    else
      var rest := RowPeak(row[1..]);
      assert forall i :: 1 <= i < |row| ==> row[i] == row[1..][i - 1];
      if row[0] > rest then row[0] else rest
  }

  /** The bin_max loops: bins outer, colours inner, keeping the largest count. */
  method BinMax(hist: seq<seq<nat>>, bins: nat) returns (binMax: nat)
    requires forall j :: 0 <= j < |hist| ==> |hist[j]| == bins
    ensures binMax == Peak(hist)
  {
    binMax := 0;
    var i := 0;
    while i < bins
      invariant i <= bins
      invariant forall j, k :: 0 <= j < |hist| && 0 <= k < i ==> hist[j][k] <= binMax
      invariant binMax == 0 || exists j, k :: 0 <= j < |hist| && 0 <= k < i && hist[j][k] == binMax
    {
      var j := 0;
      while j < |hist|
        invariant j <= |hist|
        invariant forall j', k :: 0 <= j' < |hist| && 0 <= k < i ==> hist[j'][k] <= binMax
        invariant forall j' :: 0 <= j' < j ==> hist[j'][i] <= binMax
        invariant binMax == 0 || exists j', k :: 0 <= j' < |hist| && 0 <= k <= i && hist[j'][k] == binMax
      {
        if hist[j][i] > binMax {
          binMax := hist[j][i];
        }
        j := j + 1;
      }
      i := i + 1;
    }
    PeakIsUnique(hist, binMax);
  }

  /** The peak is the only number that bounds every count and is one of them (or 0). */
  lemma PeakIsUnique(hist: seq<seq<nat>>, m: nat)
    requires forall j, i :: 0 <= j < |hist| && 0 <= i < |hist[j]| ==> hist[j][i] <= m
    requires m == 0 || exists j, i :: 0 <= j < |hist| && 0 <= i < |hist[j]| && hist[j][i] == m
    ensures m == Peak(hist)
  {
  }

  /**
   * The bar length of one cell count as written: the count scaled to
   * HIST_WIDTH against bin_max, rounded up. With bin_max 0 the division
   * is by zero (None).
   */
  function BlocksAsWritten(h: nat, binMax: nat): Option<nat>
  {
    if binMax == 0 then None else Some((h * HIST_WIDTH + binMax - 1) / binMax)
  }

  /** An all-zero histogram leaves bin_max at 0, and every bar then divides by zero. */
  lemma DarkHistogramDividesByZero(hist: seq<seq<nat>>, h: nat)
    requires forall j, i :: 0 <= j < |hist| && 0 <= i < |hist[j]| ==> hist[j][i] == 0
    ensures Peak(hist) == 0
    ensures BlocksAsWritten(h, Peak(hist)).None?
  {
  }

  /** The bar length with an empty histogram drawing empty bars. */
  function Blocks(h: nat, binMax: nat): (b: nat)
  {
    if binMax == 0 then 0 else (h * HIST_WIDTH + binMax - 1) / binMax
  }

  lemma MulMonotone(a: int, b: int, d: int)
    requires d >= 0
    ensures b <= a ==> b * d <= a * d
  {
    if b <= a {
      var e := a - b;
      assert e * d >= 0;
      assert a * d == b * d + e * d;
    }
  }

  lemma MulStrict(a: int, b: int, d: int)
    requires d > 0
    ensures b < a ==> b * d < a * d
  {
    if b < a {
      var e := a - b;
      assert e * d >= d;
      assert a * d == b * d + e * d;
    }
  }

  lemma CancelLess(a: int, b: int, d: int)
    requires d > 0 && a * d < b * d
    ensures a < b
  {
    MulMonotone(a, b, d);
  }

  /** The rounded-up quotient (x + d - 1) / d is the least multiple count reaching x. */
  lemma CeilingBounds(x: nat, d: nat)
    requires d > 0
    ensures ((x + d - 1) / d) * d >= x
    ensures ((x + d - 1) / d) * d < x + d
  {
    var q := (x + d - 1) / d;
    var r := (x + d - 1) % d;
    assert q * d + r == x + d - 1;
  }

  /**
   * The bar is the count's share of HIST_WIDTH rounded up: never longer
   * than HIST_WIDTH for a count within bin_max, full for the peak, and
   * empty only for an empty bin.
   */
  lemma BlocksScale(h: nat, binMax: nat)
    requires binMax > 0 && h <= binMax
    ensures Blocks(h, binMax) * binMax >= h * HIST_WIDTH
    ensures Blocks(h, binMax) * binMax < h * HIST_WIDTH + binMax
    ensures Blocks(h, binMax) <= HIST_WIDTH
    ensures h == binMax ==> Blocks(h, binMax) == HIST_WIDTH
    ensures Blocks(h, binMax) == 0 <==> h == 0
  {
    var b := Blocks(h, binMax);
    CeilingBounds(h * HIST_WIDTH, binMax);
    MulMonotone(binMax, h, HIST_WIDTH);
    assert b * binMax < (HIST_WIDTH + 1) * binMax;
    CancelLess(b, HIST_WIDTH + 1, binMax);
    if h == binMax {
      assert HIST_WIDTH * binMax <= b * binMax;
      MulStrict(HIST_WIDTH, b, binMax);
    }
    if h == 0 {
      CancelLess(b, 1, binMax);
    }
  }

  /** With an empty histogram every bar is empty instead of a division by zero. */
  lemma BlocksOfEmptyHistogram(h: nat)
    ensures Blocks(h, 0) == 0
  {
  }

  /**
   * The cells of one histogram row, as the drawing loop prints them: a
   * cell of the colour mixing the shown channels whose bars reach it, or
   * a blank (None).
   */
  method DrawBar(rBlocks: nat, gBlocks: nat, bBlocks: nat, showR: bool, showG: bool, showB: bool)
    returns (cells: seq<Option<Color>>)
    ensures |cells| == HIST_WIDTH
    ensures forall j :: 0 <= j < HIST_WIDTH ==>
              var lit := (j < rBlocks && showR, j < gBlocks && showG, j < bBlocks && showB);
              if lit == (false, false, false) then cells[j].None?
              else cells[j].Some? && Channels(cells[j].value) == lit
  {
    cells := [];
    var j := 0;
    while j < HIST_WIDTH
      invariant j <= HIST_WIDTH && |cells| == j
      invariant forall k :: 0 <= k < j ==>
                  var lit := (k < rBlocks && showR, k < gBlocks && showG, k < bBlocks && showB);
                  if lit == (false, false, false) then cells[k].None?
                  else cells[k].Some? && Channels(cells[k].value) == lit
    {
      var r := j < rBlocks && showR;
      var g := j < gBlocks && showG;
      var b := j < bBlocks && showB;
      if r || g || b {
        BinColorMixesChannels(r, g, b);
        cells := cells + [Some(BinColor(r, g, b))];
      } else {
        cells := cells + [None];
      }
      j := j + 1;
    }
  }

  // ---------------------------------------------------------------------
  // recoverfs and peek
  // ---------------------------------------------------------------------

  const RECOVER_MIN_TIMEOUT: int := 120000

  /**
   * The timeout cmd_cam_recoverfs passes on: cam_timeout read into an
   * int (so a value of 2^31 or more turns negative), raised to 120000.
   */
  function RecoverTimeout(camTimeout: u32): (t: int)
    ensures t >= RECOVER_MIN_TIMEOUT
    ensures RECOVER_MIN_TIMEOUT <= camTimeout < 0x8000_0000 ==> t == camTimeout
    ensures camTimeout < RECOVER_MIN_TIMEOUT || camTimeout >= 0x8000_0000 ==> t == RECOVER_MIN_TIMEOUT
  {
    var asInt := if camTimeout >= 0x8000_0000 then camTimeout - U32 else camTimeout;
    if asInt < RECOVER_MIN_TIMEOUT then RECOVER_MIN_TIMEOUT else asInt
  }

  /** cmd_cam_recoverfs: `result` is what the camera returns for that timeout. */
  function RecoverFs(camTimeout: u32, result: int -> int): (r: (int, CmdResult))
    ensures r.0 == RecoverTimeout(camTimeout)
    ensures r.1 == CmdOk <==> result(r.0) >= 0
    ensures r.1 == CmdOk || r.1 == CmdFail
  {
    var t := RecoverTimeout(camTimeout);
    (t, if result(t) < 0 then CmdFail else CmdOk)
  }

  /** One peek request: the address and the number of bytes asked for. */
  datatype PeekRequest = PeekRequest(addr: u32, len: nat)

  /** The reply to one peek request: None when the transaction fails. */
  function Answer(peek: map<PeekRequest, seq<byte>>, q: PeekRequest): (r: Option<seq<byte>>)
    ensures r.Some? <==> q in peek
  {
    if q in peek then Some(peek[q]) else None
  }

  /**
   * The requests the peek loop plans for `len` bytes from addr: chunks of
   * at most `max` bytes, each starting where the previous one ended.
   */
  function PeekPlan(addr: u32, len: nat, max: nat): (plan: seq<PeekRequest>)
    requires max > 0
    ensures forall k :: 0 <= k < |plan| ==> 0 < plan[k].len <= max
    decreases len
  {
    if len == 0 then []
    else
      var n := MinMax.Min(len, max);
      [PeekRequest(addr, n)] + PeekPlan((addr + n) % U32, len - n, max)
  }

  function Total(plan: seq<PeekRequest>): nat
  {
    if plan == [] then 0 else plan[0].len + Total(plan[1..])
  }

  /** The plan asks for exactly len bytes, all but the last chunk full-sized. */
  lemma {:induction false} PeekPlanCovers(addr: u32, len: nat, max: nat)
    requires max > 0
    ensures Total(PeekPlan(addr, len, max)) == len
    ensures forall k :: 0 <= k < |PeekPlan(addr, len, max)| - 1 ==> PeekPlan(addr, len, max)[k].len == max
    decreases len
  {
    if len > 0 {
      var n := MinMax.Min(len, max);
      PeekPlanCovers((addr + n) % U32, len - n, max);
      var plan := PeekPlan(addr, len, max);
      assert plan[1..] == PeekPlan((addr + n) % U32, len - n, max);
      if |plan| > 1 {
        assert len > max;
      }
    }
  }

  /**
   * The bytes the dump writes and whether every request succeeded, for
   * the requests of a plan in order: the dump stops at the first failed
   * one. `peek` holds the camera's answer to each request it answers; a
   * request missing from it is one whose transaction fails.
   */
  function Dumped(plan: seq<PeekRequest>, peek: map<PeekRequest, seq<byte>>): (r: (seq<byte>, bool))
  {
    if plan == [] then ([], true)
    else
      var answer := Answer(peek, plan[0]);
      if answer.None? then ([], false)
      else
        var rest := Dumped(plan[1..], peek);
        (Fit(answer.value, plan[0].len) + rest.0, rest.1)
  }

  /**
   * The same dump, one request at a time as the loop issues them: the
   * answer to the first chunk of at most max bytes, then the dump of the rest.
   */
  function DumpFrom(addr: u32, len: nat, max: nat, peek: map<PeekRequest, seq<byte>>): (r: (seq<byte>, bool))
    requires 0 < max
    decreases len
  {
    if len == 0 then ([], true)
    else
      var n := MinMax.Min(len, max);
      var answer := Answer(peek, PeekRequest(addr, n));
      if answer.None? then ([], false)
      else
        var rest := DumpFrom((addr + n) % U32, len - n, max, peek);
        (Fit(answer.value, n) + rest.0, rest.1)
  }

  /** Requesting chunk by chunk dumps exactly what the plan describes. */
  lemma {:induction false} DumpFromFollowsPlan(addr: u32, len: nat, max: nat, peek: map<PeekRequest, seq<byte>>)
    requires 0 < max
    ensures DumpFrom(addr, len, max, peek) == Dumped(PeekPlan(addr, len, max), peek)
    decreases len
  {
    if len > 0 {
      var n := MinMax.Min(len, max);
      var plan := PeekPlan(addr, len, max);
      assert plan[0] == PeekRequest(addr, n);
      assert plan[1..] == PeekPlan((addr + n) % U32, len - n, max);
      DumpFromFollowsPlan((addr + n) % U32, len - n, max, peek);
    }
  }

  /** A dump in which every request succeeds writes exactly the bytes asked for. */
  lemma {:induction false} CompleteDumpLength(plan: seq<PeekRequest>, peek: map<PeekRequest, seq<byte>>)
    requires Dumped(plan, peek).1
    ensures |Dumped(plan, peek).0| == Total(plan)
  {
    if plan != [] {
      CompleteDumpLength(plan[1..], peek);
    }
  }

  /**
   * cmd_cam_peek. Fewer than three words, or an address or length that
   * does not convert (`addr`/`len` None), is a syntax error; a dump file
   * that cannot be opened fails. Otherwise the chunks of the plan are
   * requested in turn and written to the file until one fails.
   */
  method Peek(argc: nat, addr: Option<u32>, len: Option<u32>, fileOpened: bool, max: nat,
              peek: map<PeekRequest, seq<byte>>) returns (r: CmdResult, file: seq<byte>)
    requires 0 < max
    ensures argc < 3 || addr.None? || len.None? ==> r == CmdSyntax && file == []
    ensures argc >= 3 && addr.Some? && len.Some? && !fileOpened ==> r == CmdFail && file == []
    ensures argc >= 3 && addr.Some? && len.Some? && fileOpened ==>
              var d := Dumped(PeekPlan(addr.value, len.value, max), peek);
              file == d.0 && (r == CmdOk <==> d.1) && (r == CmdOk || r == CmdFail)
  {
    file := [];
    if argc < 3 || addr.None? || len.None? {
      return CmdSyntax, [];
    }
    if !fileOpened {
      return CmdFail, [];
    }
    var ok;
    ok, file := Dump(addr.value, len.value, max, peek);
    DumpFromFollowsPlan(addr.value, len.value, max, peek);
    r := if ok then CmdOk else CmdFail;
  }

  /**
   * The loop of cmd_cam_peek: request chunks of at most max bytes from
   * addr on and append each answer to the file, stopping at the first
   * request that fails.
   */
  method Dump(addr: u32, len: nat, max: nat, peek: map<PeekRequest, seq<byte>>)
    returns (ok: bool, file: seq<byte>)
    requires 0 < max
    ensures file == DumpFrom(addr, len, max, peek).0
    ensures ok == DumpFrom(addr, len, max, peek).1
  {
    var a: u32, left: nat := addr, len;
    ghost var whole := DumpFrom(addr, len, max, peek);
    file := [];
    ok := true;
    assert whole.0 == file + whole.0;
    while left > 0
      invariant whole.0 == file + DumpFrom(a, left, max, peek).0
      invariant whole.1 == DumpFrom(a, left, max, peek).1
      decreases left
    {
      var n := MinMax.Min(left, max);
      var answer := Answer(peek, PeekRequest(a, n));
      var next: u32 := (a + n) % U32;
      DumpFromStep(a, left, max, peek, file, whole);
      if answer.None? {
        return false, file;
      }
      file := file + Fit(answer.value, n);
      left := left - n;
      a := next;
    }
    assert file + [] == file;
  }

  /** One round of the dump loop keeps what is written plus what remains equal to the whole dump. */
  lemma DumpFromStep(a: u32, left: nat, max: nat, peek: map<PeekRequest, seq<byte>>,
                     file: seq<byte>, whole: (seq<byte>, bool))
    requires 0 < left && 0 < max
    requires whole.0 == file + DumpFrom(a, left, max, peek).0
    requires whole.1 == DumpFrom(a, left, max, peek).1
    ensures var n := MinMax.Min(left, max);
            var answer := Answer(peek, PeekRequest(a, n));
            var rest := DumpFrom((a + n) % U32, left - n, max, peek);
            && (answer.None? ==> whole == (file, false))
            && (answer.Some? ==> whole.0 == (file + Fit(answer.value, n)) + rest.0 && whole.1 == rest.1)
  {
    var n := MinMax.Min(left, max);
    var answer := Answer(peek, PeekRequest(a, n));
    var rest := DumpFrom((a + n) % U32, left - n, max, peek);
    if answer.None? {
      assert file + [] == file;
    } else {
      assert file + (Fit(answer.value, n) + rest.0) == (file + Fit(answer.value, n)) + rest.0;
    }
  }
}
