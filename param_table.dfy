/**
 * The parameter-table helpers (lib/libparam/src/param_string.c): finding
 * a table entry by name or by address, the C type name of a parameter
 * type, parsing a parameter value from text, and rendering one as text.
 *
 * A table entry describes `count` elements of `size` bytes each starting
 * at `addr`; a count of 0 marks a scalar, which still has one element.
 * param_strncmp is a parameter (`same`), as are the texts sscanf and "%f"
 * would produce for the numeric types.
 */
module ParamTable {
  import opened Common
  import MinMax

  datatype ParamType =
    | Uint8 | Uint16 | Uint32 | Uint64
    | Int8 | Int16 | Int32 | Int64
    | X8 | X16 | X32 | X64
    | Float | Double | String | Data | Bool
    | Unknown(code: int)

  datatype Param = Param(addr: u16, ptype: ParamType, size: nat, count: nat, name: string)

  // ---------------------------------------------------------------------
  // Lookup
  // ---------------------------------------------------------------------

  /** The index of the first entry, from i on, whose name `same` accepts. */
  function FirstNamed(table: seq<Param>, name: string, same: (string, string) -> bool, i: nat): (r: Option<nat>)
    requires i <= |table|
    ensures r.Some? ==> i <= r.value < |table| && same(name, table[r.value].name) &&
                        forall j :: i <= j < r.value ==> !same(name, table[j].name)
    ensures r.None? ==> forall j :: i <= j < |table| ==> !same(name, table[j].name)
    decreases |table| - i
  {
    if i == |table| then None
    else if same(name, table[i].name) then Some(i)
    else FirstNamed(table, name, same, i + 1)
  }

  /** param_find_name: no table finds nothing; otherwise the first match. */
  function FindName(table: Option<seq<Param>>, name: string, same: (string, string) -> bool): (r: Option<nat>)
    ensures table.None? ==> r.None?
    ensures r.Some? ==> table.Some? && r.value < |table.value| &&
                        same(name, table.value[r.value].name) &&
                        forall j :: 0 <= j < r.value ==> !same(name, table.value[j].name)
    ensures table.Some? && r.None? ==> forall j :: 0 <= j < |table.value| ==> !same(name, table.value[j].name)
  {
    if table.None? then None else FirstNamed(table.value, name, same, 0)
  }

  /** The loop of param_find_name. */
  method LookupName(table: Option<seq<Param>>, name: string, same: (string, string) -> bool) returns (r: Option<nat>)
    ensures r == FindName(table, name, same)
  {
    if table.None? {
      return None;
    }
    var t := table.value;
    var i := 0;
    while i < |t|
      invariant i <= |t|
      invariant FirstNamed(t, name, same, 0) == FirstNamed(t, name, same, i)
    {
      if same(name, t[i].name) {
        return Some(i);
      }
      i := i + 1;
    }
    return None;
  }

  /** The number of elements an entry stands for: a scalar (count 0) has one. */
  function Slots(p: Param): (n: nat)
    ensures n >= 1 && (p.count > 0 ==> n == p.count)
  {
    if p.count == 0 then 1 else p.count
  }

  /** The address of element j of an entry. */
  function SlotAddr(p: Param, j: nat): int
  {
    p.addr + j * p.size
  }

  /** Some element of p lives at addr. */
  predicate Covers(p: Param, addr: int)
  {
    exists j :: 0 <= j < Slots(p) && SlotAddr(p, j) == addr
  }

  function FirstCovering(table: seq<Param>, addr: int, i: nat): (r: Option<nat>)
    requires i <= |table|
    ensures r.Some? ==> i <= r.value < |table| && Covers(table[r.value], addr) &&
                        forall k :: i <= k < r.value ==> !Covers(table[k], addr)
    ensures r.None? ==> forall k :: i <= k < |table| ==> !Covers(table[k], addr)
    decreases |table| - i
  {
    if i == |table| then None
    else if Covers(table[i], addr) then Some(i)
    else FirstCovering(table, addr, i + 1)
  }

  /** param_find_addr: the first entry one of whose elements lives at addr. */
  function FindAddr(table: Option<seq<Param>>, addr: u16): (r: Option<nat>)
    ensures table.None? ==> r.None?
    ensures r.Some? ==> table.Some? && r.value < |table.value| && Covers(table.value[r.value], addr) &&
                        forall k :: 0 <= k < r.value ==> !Covers(table.value[k], addr)
    ensures table.Some? && r.None? ==> forall k :: 0 <= k < |table.value| ==> !Covers(table.value[k], addr)
  {
    if table.None? then None else FirstCovering(table.value, addr, 0)
  }

  /** The two loops of param_find_addr: entries in order, elements in order. */
  method LookupAddr(table: Option<seq<Param>>, addr: u16) returns (r: Option<nat>)
    ensures r == FindAddr(table, addr)
  {
    if table.None? {
      return None;
    }
    var t := table.value;
    var i := 0;
    while i < |t|
      invariant i <= |t|
      invariant FirstCovering(t, addr, 0) == FirstCovering(t, addr, i)
    {
      var p := t[i];
      var count := if p.count == 0 then 1 else p.count;
      var j := 0;
      while j < count
        invariant j <= count
        invariant forall k :: 0 <= k < j ==> SlotAddr(p, k) != addr
      {
        if p.addr + j * p.size == addr {
          assert Covers(p, addr) by { assert SlotAddr(p, j) == addr; }
          return Some(i);
        }
        j := j + 1;
      }
      i := i + 1;
    }
    return None;
  }

  /**
   * The elements of an entry with a non-zero size lie in its span, one
   * element-size apart from its start.
   */
  lemma {:induction false} CoversWithinSpan(p: Param, addr: int)
    requires p.size > 0
    ensures Covers(p, addr) ==> p.addr <= addr < p.addr + Slots(p) * p.size
  {
    if Covers(p, addr) {
      var j :| 0 <= j < Slots(p) && SlotAddr(p, j) == addr;
      MultipleBelow(j, Slots(p), p.size);
    }
  }

  lemma MultipleBelow(j: nat, n: nat, s: nat)
    requires j < n && s > 0
    ensures j * s < n * s && 0 <= j * s
  {
  }

  /** An entry with elements of size 0, or a scalar, owns only its own address. */
  lemma ScalarCoversOnlyItself(p: Param, addr: int)
    requires p.count <= 1 || p.size == 0
    ensures Covers(p, addr) <==> addr == p.addr
  {
    if addr == p.addr {
      assert SlotAddr(p, 0) == addr;
    }
  }

  // ---------------------------------------------------------------------
  // Type names
  // ---------------------------------------------------------------------

  /** param_type_to_string, as written: the 64-bit unsigned type is "uint65_t". */
  function TypeName(t: ParamType): (r: string)
    ensures t.Unknown? <==> r == []
  {
    match t
    case Bool => "bool"
    case Uint8 => "uint8_t"
    case Uint16 => "uint16_t"
    case Uint32 => "uint32_t"
    case Uint64 => "uint65_t"
    case Int8 => "int8_t"
    case Int16 => "int16_t"
    case Int32 => "int32_t"
    case Int64 => "int64_t"
    case X8 => "uint8_t"
    case X16 => "uint16_t"
    case X32 => "uint32_t"
    case X64 => "uint64_t"
    case Float => "float"
    case Double => "double"
    case String => "char"
    case Data => "char"
    case Unknown(_) => ""
  }

  /** param_type_to_string with the 64-bit unsigned name spelt as the C type. */
  function TypeNameCorrected(t: ParamType): (r: string)
    ensures t.Unknown? <==> r == []
  {
    if t == Uint64 then "uint64_t" else TypeName(t)
  }

  /** The hexadecimal types are stored as the unsigned type of their width. */
  predicate SameStorage(x: ParamType, u: ParamType)
  {
    (x, u) in {(X8, Uint8), (X16, Uint16), (X32, Uint32), (X64, Uint64)}
  }

  /** As written, the 64-bit pair breaks the rule the narrower pairs keep. */
  lemma TypeNameAsWrittenSplitsWidth64()
    ensures TypeName(X8) == TypeName(Uint8) && TypeName(X16) == TypeName(Uint16)
    ensures TypeName(X32) == TypeName(Uint32)
    ensures TypeName(X64) != TypeName(Uint64)
  {
    assert TypeName(X64)[5] != TypeName(Uint64)[5];
  }

  /** Corrected, a hexadecimal type and its unsigned twin always share a name. */
  lemma TypeNameCorrectedSharesStorage(x: ParamType, u: ParamType)
    requires SameStorage(x, u)
    ensures TypeNameCorrected(x) == TypeNameCorrected(u)
  {
  }

  // ---------------------------------------------------------------------
  // Values as text
  // ---------------------------------------------------------------------

  const TRUE_TEXT: string := "true"
  const FALSE_TEXT: string := "false"

  /** param_bool_from_string: yes/true/1 is 1, no/false/0 is 0, anything else fails. */
  function ParseBool(s: string): (r: Option<byte>)
    ensures r == Some(1) <==> s in {"yes", TRUE_TEXT, "1"}
    ensures r == Some(0) <==> s in {"no", FALSE_TEXT, "0"}
    ensures r.Some? ==> r.value <= 1
  {
    if s == "yes" || s == TRUE_TEXT || s == "1" then Some(1)
    else if s == "no" || s == FALSE_TEXT || s == "0" then Some(0)
    else None
  }

  /** What param_to_string prints for a BOOL. */
  function BoolText(b: byte): string
  {
    if b != 0 then TRUE_TEXT else FALSE_TEXT
  }

  /** A printed boolean parses back to its truth value. */
  lemma BoolRoundTrip(b: byte)
    ensures ParseBool(BoolText(b)) == Some(if b != 0 then 1 else 0)
  {
    assert TRUE_TEXT != FALSE_TEXT by { assert |TRUE_TEXT| != |FALSE_TEXT|; }
  }

  /** to_int in the DATA path: a hex digit's value, else (unsigned) -1. */
  function HexValue(c: char): (v: nat)
    ensures v < 16 || v == U32 - 1
  {
    if '0' <= c <= '9' then c as int - '0' as int
    else if 'A' <= c <= 'F' then 10 + c as int - 'A' as int
    else if 'a' <= c <= 'f' then 10 + c as int - 'a' as int
    else U32 - 1
  }

  /** The byte stored for a pair of characters: 16*hi + lo, cut to 8 bits. */
  function PairByte(hi: char, lo: char): byte
  {
    (16 * HexValue(hi) + HexValue(lo)) % 0x100
  }

  /** The buffer the DATA path leaves: decoded pairs, then zeros. */
  function DataBytes(s: string, size: nat): (r: seq<byte>)
    ensures |r| == size
    ensures forall i :: 0 <= i < size ==>
              r[i] == if i < |s| / 2 then PairByte(s[2 * i], s[2 * i + 1]) else 0
  {
    seq(size, i requires 0 <= i < size => if i < |s| / 2 then PairByte(s[2 * i], s[2 * i + 1]) else 0)
  }

  /** The buffer the STRING path leaves: size bytes copied from the text, NUL past its end. */
  function CopiedBytes(s: string, size: nat): (r: seq<byte>)
    ensures |r| == size
    ensures forall i :: 0 <= i < size && i < |s| ==> r[i] == s[i] as int % 0x100
    ensures forall i :: |s| <= i < size ==> r[i] == 0
  {
    seq(size, i requires 0 <= i < size => if i < |s| then s[i] as int % 0x100 else 0)
  }

  /** "%02X" of one byte. */
  function HexByte(b: byte): (r: string)
    ensures |r| == 2
  {
    [DigitChar(b / 16), DigitChar(b % 16)]
  }

  /** The DATA rendering: two upper-case hex digits per byte. */
  function HexText(bs: seq<byte>): (r: string)
    ensures |r| == 2 * |bs|
  {
    if bs == [] then [] else HexByte(bs[0]) + HexText(bs[1..])
  }

  lemma {:induction false} HexTextDigits(bs: seq<byte>)
    ensures forall i :: 0 <= i < |bs| ==>
              HexText(bs)[2 * i] == DigitChar(bs[i] / 16) && HexText(bs)[2 * i + 1] == DigitChar(bs[i] % 16)
  {
    if bs != [] {
      HexTextDigits(bs[1..]);
      var t := HexText(bs);
      assert t == HexByte(bs[0]) + HexText(bs[1..]);
      forall i | 0 <= i < |bs|
        ensures t[2 * i] == DigitChar(bs[i] / 16) && t[2 * i + 1] == DigitChar(bs[i] % 16)
      {
        if i > 0 {
          assert t[2 * i] == HexText(bs[1..])[2 * (i - 1)];
          assert t[2 * i + 1] == HexText(bs[1..])[2 * (i - 1) + 1];
        }
      }
    }
  }

  lemma HexDigitValue(d: nat)
    requires d < 16
    ensures HexValue(DigitChar(d)) == d
  {
  }

  /** A byte's two hex digits decode back to it. */
  lemma PairOfHexByte(b: byte)
    ensures PairByte(HexByte(b)[0], HexByte(b)[1]) == b
  {
    HexDigitValue(b / 16);
    HexDigitValue(b % 16);
    assert 16 * (b / 16) + b % 16 == b;
  }

  /** Parsing a printed DATA value gives back the bytes. */
  lemma DataRoundTrip(bs: seq<byte>)
    ensures DataBytes(HexText(bs), |bs|) == bs
  {
    var t := HexText(bs);
    var r := DataBytes(t, |bs|);
    HexTextDigits(bs);
    forall i | 0 <= i < |bs|
      ensures r[i] == bs[i]
    {
      assert r[i] == PairByte(t[2 * i], t[2 * i + 1]);
      PairOfHexByte(bs[i]);
    }
  }

  /** A text shorter than the value leaves the trailing bytes zero. */
  lemma DataShortTextZeroFills(s: string, size: nat, i: nat)
    requires |s| / 2 <= i < size
    ensures DataBytes(s, size)[i] == 0
  {
  }

  /** Integer types stored as their unsigned twin print in hexadecimal. */
  predicate IsHex(t: ParamType)
  {
    t in {X8, X16, X32, X64}
  }

  /** Digits "%0<w>X" pads to, for the hexadecimal types. */
  function HexDigits(t: ParamType): nat
  {
    match t
    case X8 => 2
    case X16 => 4
    case X32 => 8
    case _ => 16
  }

  /** A value to render: the integer, the flag byte, the characters, the raw bytes, or the "%f" text. */
  datatype Value = Number(n: int) | Flag(b: byte) | Chars(s: string) | Raw(bs: seq<byte>) | Real(text: string)

  /** The type-tag prefix of `with_type == 1`; nothing for an unknown type. */
  function Tag(t: ParamType): (r: string)
    ensures t.Unknown? <==> r == []
    ensures !t.Unknown? ==> |r| == 4 && r[3] == ' '
  {
    match t
    case Bool => "BL  "
    case Uint8 => "U8  "
    case Uint16 => "U16 "
    case Uint32 => "U32 "
    case Uint64 => "U64 "
    case Int8 => "I8  "
    case Int16 => "I16 "
    case Int32 => "I32 "
    case Int64 => "I64 "
    case X8 => "X8  "
    case X16 => "X16 "
    case X32 => "X32 "
    case X64 => "X64 "
    case Float => "FLT "
    case Double => "DBL "
    case String => "STR "
    case Data => "DAT "
    case Unknown(_) => ""
  }

  /**
   * The pieces param_to_string prints after the tag, one per printf call:
   * a single piece for every type but DATA, which prints each byte as its
   * own piece. A value of the wrong kind prints as 0, false or nothing.
   */
  function ValuePieces(t: ParamType, v: Value, withType: int): (r: seq<string>)
    ensures t.Unknown? ==> r == []
    ensures t == Data ==> |r| == (if v.Raw? then |v.bs| else 0)
    ensures !t.Unknown? && t != Data ==> |r| == 1
  {
    var n := if v.Number? then v.n else 0;
    match t
    case Bool => [BoolText(if v.Flag? then v.b else 0)]
    case Uint8 => [SignedDecimal(n)]
    case Uint16 => [SignedDecimal(n)]
    case Uint32 => [SignedDecimal(n)]
    case Uint64 => [SignedDecimal(n)]
    case Int8 => [SignedDecimal(n)]
    case Int16 => [SignedDecimal(n)]
    case Int32 => [SignedDecimal(n)]
    case Int64 => [SignedDecimal(n)]
    case Float => [if v.Real? then v.text else []]
    case Double => [if v.Real? then v.text else []]
    case String => ["\"" + (if v.Chars? then v.s else []) + "\""]
    case Data => if v.Raw? then seq(|v.bs|, i requires 0 <= i < |v.bs| => HexByte(v.bs[i])) else []
    case Unknown(_) => []
    case _ =>
      if withType == 2 then [SignedDecimal(n)]
      else ["0x" + (if n >= 0 then HexPadded(n, HexDigits(t)) else [])]
  }

  function Concat(pieces: seq<string>): (r: string)
    ensures |r| == Length(pieces)
  {
    if pieces == [] then [] else pieces[0] + Concat(pieces[1..])
  }

  function Length(pieces: seq<string>): nat
  {
    if pieces == [] then 0 else |pieces[0]| + Length(pieces[1..])
  }

  /** The whole text param_to_string means to produce. */
  function Rendered(t: ParamType, v: Value, withType: int): string
  {
    (if withType == 1 then Tag(t) else []) + Concat(ValuePieces(t, v, withType))
  }

  /**
   * With the type requested, the rendering of a known type starts with its
   * four-character tag; hexadecimal types print "0x" and zero-padded
   * digits unless with_type is 2, which prints them in decimal.
   */
  lemma RenderedShape(t: ParamType, v: Value, withType: int)
    ensures withType == 1 && !t.Unknown? ==> Rendered(t, v, withType)[..4] == Tag(t)
    ensures IsHex(t) && v.Number? && v.n >= 0 ==>
              Rendered(t, v, withType) ==
                (if withType == 1 then Tag(t) else []) +
                (if withType == 2 then SignedDecimal(v.n) else "0x" + HexPadded(v.n, HexDigits(t)))
  {
    var ps := ValuePieces(t, v, withType);
    if IsHex(t) {
      assert |ps| == 1;
      assert Concat(ps) == ps[0] + Concat(ps[1..]);
      assert Concat(ps[1..]) == [];
    }
  }

  /**
   * How far one snprintf(&buf[at], n, piece) reaches (one past its last
   * byte, terminator included; 0 when it writes nothing). A negative n
   * converts to a huge size_t, so nothing stops that write.
   */
  function SnprintfReach(at: nat, n: int, piece: string): nat
  {
    if n > 0 then at + MinMax.Min(|piece|, n - 1) + 1
    else if n == 0 then 0
    else at + |piece| + 1
  }

  /**
   * The furthest byte the value pieces reach as written: each snprintf is
   * bounded by max_size - size where size counts the full length of every
   * earlier piece, truncated or not.
   */
  function ReachAsWritten(pieces: seq<string>, size: nat, maxSize: int): nat
  {
    if pieces == [] then 0
    else MinMax.Max(SnprintfReach(size, maxSize - size, pieces[0]),
             ReachAsWritten(pieces[1..], size + |pieces[0]|, maxSize))
  }

  /** The same writes with each bound clamped at 0 once the buffer is full. */
  function ReachBounded(pieces: seq<string>, size: nat, maxSize: int): nat
  {
    if pieces == [] then 0
    else MinMax.Max(SnprintfReach(size, MinMax.Max(maxSize - size, 0), pieces[0]),
             ReachBounded(pieces[1..], size + |pieces[0]|, maxSize))
  }

  /** Clamped bounds never write past max_size. */
  lemma {:induction false} ReachBoundedWithinBuffer(pieces: seq<string>, size: nat, maxSize: int)
    requires maxSize >= 0
    ensures ReachBounded(pieces, size, maxSize) <= MinMax.Max(maxSize, 0)
  {
    if pieces != [] {
      ReachBoundedWithinBuffer(pieces[1..], size + |pieces[0]|, maxSize);
    }
  }

  /** As written, a piece that starts past the end is written whole past the end. */
  lemma {:induction false} ReachAsWrittenOverruns(pieces: seq<string>, size: nat, maxSize: int, k: nat)
    requires k < |pieces| && size + Length(pieces[..k]) > maxSize
    ensures ReachAsWritten(pieces, size, maxSize) > maxSize
  {
    if k == 0 {
    } else {
      assert pieces[..k] == [pieces[0]] + pieces[1..][..k - 1];
      assert Length(pieces[..k]) == |pieces[0]| + Length(pieces[1..][..k - 1]);
      ReachAsWrittenOverruns(pieces[1..], size + |pieces[0]|, maxSize, k - 1);
    }
  }

  lemma {:induction false} HexPiecesLength(bs: seq<byte>, k: nat)
    requires k <= |bs|
    ensures Length(seq(|bs|, i requires 0 <= i < |bs| => HexByte(bs[i]))[..k]) == 2 * k
  {
    if k > 0 {
      var ps := seq(|bs|, i requires 0 <= i < |bs| => HexByte(bs[i]));
      HexPiecesLength(bs[1..], k - 1);
      assert ps[..k] == [ps[0]] + seq(|bs[1..]|, i requires 0 <= i < |bs[1..]| => HexByte(bs[1..][i]))[..k - 1];
    }
  }

  /**
   * param_list_single renders each element with its tag into a 100-byte
   * buffer: a DATA element of 50 bytes or more is written past the end.
   */
  lemma DataListingOverrun(bs: seq<byte>)
    requires |bs| >= 50
    ensures ReachAsWritten(ValuePieces(Data, Raw(bs), 1), |Tag(Data)|, 100) > 100
    ensures ReachBounded(ValuePieces(Data, Raw(bs), 1), |Tag(Data)|, 100) <= 100
  {
    var ps := ValuePieces(Data, Raw(bs), 1);
    HexPiecesLength(bs, 49);
    ReachAsWrittenOverruns(ps, |Tag(Data)|, 100, 49);
    ReachBoundedWithinBuffer(ps, |Tag(Data)|, 100);
  }

  /**
   * param_to_string's running size: the tag, then every piece's full
   * length, truncated or not; the result is the length of the whole
   * rendering whatever max_size is.
   */
  method RenderedSize(t: ParamType, v: Value, withType: int) returns (size: nat)
    ensures size == |Rendered(t, v, withType)|
  {
    size := 0;
    if withType == 1 {
      size := size + |Tag(t)|;
    }
    var pieces := ValuePieces(t, v, withType);
    ghost var total := |Rendered(t, v, withType)|;
    assert size + Length(pieces) == total;
    var i := 0;
    assert pieces[i..] == pieces;
    while i < |pieces|
      invariant i <= |pieces|
      invariant size + Length(pieces[i..]) == total
    {
      assert pieces[i..][1..] == pieces[i + 1..];
      size := size + |pieces[i]|;
      i := i + 1;
    }
  }

  /**
   * param_from_string into a buffer of PARAM_SIZE bytes. BOOL writes one
   * byte or fails leaving the buffer alone; STRING copies PARAM_SIZE bytes;
   * DATA zero-fills and decodes hex pairs; an unknown type fails. The
   * numeric types go through sscanf, which is not part of this model:
   * they succeed.
   */
  method FromString(p: Param, s: string, buf: array<byte>) returns (r: int)
    requires buf.Length >= p.size
    requires p.ptype == Bool ==> buf.Length >= 1
    modifies buf
    ensures p.ptype == Bool && ParseBool(s).Some? ==> r == 0 && buf[..] == old(buf[..])[0 := ParseBool(s).value]
    ensures p.ptype == Bool && ParseBool(s).None? ==> r == -1 && buf[..] == old(buf[..])
    ensures p.ptype == String ==> r == 0 && buf[..p.size] == CopiedBytes(s, p.size) && buf[p.size..] == old(buf[p.size..])
    ensures p.ptype == Data ==> r == 0 && buf[..p.size] == DataBytes(s, p.size) && buf[p.size..] == old(buf[p.size..])
    ensures p.ptype.Unknown? ==> r == -1 && buf[..] == old(buf[..])
    ensures !p.ptype.Unknown? && p.ptype !in {Bool, String, Data} ==> r == 0
  {
    match p.ptype
    case Bool =>
      var v := ParseBool(s);
      if v.None? {
        return -1;
      }
      buf[0] := v.value;
      return 0;
    case String =>
      var i := 0;
      while i < p.size
        invariant i <= p.size
        invariant buf[..i] == CopiedBytes(s, p.size)[..i]
        invariant buf[p.size..] == old(buf[p.size..])
      {
        buf[i] := if i < |s| then s[i] as int % 0x100 else 0;
        i := i + 1;
      }
      return 0;
    case Data =>
      DecodeData(s, buf, p.size);
      return 0;
    case Unknown(_) =>
      return -1;
    case _ =>
      return 0;
  }

  /** The DATA path: memset, then one byte per pair of characters. */
  method DecodeData(s: string, buf: array<byte>, size: nat)
    requires buf.Length >= size
    modifies buf
    ensures buf[..size] == DataBytes(s, size) && buf[size..] == old(buf[size..])
  {
    var i := 0;
    while i < size
      invariant i <= size
      invariant forall k :: 0 <= k < i ==> buf[k] == 0
      invariant buf[size..] == old(buf[size..])
    {
      buf[i] := 0;
      i := i + 1;
    }
    var len := |s| / 2;
    i := 0;
    while i < len && i < size
      invariant i <= size
      invariant forall k :: 0 <= k < size ==> buf[k] == (if k < i then DataBytes(s, size)[k] else 0)
      invariant buf[size..] == old(buf[size..])
    {
      buf[i] := PairByte(s[2 * i], s[2 * i + 1]);
      i := i + 1;
    }
  }
}
