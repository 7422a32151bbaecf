/**
 * The remote-parameter client (lib/libparam/src/rparam_client.c): the
 * query buffer that `rparam get` fills with element addresses, the
 * copy/save/load/clear commands, the byte-order autodetection applied to
 * a downloaded table specification, and the checks on single-value
 * replies.
 *
 * The CSP link is abstract: a transaction's outcome is an input. The
 * numeric action and reply codes, RPARAM_QUERY_MAX_LEN and the memory
 * read of param_read_addr are parameters.
 */
module RemoteParam {
  import opened Common
  import ParamTable

  type Param = ParamTable.Param

  /** The actions a query can carry. */
  datatype Action = Get | Reply | Set | Table | Copy | Load | Save | Clear | OtherAction(code: byte)

  /** A 16-bit field: the C assignment keeps the low 16 bits. */
  function Wrap16(x: int): u16
  {
    x % 0x1_0000
  }

  /** The address of element i of p, as the 16-bit query slot stores it. */
  function ElementAddr(p: Param, i: int): u16
  {
    Wrap16(p.addr + p.size * i)
  }

  /** The addresses of elements from, from+1, ..., from+n-1 of p. */
  function ElementAddrs(p: Param, from: nat, n: nat): (r: seq<u16>)
    ensures |r| == n
    ensures forall k :: 0 <= k < n ==> r[k] == ElementAddr(p, from + k)
  {
    seq<u16>(n, k requires 0 <= k < n => ElementAddr(p, from + k))
  }

  /**
   * How many of `want` appends of `cost` bytes each fit, one after
   * another, into a budget of maxLen of which `used` is spent.
   */
  function Room(used: int, cost: nat, maxLen: int, want: nat): (k: nat)
    ensures k <= want
    decreases want
  {
    if want == 0 || used + cost > maxLen then 0
    else 1 + Room(used + cost, cost, maxLen, want - 1)
  }

  /** The appends that fit never overspend the budget. */
  lemma {:induction false} RoomWithinBudget(used: int, cost: nat, maxLen: int, want: nat)
    requires used <= maxLen
    ensures used + Room(used, cost, maxLen, want) * cost <= maxLen
    decreases want
  {
    if want > 0 && used + cost <= maxLen {
      RoomWithinBudget(used + cost, cost, maxLen, want - 1);
    }
  }

  /** When not all appends fit, one more would overspend the budget. */
  lemma {:induction false} RoomIsMaximal(used: int, cost: nat, maxLen: int, want: nat)
    requires Room(used, cost, maxLen, want) < want
    ensures used + (Room(used, cost, maxLen, want) + 1) * cost > maxLen
    decreases want
  {
    if used + cost <= maxLen {
      RoomIsMaximal(used + cost, cost, maxLen, want - 1);
    }
  }

  /**
   * The "%[^[][%d]" split of a name such as "gain[3]": the text before the
   * first '[' and the index that follows it (-1 when there is none). A
   * name starting with '[' matches nothing: the name is empty and the
   * index stays -1. `scanInt` is what "%d" reads from the start of a text.
   */
  function SplitIndex(name: string, scanInt: string -> Option<int>): (r: (string, int))
    ensures r.0 <= name && '[' !in r.0
    ensures '[' !in name ==> r == (name, -1)
  {
    var k := RunLength(name, {'['});
    if k == |name| then (name, -1)
    else if k == 0 then ([], -1)
    else (name[..k], match scanInt(name[k + 1..]) case Some(n) => n case None => -1)
  }

  /** What rparam_query_get leaves behind: its result and the query's addresses and reply size. */
  datatype Listing = Listing(result: CmdResult, addrs: seq<u16>, getSize: int)

  /**
   * rparam_query_get on a table, from the addresses a0 and reply size g0
   * the query holds once a non-GET query has been reset. An unknown name is
   * INVALID; an index at or past the count fails, so a scalar cannot be
   * indexed. An explicit index lists one element if its size plus two fits
   * in the budget; otherwise every element is listed in turn until one does
   * not fit, which fails but keeps those already listed. Nothing is ever
   * removed, the budget is never overspent, and success lists something.
   */
  function GetListing(a0: seq<u16>, g0: int, maxLen: nat, table: seq<Param>, name: string,
                      same: (string, string) -> bool, scanInt: string -> Option<int>): (r: Listing)
    ensures a0 <= r.addrs
    ensures g0 <= maxLen ==> g0 <= r.getSize <= maxLen
    ensures r.result == CmdOk ==> |r.addrs| > |a0|
    ensures r.result in {CmdOk, CmdFail, CmdInvalid}
  {
    var (short, idx) := SplitIndex(name, scanInt);
    var found := ParamTable.FindName(Some(table), short, same);
    if found.None? then Listing(CmdInvalid, a0, g0)
    else
      var p := table[found.value];
      var cost := p.size + 2;
      if idx >= p.count then Listing(CmdFail, a0, g0)
      else if idx >= 0 then
        if g0 + cost > maxLen then Listing(CmdFail, a0, g0)
        else Listing(CmdOk, a0 + [ElementAddr(p, idx)], g0 + cost)
      else
        var k := Room(g0, cost, maxLen, ParamTable.Slots(p));
        assert g0 <= maxLen ==> g0 + k * cost <= maxLen by {
          if g0 <= maxLen { RoomWithinBudget(g0, cost, maxLen, ParamTable.Slots(p)); }
        }
        Listing(if k == ParamTable.Slots(p) then CmdOk else CmdFail, a0 + ElementAddrs(p, 0, k), g0 + k * cost)
  }

  /**
   * An explicit index on a scalar entry (count 0) is always refused: the
   * query is left as the reset made it.
   */
  lemma IndexingScalarFails(a0: seq<u16>, g0: int, maxLen: nat, table: seq<Param>, name: string,
                            same: (string, string) -> bool, scanInt: string -> Option<int>)
    requires ParamTable.FindName(Some(table), SplitIndex(name, scanInt).0, same).Some?
    requires table[ParamTable.FindName(Some(table), SplitIndex(name, scanInt).0, same).value].count == 0
    requires SplitIndex(name, scanInt).1 >= 0
    ensures GetListing(a0, g0, maxLen, table, name, same, scanInt) == Listing(CmdFail, a0, g0)
  {
  }

  /**
   * The query being built by `rparam get`: its action, the element
   * addresses listed so far (query->addr, whose byte length is
   * query->length) and the bytes of reply they will cost (query_get_size)
   * against the budget maxLen (RPARAM_QUERY_MAX_LEN).
   */
  class Query {
    var action: Action
    var addrs: seq<u16>
    var getSize: int
    const maxLen: nat

    /** Every listed address was paid for with at least two bytes of budget. */
    ghost predicate Valid()
      reads this
    {
      2 * |addrs| <= getSize <= maxLen
    }

    /** The zero-initialised buffer holds a GET query with nothing listed. */
    constructor(maxLen: nat)
      ensures this.maxLen == maxLen
      ensures action == Get && addrs == [] && getSize == 0
      ensures Valid()
    {
      this.maxLen := maxLen;
      action := Get;
      addrs := [];
      getSize := 0;
    }

    /** rparam_query_reset */
    method Reset()
      modifies this`action, this`addrs, this`getSize
      ensures action == Get && addrs == [] && getSize == 0
      ensures Valid()
    {
      action := Get;
      addrs := [];
      getSize := 0;
    }

    /** rparam_query_is_set: the query's length in bytes, non-zero once anything is listed. */
    method IsSet() returns (length: nat)
      ensures length == 2 * |addrs|
      ensures length == 0 <==> addrs == []
    {
      length := 2 * |addrs|;
    }

    /**
     * rparam_query_get. With no table it fails and changes nothing. A
     * query that is not a GET is first reset. An unknown name is INVALID;
     * an index at or past the count fails, so a scalar cannot be indexed.
     * An explicit index lists one element if its size plus two fits in the
     * budget; otherwise every element is listed in turn until one does not
     * fit, which fails but keeps those already listed.
     */
    method QueryGet(table: Option<seq<Param>>, name: string,
                    same: (string, string) -> bool, scanInt: string -> Option<int>) returns (r: CmdResult)
      requires Valid()
      modifies this`action, this`addrs, this`getSize
      ensures Valid()
      ensures table.None? ==> r == CmdFail && action == old(action) && addrs == old(addrs) && getSize == old(getSize)
      ensures table.Some? ==> action == Get
      ensures table.Some? ==>
        var (a0, g0) := if old(action) == Get then (old(addrs), old(getSize)) else ([], 0);
        Listing(r, addrs, getSize) == GetListing(a0, g0, maxLen, table.value, name, same, scanInt)
    {
      if table.None? {
        return CmdFail;
      }
      if action != Get {
        addrs := [];
        action := Get;
        getSize := 0;
      }
      var split := SplitIndex(name, scanInt);
      var short, idx := split.0, split.1;
      var found := ParamTable.LookupName(table, short, same);
      if found.None? {
        return CmdInvalid;
      }
      var p := table.value[found.value];
      if idx >= p.count {
        return CmdFail;
      }
      if idx >= 0 {
        if getSize + p.size + 2 > maxLen {
          return CmdFail;
        }
        addrs := addrs + [ElementAddr(p, idx)];
        getSize := getSize + p.size + 2;
        return CmdOk;
      }
      r := AppendAll(p);
    }

    /** The loop over every element of p, each paid for before it is listed. */
    method AppendAll(p: Param) returns (r: CmdResult)
      requires Valid()
      modifies this`addrs, this`getSize
      ensures Valid()
      ensures
        var cost := p.size + 2;
        var k := Room(old(getSize), cost, maxLen, ParamTable.Slots(p));
        addrs == old(addrs) + ElementAddrs(p, 0, k) && getSize == old(getSize) + k * cost &&
        (r == CmdOk <==> k == ParamTable.Slots(p)) && (r == CmdOk || r == CmdFail)
    {
      var count := if p.count == 0 then 1 else p.count;
      var cost := p.size + 2;
      ghost var a0, g0 := addrs, getSize;
      ghost var k := Room(g0, cost, maxLen, count);
      var i := 0;
      while i < count
        invariant i <= count
        invariant Room(g0, cost, maxLen, count) == i + Room(getSize, cost, maxLen, count - i)
        invariant addrs == a0 + ElementAddrs(p, 0, i) && getSize == g0 + i * cost
        invariant 2 * |addrs| <= getSize <= maxLen
      {
        if getSize + cost > maxLen {
          return CmdFail;
        }
        assert ElementAddrs(p, 0, i + 1) == ElementAddrs(p, 0, i) + [ElementAddr(p, i)];
        assert (i + 1) * cost == i * cost + cost;
        addrs := addrs + [ElementAddr(p, i)];
        getSize := getSize + cost;
        i := i + 1;
      }
      return CmdOk;
    }
  }

  // ---------------------------------------------------------------------
  // Table commands
  // ---------------------------------------------------------------------

  /** The one-packet query rparam_command sends. */
  datatype CommandQuery = CommandQuery(action: Action, mem: byte, from: byte, to: byte, clearId: byte)

  /** What rparam_command sent, if anything, and what it returned. */
  datatype CommandOutcome = CommandOutcome(sent: Option<CommandQuery>, ret: int)

  predicate IsTableCommand(a: Action)
  {
    a in {Copy, Save, Load, Clear}
  }

  /**
   * rparam_command. Only COPY, SAVE, LOAD and CLEAR are sent (COPY, SAVE
   * and LOAD carry from/to, CLEAR carries its id in `from`). A failed
   * transaction (`reply` None) returns 0; otherwise the reply byte must
   * equal the action's OK code (`ok`) for 1.
   */
  function Command(action: Action, from: byte, to: byte, reply: Option<byte>, ok: Action -> byte): (r: CommandOutcome)
    ensures r.sent.Some? <==> IsTableCommand(action)
    ensures r.sent.Some? ==> r.sent.value.action == action && r.sent.value.mem == from
    ensures r.sent.Some? && action != Clear ==> r.sent.value.from == from && r.sent.value.to == to
    ensures r.sent.Some? && action == Clear ==> r.sent.value.clearId == from
    ensures r.ret == 1 <==> IsTableCommand(action) && reply == Some(ok(action))
    ensures r.ret == 0 || r.ret == 1
  {
    if !IsTableCommand(action) then CommandOutcome(None, 0)
    else
      var q := if action == Clear then CommandQuery(action, from, 0, 0, from)
               else CommandQuery(action, from, from, to, 0);
      if reply.None? then CommandOutcome(Some(q), 0)
      else if reply.value == ok(action) then CommandOutcome(Some(q), 1)
      else CommandOutcome(Some(q), 0)
  }

  /** rparam_clear sends CLEAR with the table id; rparam_copy sends COPY from/to. */
  lemma CommandWrappers(from: byte, to: byte, id: byte, reply: Option<byte>, ok: Action -> byte)
    ensures Command(Clear, id, 0, reply, ok).sent == Some(CommandQuery(Clear, id, 0, 0, id))
    ensures Command(Copy, from, to, reply, ok).sent == Some(CommandQuery(Copy, from, from, to, 0))
    ensures Command(Copy, from, to, Some(ok(Copy)), ok).ret == 1
  {
  }

  // ---------------------------------------------------------------------
  // Byte-order autodetection
  // ---------------------------------------------------------------------

  /** The two bytes of an address exchanged. */
  function Swap(a: u16): (r: u16)
    ensures r / 0x100 == a % 0x100 && r % 0x100 == a / 0x100
  {
    (a % 0x100) * 0x100 + a / 0x100
  }

  lemma SwapInvolution(a: u16)
    ensures Swap(Swap(a)) == a
  {
  }

  /** The sum of the high bytes of the addresses. */
  function HighSum(t: seq<Param>): nat
  {
    if t == [] then 0 else HighSum(t[..|t| - 1]) + t[|t| - 1].addr / 0x100
  }

  /** The sum of the low bytes of the addresses. */
  function LowSum(t: seq<Param>): nat
  {
    if t == [] then 0 else LowSum(t[..|t| - 1]) + t[|t| - 1].addr % 0x100
  }

  function SwapAll(t: seq<Param>): (r: seq<Param>)
    ensures |r| == |t|
    ensures forall i :: 0 <= i < |t| ==> r[i] == t[i].(addr := Swap(t[i].addr))
  {
    seq(|t|, i requires 0 <= i < |t| => t[i].(addr := Swap(t[i].addr)))
  }

  /**
   * The table after autodetection: every address swapped exactly when the
   * high bytes add up to more than the low bytes.
   */
  function EndianFixed(t: seq<Param>): seq<Param>
  {
    if HighSum(t) > LowSum(t) then SwapAll(t) else t
  }

  /** Swapping every address exchanges the two sums. */
  lemma {:induction false} SwapAllExchangesSums(t: seq<Param>)
    ensures HighSum(SwapAll(t)) == LowSum(t) && LowSum(SwapAll(t)) == HighSum(t)
  {
    if t != [] {
      var n := |t| - 1;
      assert SwapAll(t)[..n] == SwapAll(t[..n]);
      SwapAllExchangesSums(t[..n]);
    }
  }

  /** Swapping twice restores the table. */
  lemma SwapAllInvolution(t: seq<Param>)
    ensures SwapAll(SwapAll(t)) == t
  {
    forall i | 0 <= i < |t|
      ensures SwapAll(SwapAll(t))[i] == t[i]
    {
      SwapInvolution(t[i].addr);
    }
  }

  /** A fixed table is left alone by a second autodetection. */
  lemma EndianFixIdempotent(t: seq<Param>)
    ensures EndianFixed(EndianFixed(t)) == EndianFixed(t)
    ensures HighSum(EndianFixed(t)) <= LowSum(EndianFixed(t))
  {
    SwapAllExchangesSums(t);
  }

  /** The autodetection only ever changes addresses. */
  lemma EndianFixKeepsEntries(t: seq<Param>, i: nat)
    requires i < |t|
    ensures |EndianFixed(t)| == |t|
    ensures EndianFixed(t)[i] == t[i].(addr := EndianFixed(t)[i].addr)
  {
  }

  /**
   * The two loops of the download: sum the address bytes of the first
   * `count` entries (the table's length cut to a uint8_t), then swap those
   * entries' addresses in place when the high bytes dominate. Returns the
   * count the index then records.
   */
  method FixEndian(table: array<Param>) returns (count: byte)
    modifies table
    ensures count == table.Length % 0x100
    ensures table[..count] == EndianFixed(old(table[..count]))
    ensures table[count..] == old(table[count..])
  {
    count := table.Length % 0x100;
    ghost var t := table[..count];
    var sumFirst, sumLast := AddressSums(table, count);
    if sumFirst > sumLast {
      var i := 0;
      while i < count
        invariant i <= count
        invariant forall k :: 0 <= k < i ==> table[k] == t[k].(addr := Swap(t[k].addr))
        invariant forall k :: i <= k < table.Length ==> table[k] == old(table[k])
      {
        table[i] := table[i].(addr := Swap(table[i].addr));
        i := i + 1;
      }
    }
  }

  /** The first loop of the autodetection: the two byte sums over the first count entries. */
  method AddressSums(table: array<Param>, count: nat) returns (high: nat, low: nat)
    requires count <= table.Length
    ensures high == HighSum(table[..count]) && low == LowSum(table[..count])
  {
    high, low := 0, 0;
    var i := 0;
    while i < count
      invariant i <= count
      invariant high == HighSum(table[..i]) && low == LowSum(table[..i])
    {
      assert table[..i + 1][..i] == table[..i];
      high := high + table[i].addr / 0x100;
      low := low + table[i].addr % 0x100;
      i := i + 1;
    }
  }

  // ---------------------------------------------------------------------
  // Single values
  // ---------------------------------------------------------------------

  /**
   * A reply to a one-address GET: the length field (host order) and the
   * packed area, which holds the big-endian address and then the value.
   */
  datatype SingleReply = SingleReply(length: u16, packed: seq<byte>)

  function BigEndian16(hi: byte, lo: byte): u16
  {
    hi * 0x100 + lo
  }

  /**
   * rparam_get_single's checks: no reply, a length other than 2 + size or
   * an echoed address other than the one asked for gives -1 (None);
   * otherwise the size bytes after the address, put into host order by
   * `betoh` (param_betoh for the entry's type).
   */
  function GetSingle(addr: u16, size: nat, reply: Option<SingleReply>, betoh: seq<byte> -> seq<byte>)
    : (r: Option<seq<byte>>)
    requires reply.Some? ==> |reply.value.packed| == 2 + size
    ensures r.Some? <==> reply.Some? && reply.value.length == 2 + size &&
                         BigEndian16(reply.value.packed[0], reply.value.packed[1]) == addr
    ensures r.Some? ==> r.value == betoh(reply.value.packed[2..])
  {
    if reply.None? then None
    else if reply.value.length != 2 + size then None
    else if BigEndian16(reply.value.packed[0], reply.value.packed[1]) != addr then None
    else Some(betoh(reply.value.packed[2..]))
  }

  /** The reply a server builds for a GET of addr; value is already big-endian. */
  function ServerReply(addr: u16, value: seq<byte>): SingleReply
    requires |value| + 2 < 0x1_0000
  {
    SingleReply(2 + |value|, [addr / 0x100, addr % 0x100] + value)
  }

  /**
   * A well-formed reply is accepted and yields the value it carries in
   * host order: when the server wrote htobe(v), the caller gets v back.
   */
  lemma GetSingleAcceptsServerReply(addr: u16, v: seq<byte>, htobe: seq<byte> -> seq<byte>,
                                    betoh: seq<byte> -> seq<byte>)
    requires |htobe(v)| + 2 < 0x1_0000
    requires betoh(htobe(v)) == v
    ensures GetSingle(addr, |htobe(v)|, Some(ServerReply(addr, htobe(v))), betoh) == Some(v)
  {
    var p := ServerReply(addr, htobe(v)).packed;
    assert p[2..] == htobe(v);
  }

  /** A reply for another address is rejected. */
  lemma GetSingleRejectsOtherAddress(addr: u16, other: u16, value: seq<byte>, betoh: seq<byte> -> seq<byte>)
    requires |value| + 2 < 0x1_0000 && other != addr
    ensures GetSingle(addr, |value|, Some(ServerReply(other, value)), betoh).None?
  {
  }

  /** The outcome of rparam_query_get_value: its return code and what it copied out. */
  datatype ValueOutcome = ValueOutcome(code: int, value: seq<byte>)

  /**
   * rparam_query_get_value: -1 for an unknown name, -2 when the caller's
   * buffer is smaller than the entry's size, -3 when the memory read
   * gives nothing; otherwise 0 and the entry's size bytes. `read` stands
   * for param_read_addr at the element's address and offset.
   */
  function QueryGetValue(table: Option<seq<Param>>, name: string, same: (string, string) -> bool,
                         paramNo: u16, valSize: u16, read: (int, int) -> Option<seq<byte>>): (r: ValueOutcome)
    ensures r.code in {-1, -2, -3, 0}
    ensures r.code == -1 <==> ParamTable.FindName(table, name, same).None?
    ensures r.code == 0 ==>
              var p := table.value[ParamTable.FindName(table, name, same).value];
              p.size <= valSize &&
              read(p.addr + paramNo * p.size, paramNo * p.size).Some? &&
              r.value == Fit(read(p.addr + paramNo * p.size, paramNo * p.size).value, p.size)
    ensures r.code != 0 ==> r.value == []
  {
    var found := ParamTable.FindName(table, name, same);
    if found.None? then ValueOutcome(-1, [])
    else
      var p := table.value[found.value];
      if valSize < p.size then ValueOutcome(-2, [])
      else
        var bytes := read(p.addr + paramNo * p.size, paramNo * p.size);
        if bytes.None? then ValueOutcome(-3, [])
        else ValueOutcome(0, Fit(bytes.value, p.size))
  }

  /** The size check comes before the read: a short buffer is refused even where the read would fail. */
  lemma QueryGetValueChecksSizeFirst(table: Option<seq<Param>>, name: string, same: (string, string) -> bool,
                                     paramNo: u16, valSize: u16, read: (int, int) -> Option<seq<byte>>)
    requires ParamTable.FindName(table, name, same).Some?
    requires valSize < table.value[ParamTable.FindName(table, name, same).value].size
    ensures QueryGetValue(table, name, same, paramNo, valSize, read).code == -2
  {
  }
}
