/**
 * The remote-log client shell commands (lib/liblog/src/client/cmd_rlog.c).
 * `rlog list` picks a node, fetches its table of log groups and resets the
 * query masks; `rlog print`/`rlog store` ask the node to change one group's
 * mask; `rlog query` edits the level and group masks that select history;
 * `rlog hist` builds a history request and follows the replies.
 *
 * The CSP link is abstract: a transport failure is a `None` reply, and a
 * history conversation is the sequence of replies that arrive before the
 * link goes quiet. atoi is a parameter.
 */
module RemoteLog {
  import opened Common
  import LogHost

  const MAX_GROUPS: nat := 32
  const DEFAULT_PORT: int := 11
  /** Longest group name the client keeps (its buffers are 16 bytes). */
  const NAME_LIMIT: nat := 15
  const NSEC_SEC: nat := 1_000_000_000
  /**
   * A uint32 mask, as the set of its bit positions: `1 << i` is {i}, `|=`
   * is union and `&= ~` is difference.
   */
  type Mask = set<nat>

  /** The bits below n: (1 << n) - 1 for n < 32. */
  function Below(n: nat): (r: Mask)
    ensures forall i: nat :: i in r <==> i < n
  {
    if n == 0 then {} else Below(n - 1) + {n - 1}
  }

  /** 0x1F: the five level bits. */
  const LEVELS: Mask := {0, 1, 2, 3, 4}

  // ---------------------------------------------------------------------
  // Level letters
  // ---------------------------------------------------------------------

  /** The level a query token names by its first letter. */
  function LetterLevel(c: char): (r: Option<LogHost.Level>)
    ensures r.Some? <==> c in {'e', 'w', 'i', 'd', 't'}
    ensures r.Some? ==> LogHost.Word(LogHost.Named(r.value))[0] == c
  {
    match c
    case 'e' => Some(LogHost.Error)
    case 'w' => Some(LogHost.Warning)
    case 'i' => Some(LogHost.Info)
    case 'd' => Some(LogHost.Debug)
    case 't' => Some(LogHost.Trace)
    case _ => None
  }

  /**
   * string_to_mask: only the first character counts. A level letter gives
   * 0x1F, 0x1E, 0x1C, 0x18 or 0x10 for t, d, i, w, e; 's' is the standard
   * mask, 'a' all levels, 'n' none; anything else, the empty string
   * included, is -1.
   */
  function LetterMask(s: string, standard: Mask): (r: Option<Mask>)
    ensures r.None? <==> At(s, 0) !in {'t', 'd', 'i', 'w', 'e', 's', 'a', 'n'}
  {
    match At(s, 0)
    case 't' => Some({0, 1, 2, 3, 4})
    case 'd' => Some({1, 2, 3, 4})
    case 'i' => Some({2, 3, 4})
    case 'w' => Some({3, 4})
    case 'e' => Some({4})
    case 's' => Some(standard)
    case 'a' => Some(LEVELS)
    case 'n' => Some({})
    case _ => None
  }

  /**
   * A level letter selects that level and every level above it, which is
   * what the host parser makes of the unsigned level keyword.
   */
  lemma LetterMaskAgreesWithHost(s: string, l: LogHost.Level, standard: Mask)
    requires s != [] && s[0] == LogHost.Word(LogHost.Named(l))[0]
    ensures LetterMask(s, standard).Some?
    ensures forall m: LogHost.Level ::
              LogHost.Rank(m) in LetterMask(s, standard).value <==> LogHost.Rank(l) <= LogHost.Rank(m)
    ensures forall m: LogHost.Level ::
              LogHost.Rank(m) in LetterMask(s, standard).value <==>
              LogHost.Select(LogHost.Bit(l), LogHost.MaskSet) & LogHost.Bit(m) != 0
    ensures LetterMask(s, standard).value <= LEVELS
  {
    assert At(s, 0) == s[0];
    forall m: LogHost.Level
      ensures LogHost.Select(LogHost.Bit(l), LogHost.MaskSet) & LogHost.Bit(m) != 0 <==>
              LogHost.Rank(l) <= LogHost.Rank(m)
    {
      LogHost.SetSelectsLevelsAtOrAbove(l, m);
    }
  }

  // ---------------------------------------------------------------------
  // The group table
  // ---------------------------------------------------------------------

  /** The index of the first element of s equal to name. */
  function IndexOf(s: seq<string>, name: string): (r: Option<nat>)
    ensures r.Some? ==> r.value < |s| && s[r.value] == name &&
                        forall j :: 0 <= j < r.value ==> s[j] != name
    ensures r.None? ==> forall j :: 0 <= j < |s| ==> s[j] != name
  {
    if s == [] then None
    else if s[0] == name then Some(0)
    else match IndexOf(s[1..], name)
      case None => None
      case Some(k) => Some(k + 1)
  }

  /** rlog_group_index: the first of the first count names that equals name. */
  function GroupIndexOf(names: seq<string>, count: nat, name: string): (r: Option<nat>)
    ensures r.Some? ==> r.value < count && r.value < |names| && names[r.value] == name &&
                        forall j :: 0 <= j < r.value ==> names[j] != name
    ensures r.None? ==> forall j :: 0 <= j < count && j < |names| ==> names[j] != name
  {
    IndexOf(Prefix(names, count), name)
  }

  /** One group of an `rlog list` reply: its slot and the name bytes sent. */
  datatype GroupEntry = GroupEntry(idx: byte, name: string)

  predicate SlotsInRange(entries: seq<GroupEntry>)
  {
    forall k :: 0 <= k < |entries| ==> entries[k].idx < MAX_GROUPS
  }

  /** The name table after storing each entry's name, cut to NAME_LIMIT, in its slot. */
  function Stored(names: seq<string>, entries: seq<GroupEntry>): (r: seq<string>)
    requires SlotsInRange(entries)
    ensures |r| == |names|
  {
    if entries == [] then names
    else
      var e := entries[|entries| - 1];
      var before := Stored(names, entries[..|entries| - 1]);
      if e.idx < |before| then before[e.idx := Prefix(e.name, NAME_LIMIT)] else before
  }

  /** The group mask with the bit of every listed slot set. */
  function Enabled(entries: seq<GroupEntry>): Mask
  {
    if entries == [] then {}
    else Enabled(entries[..|entries| - 1]) + {entries[|entries| - 1].idx}
  }

  /** Exactly the listed slots are enabled. */
  lemma {:induction false} EnabledSlots(entries: seq<GroupEntry>)
    ensures forall i :: i in Enabled(entries) <==> exists k :: 0 <= k < |entries| && entries[k].idx == i
  {
    if entries != [] {
      var init := entries[..|entries| - 1];
      EnabledSlots(init);
      assert forall k :: 0 <= k < |init| ==> init[k] == entries[k];
      forall i | i in Enabled(entries)
        ensures exists k :: 0 <= k < |entries| && entries[k].idx == i
      {
        if i in Enabled(init) {
          var k :| 0 <= k < |init| && init[k].idx == i;
          assert entries[k].idx == i;
        } else {
          assert entries[|entries| - 1].idx == i;
        }
      }
    }
  }

  /**
   * What a slot holds after storing: the truncated name of the last entry
   * for that slot, or the old name if no entry names it.
   */
  lemma {:induction false} StoredSlot(names: seq<string>, entries: seq<GroupEntry>, i: nat)
    requires SlotsInRange(entries) && i < |names|
    ensures (forall k :: 0 <= k < |entries| ==> entries[k].idx != i) ==> Stored(names, entries)[i] == names[i]
    ensures entries != [] && entries[|entries| - 1].idx == i ==>
              Stored(names, entries)[i] == Prefix(entries[|entries| - 1].name, NAME_LIMIT)
  {
    if entries != [] {
      var init := entries[..|entries| - 1];
      StoredSlot(names, init, i);
      assert forall k :: 0 <= k < |init| ==> init[k] == entries[k];
    }
  }

  /** No stored name is longer than NAME_LIMIT if none was before. */
  lemma {:induction false} StoredNamesShort(names: seq<string>, entries: seq<GroupEntry>)
    requires SlotsInRange(entries)
    requires forall i :: 0 <= i < |names| ==> |names[i]| <= NAME_LIMIT
    ensures forall i :: 0 <= i < |names| ==> |Stored(names, entries)[i]| <= NAME_LIMIT
  {
    if entries != [] {
      StoredNamesShort(names, entries[..|entries| - 1]);
    }
  }

  // ---------------------------------------------------------------------
  // Query tokens: [+|-]letter for levels, [+|-]name for groups, a bare
  // sign for all or nothing.
  // ---------------------------------------------------------------------

  /** A token's action ('+' unless it starts with '-') and what follows the sign. */
  datatype Edit = Edit(enable: bool, rest: string)

  function Split(token: string): (e: Edit)
    ensures !e.enable <==> At(token, 0) == '-'
  {
    if At(token, 0) == '-' then Edit(false, token[1..])
    else if At(token, 0) == '+' then Edit(true, token[1..])
    else Edit(true, token)
  }

  /** The level query mask after one token. */
  function LevelEdit(mask: Mask, token: string): Mask
  {
    var e := Split(token);
    if token == [] then mask
    else if e.rest == [] then (if e.enable then LEVELS else {})
    else match LetterLevel(e.rest[0])
      case None => mask
      case Some(l) => if e.enable then mask + {LogHost.Rank(l)} else mask - {LogHost.Rank(l)}
  }

  /** The level query mask after the tokens, left to right. */
  function LevelEdits(mask: Mask, tokens: seq<string>): Mask
    decreases |tokens|
  {
    if tokens == [] then mask else LevelEdits(LevelEdit(mask, tokens[0]), tokens[1..])
  }

  /**
   * A token naming a level turns that level's bit on ('+' or no sign) or off
   * ('-') and keeps every other bit; a bare sign turns all five levels on or
   * off; a token whose first letter names no level changes nothing.
   */
  lemma LevelEditEffect(mask: Mask, token: string)
    requires token != []
    ensures var e := Split(token);
      e.rest != [] && LetterLevel(e.rest[0]).Some? ==>
        var k := LogHost.Rank(LetterLevel(e.rest[0]).value);
        forall i :: i in LevelEdit(mask, token) <==> if i == k then e.enable else i in mask
    ensures var e := Split(token);
      e.rest == [] ==> forall i: nat :: i in LevelEdit(mask, token) <==> e.enable && i < 5
    ensures var e := Split(token);
      e.rest != [] && LetterLevel(e.rest[0]).None? ==> LevelEdit(mask, token) == mask
  {
  }

  /** Repeating a level token changes nothing more. */
  lemma LevelEditIdempotent(mask: Mask, token: string)
    ensures LevelEdit(LevelEdit(mask, token), token) == LevelEdit(mask, token)
  {
  }

  /** Level edits never set a bit outside the five levels. */
  lemma {:induction false} LevelEditsStayInLevels(mask: Mask, tokens: seq<string>)
    requires mask <= LEVELS
    ensures LevelEdits(mask, tokens) <= LEVELS
    decreases |tokens|
  {
    if tokens != [] {
      LevelEditsStayInLevels(LevelEdit(mask, tokens[0]), tokens[1..]);
    }
  }

  /** Editing with a list is editing with its parts, one after the other. */
  lemma {:induction false} LevelEditsAppend(mask: Mask, a: seq<string>, b: seq<string>)
    ensures LevelEdits(mask, a + b) == LevelEdits(LevelEdits(mask, a), b)
    decreases |a|
  {
    if a == [] {
      assert a + b == b;
    } else {
      assert (a + b)[1..] == a[1..] + b;
      LevelEditsAppend(LevelEdit(mask, a[0]), a[1..], b);
    }
  }

  /**
   * (1 << n) - 1 on a target whose shift instruction takes its count modulo
   * 32, as x86 does: the bits below n % 32, so with 32 groups the shift
   * count wraps to 0 and the mask is empty.
   */
  function AllGroupsAsWritten(n: nat): Mask
    requires n <= MAX_GROUPS
  {
    Below(n % 32)
  }

  /** The mask of the first n groups. */
  function AllGroups(n: nat): (r: Mask)
    requires n <= MAX_GROUPS
    ensures forall i: nat :: i in r <==> i < n
  {
    Below(n)
  }

  /** For fewer than 32 groups the expression in the source is the intended one. */
  lemma AllGroupsAsWrittenBelowFull(n: nat)
    requires n < MAX_GROUPS
    ensures AllGroupsAsWritten(n) == AllGroups(n)
  {
  }

  /** With a full table of 32 groups, a bare '+' as written enables none of them. */
  lemma AllGroupsAsWrittenWithFullTable()
    ensures AllGroupsAsWritten(MAX_GROUPS) == {}
    ensures forall i: nat :: i < MAX_GROUPS ==> i in AllGroups(MAX_GROUPS)
  {
  }

  /** The group query mask after one token, over the first count names. */
  function GroupEdit(mask: Mask, token: string, names: seq<string>, count: nat): Mask
    requires count <= MAX_GROUPS
  {
    var e := Split(token);
    if token == [] then mask
    else if e.rest == [] then (if e.enable then AllGroups(count) else {})
    else match GroupIndexOf(names, count, e.rest)
      case None => mask
      case Some(g) => if e.enable then mask + {g} else mask - {g}
  }

  function GroupEdits(mask: Mask, tokens: seq<string>, names: seq<string>, count: nat): Mask
    requires count <= MAX_GROUPS
    decreases |tokens|
  {
    if tokens == [] then mask
    else GroupEdits(GroupEdit(mask, tokens[0], names, count), tokens[1..], names, count)
  }

  /**
   * A token naming a known group turns that group's bit on or off and keeps
   * every other bit; a bare sign enables the first count groups or none; an
   * unknown name changes nothing.
   */
  lemma GroupEditEffect(mask: Mask, token: string, names: seq<string>, count: nat)
    requires count <= MAX_GROUPS && token != []
    ensures var e := Split(token);
      e.rest != [] && GroupIndexOf(names, count, e.rest).Some? ==>
        var g := GroupIndexOf(names, count, e.rest).value;
        g < count && names[g] == e.rest &&
        forall i :: i in GroupEdit(mask, token, names, count) <==> if i == g then e.enable else i in mask
    ensures var e := Split(token);
      e.rest == [] ==> forall i: nat :: i in GroupEdit(mask, token, names, count) <==> e.enable && i < count
    ensures var e := Split(token);
      e.rest != [] && GroupIndexOf(names, count, e.rest).None? ==>
        GroupEdit(mask, token, names, count) == mask
  {
  }

  /** Group edits keep the mask within the listed groups. */
  lemma {:induction false} GroupEditsStayInTable(mask: Mask, tokens: seq<string>, names: seq<string>, count: nat)
    requires count <= MAX_GROUPS && mask <= AllGroups(count)
    ensures GroupEdits(mask, tokens, names, count) <= AllGroups(count)
    decreases |tokens|
  {
    if tokens != [] {
      GroupEditsStayInTable(GroupEdit(mask, tokens[0], names, count), tokens[1..], names, count);
    }
  }

  // ---------------------------------------------------------------------
  // Requests
  // ---------------------------------------------------------------------

  datatype Action = ListGroups | PrintMask | StoreMask | History

  /** rlog_request; every field not set by a command is 0. */
  datatype Request = Request(action: Action, levelMask: Mask, groupMask: Mask,
                             tsSec: u32, tsNsec: u32, lineCount: u16, lineOffset: u16,
                             capLen: u16, cspPackets: u16)

  datatype Timestamp = Timestamp(sec: u32, nsec: u32)

  /** The outcome of a command that may send one request. */
  datatype Sent = Sent(result: CmdResult, request: Option<Request>)

  /**
   * The nanosecond text of `rlog hist -S.N`: at most nine characters of N,
   * right-padded with '0' to nine, so ".5" means half a second.
   */
  function NanosText(t: string): (r: string)
    ensures |r| == 9
    ensures r[..|Prefix(t, 9)|] == Prefix(t, 9)
    ensures forall i :: |Prefix(t, 9)| <= i < 9 ==> r[i] == '0'
  {
    var p := Prefix(t, 9);
    p + Repeat('0', 9 - |p|)
  }

  /**
   * The time filter of `rlog hist -S[.N]` (text is what follows the '-').
   * No seconds token gives 0; nanoseconds of a second or more become 0;
   * exactly one second and no nanoseconds ("-1") means the newest timestamp
   * seen.
   */
  function TimeFilter(text: string, atoi: string -> int, latest: Timestamp): (r: Timestamp)
    ensures r.nsec < NSEC_SEC || r == latest
  {
    var ts := Tokens(text, {'.', ','});
    if ts == [] then Timestamp(0, 0)
    else
      var sec := atoi(ts[0]) % U32;
      var raw := if |ts| < 2 then 0 else atoi(NanosText(ts[1])) % U32;
      var nsec := if raw >= NSEC_SEC then 0 else raw;
      if sec == 1 && nsec == 0 then latest else Timestamp(sec, nsec)
  }

  /** "-1" asks for the history since the newest line seen. */
  lemma TimeFilterLatest(text: string, atoi: string -> int, latest: Timestamp)
    requires Tokens(text, {'.', ','}) == [text] && atoi(text) == 1
    ensures TimeFilter(text, atoi, latest) == latest
  {
  }

  /** Seconds and nanoseconds in range are sent as given. */
  lemma TimeFilterExact(text: string, atoi: string -> int, latest: Timestamp)
    requires |Tokens(text, {'.', ','})| >= 2
    requires var ts := Tokens(text, {'.', ','});
      0 <= atoi(ts[0]) < U32 && 0 <= atoi(NanosText(ts[1])) < NSEC_SEC &&
      !(atoi(ts[0]) == 1 && atoi(NanosText(ts[1])) == 0)
    ensures var ts := Tokens(text, {'.', ','});
      TimeFilter(text, atoi, latest) == Timestamp(atoi(ts[0]), atoi(NanosText(ts[1])))
  {
    var ts := Tokens(text, {'.', ','});
    WithinU32(atoi(ts[0]));
    WithinU32(atoi(NanosText(ts[1])));
  }

  lemma WithinU32(x: int)
    requires 0 <= x < U32
    ensures x % U32 == x
  {
  }

  /** One reply of a history conversation: its entries' timestamps and total_elem. */
  datatype HistReply = HistReply(stamps: seq<Timestamp>, totalElem: byte)

  /** The reply that ends the conversation: an empty one or one with total_elem set. */
  predicate Final(p: HistReply)
  {
    |p.stamps| == 0 || p.totalElem != 0
  }

  /**
   * The newest timestamp after following the replies: each reply with
   * entries replaces it by its first entry, up to and including the final
   * reply.
   */
  function LatestAfter(latest: Timestamp, replies: seq<HistReply>): (r: Timestamp)
    decreases |replies|
  {
    if replies == [] then latest
    else
      var p := replies[0];
      var next := if |p.stamps| > 0 then p.stamps[0] else latest;
      if Final(p) then next else LatestAfter(next, replies[1..])
  }

  /** The newest timestamp is the old one or the first entry of a reply read. */
  lemma {:induction false} LatestAfterComesFromReply(latest: Timestamp, replies: seq<HistReply>)
    ensures var r := LatestAfter(latest, replies);
      r == latest || exists k :: 0 <= k < |replies| && |replies[k].stamps| > 0 && r == replies[k].stamps[0]
    decreases |replies|
  {
    if replies != [] && !Final(replies[0]) {
      var next := replies[0].stamps[0];
      LatestAfterComesFromReply(next, replies[1..]);
      var r := LatestAfter(next, replies[1..]);
      if r != next {
        var k :| 0 <= k < |replies[1..]| && |replies[1..][k].stamps| > 0 && r == replies[1..][k].stamps[0];
        assert replies[k + 1] == replies[1..][k];
      }
    }
  }

  /** Replies after the final one are not read. */
  lemma LatestAfterStopsAtFinal(latest: Timestamp, p: HistReply, rest: seq<HistReply>)
    requires Final(p)
    ensures LatestAfter(latest, [p] + rest) == LatestAfter(latest, [p])
  {
  }

  // ---------------------------------------------------------------------
  // The client state
  // ---------------------------------------------------------------------

  class RemoteLogClient {
    /** rlog_node: -1 until `rlog list` has been given a node. */
    var node: int
    var port: int
    /** rlog_groups: 32 slots of at most 15 characters. */
    var names: seq<string>
    /** rlog_no_groups */
    var count: nat
    var levelMask: Mask
    var groupMask: Mask
    /** rlog_latest_log_ts */
    var latest: Timestamp

    ghost predicate Valid()
      reads this
    {
      |names| == MAX_GROUPS && count <= MAX_GROUPS &&
      (forall i :: 0 <= i < |names| ==> |names[i]| <= NAME_LIMIT) &&
      levelMask <= LEVELS
    }

    constructor ()
      ensures Valid()
      ensures node == -1 && port == DEFAULT_PORT && count == 0
      ensures names == Repeat("", MAX_GROUPS)
      ensures levelMask == {} && groupMask == {} && latest == Timestamp(0, 0)
    {
      node := -1;
      port := DEFAULT_PORT;
      names := Repeat("", MAX_GROUPS);
      count := 0;
      levelMask := {};
      groupMask := {};
      latest := Timestamp(0, 0);
    }

    /** rlog_group_index */
    method GroupIndex(name: string) returns (r: Option<nat>)
      requires Valid()
      ensures r == GroupIndexOf(names, count, name)
    {
      var i := 0;
      while i < count
        invariant i <= count
        invariant forall j :: 0 <= j < i ==> names[j] != name
      {
        if names[i] == name {
          assert IndexOf(Prefix(names, count), name) == Some(i) by {
            var p := Prefix(names, count);
            var q := IndexOf(p, name);
            assert p[i] == name;
            assert forall j :: 0 <= j < i ==> p[j] != name;
          }
          return Some(i);
        }
        i := i + 1;
      }
      r := None;
      assert forall j :: 0 <= j < |Prefix(names, count)| ==> Prefix(names, count)[j] == names[j];
    }

    /**
     * rlog list <node> [port]. The node and the port are stored before they
     * are checked, so a rejected value stays in place. A reply of more than
     * 32 groups is cut to 32.
     */
    method List(argv: seq<string>, atoi: string -> int, reply: Option<seq<GroupEntry>>, now: Timestamp)
      returns (r: CmdResult)
      requires Valid()
      requires reply.Some? ==> |reply.value| < 0x100 && SlotsInRange(Prefix(reply.value, MAX_GROUPS))
      modifies this`node, this`port, this`names, this`count, this`levelMask, this`groupMask, this`latest
      ensures Valid()
      ensures |argv| < 2 ==> r == CmdSyntax && node == old(node) && port == old(port)
      ensures |argv| >= 2 ==> node == atoi(argv[1])
      ensures |argv| >= 2 && !(0 <= node <= 31) ==> r == CmdSyntax && port == old(port)
      ensures |argv| >= 2 && 0 <= node <= 31 ==>
                port == (if |argv| > 2 then atoi(argv[2]) else DEFAULT_PORT)
      ensures |argv| >= 2 && 0 <= node <= 31 && !(0 <= port <= 63) ==> r == CmdSyntax
      ensures |argv| >= 2 && 0 <= node <= 31 && 0 <= port <= 63 ==>
                r == (if reply.Some? then CmdOk else CmdFail)
      ensures r != CmdOk ==>
                names == old(names) && count == old(count) && levelMask == old(levelMask) &&
                groupMask == old(groupMask) && latest == old(latest)
      ensures r == CmdOk ==>
                var entries := Prefix(reply.value, MAX_GROUPS);
                count == |entries| && levelMask == LEVELS &&
                groupMask == Enabled(entries) && names == Stored(old(names), entries) &&
                latest == now
    {
      if |argv| < 2 {
        return CmdSyntax;
      }
      node := atoi(argv[1]);
      if node < 0 || node > 31 {
        return CmdSyntax;
      }
      port := DEFAULT_PORT;
      if |argv| > 2 {
        port := atoi(argv[2]);
        if port < 0 || port > 63 {
          return CmdSyntax;
        }
      }
      if reply.None? {
        return CmdFail;
      }
      var entries := Prefix(reply.value, MAX_GROUPS);
      count := |entries|;
      levelMask := LEVELS;
      FillTable(entries);
      latest := now;
      r := CmdOk;
    }

    /** The loop of `rlog list` that stores each group's name and enables it. */
    method FillTable(entries: seq<GroupEntry>)
      requires |names| == MAX_GROUPS && forall i :: 0 <= i < |names| ==> |names[i]| <= NAME_LIMIT
      requires SlotsInRange(entries)
      modifies this`names, this`groupMask
      ensures names == Stored(old(names), entries) && groupMask == Enabled(entries)
      ensures |names| == MAX_GROUPS && forall i :: 0 <= i < |names| ==> |names[i]| <= NAME_LIMIT
    {
      groupMask := {};
      var i := 0;
      while i < |entries|
        invariant i <= |entries|
        invariant names == Stored(old(names), entries[..i])
        invariant groupMask == Enabled(entries[..i])
      {
        var e := entries[i];
        assert entries[..i + 1][..i] == entries[..i];
        names := names[e.idx := Prefix(e.name, NAME_LIMIT)];
        groupMask := groupMask + {e.idx};
        i := i + 1;
      }
      assert entries[..i] == entries;
      StoredNamesShort(old(names), entries);
    }

    /**
     * rlog print|store <group> <level>: argv[0] chooses the mask. A node must
     * have been listed; an unknown group or level is a syntax error. The
     * request names the one group and carries the level's mask; the command
     * succeeds when the node answers.
     */
    function SetMask(argv: seq<string>, standard: Mask, replied: bool): (s: Sent)
      requires Valid()
      reads this
      ensures node < 0 ==> s == Sent(CmdFail, None)
      ensures node >= 0 && (|argv| != 3 || argv[0] !in {"print", "store"}) ==> s == Sent(CmdSyntax, None)
      ensures s.request.Some? <==>
                node >= 0 && |argv| == 3 && argv[0] in {"print", "store"} &&
                GroupIndexOf(names, count, argv[1]).Some? && LetterMask(argv[2], standard).Some?
      ensures s.request.Some? ==>
                var q := s.request.value;
                (q.action == PrintMask <==> argv[0] == "print") &&
                q.levelMask == LetterMask(argv[2], standard).value &&
                (exists g :: 0 <= g < count && names[g] == argv[1] && q.groupMask == {g}) &&
                q.tsSec == 0 && q.lineCount == 0 && q.capLen == 0
      ensures s.result == CmdOk <==> s.request.Some? && replied
      ensures s.request.None? ==> s.result != CmdOk
    {
      if node < 0 then Sent(CmdFail, None)
      else if |argv| != 3 then Sent(CmdSyntax, None)
      else if argv[0] != "print" && argv[0] != "store" then Sent(CmdSyntax, None)
      else
        var action := if argv[0] == "print" then PrintMask else StoreMask;
        match GroupIndexOf(names, count, argv[1])
        case None => Sent(CmdSyntax, None)
        case Some(g) =>
          match LetterMask(argv[2], standard)
          case None => Sent(CmdSyntax, None)
          case Some(m) =>
            var q := Request(action, m, {g}, 0, 0, 0, 0, 0, 0);
            Sent(if replied then CmdOk else CmdFail, Some(q))
    }

    /** The padding loop of `rlog hist`: append '0' until nine characters. */
    static method PadNanos(t: string) returns (r: string)
      ensures r == NanosText(t)
    {
      r := Prefix(t, 9);
      while |r| < 9
        invariant |Prefix(t, 9)| <= |r| <= 9
        invariant r == Prefix(t, 9) + Repeat('0', |r| - |Prefix(t, 9)|)
      {
        r := r + "0";
        assert Repeat('0', |r| - |Prefix(t, 9)|) == Repeat('0', |r| - 1 - |Prefix(t, 9)|) + "0";
      }
    }

    /** The time filter of `rlog hist`, computed as the command does. */
    method ParseTime(text: string, atoi: string -> int) returns (ts: Timestamp)
      ensures ts == TimeFilter(text, atoi, latest)
    {
      var tokens := Tokens(text, {'.', ','});
      if tokens == [] {
        return Timestamp(0, 0);
      }
      var sec := atoi(tokens[0]) % U32;
      var nsec := 0;
      if |tokens| >= 2 {
        var padded := PadNanos(tokens[1]);
        nsec := atoi(padded) % U32;
        if nsec >= NSEC_SEC {
          nsec := 0;
        }
      }
      ts := if sec == 1 && nsec == 0 then latest else Timestamp(sec, nsec);
    }

    /**
     * The request of `rlog hist <count|-packets> [offset|-S[.N]] [cap]`:
     * a leading '-' on the first argument counts packets instead of lines,
     * on the second gives a time filter instead of a line offset. The query
     * masks go with it.
     */
    method HistRequest(argv: seq<string>, atoi: string -> int) returns (s: Sent)
      ensures node < 0 ==> s == Sent(CmdFail, None)
      ensures node >= 0 && |argv| < 2 ==> s == Sent(CmdSyntax, None)
      ensures s.request.Some? <==> node >= 0 && |argv| >= 2
      ensures s.request.Some? ==>
                var q := s.request.value;
                q.action == History && q.levelMask == levelMask && q.groupMask == groupMask &&
                (At(argv[1], 0) == '-' ==> q.lineCount == 0 && q.cspPackets == atoi(argv[1][1..]) % 0x1_0000) &&
                (At(argv[1], 0) != '-' ==> q.lineCount == atoi(argv[1]) % 0x1_0000 && q.cspPackets == 0) &&
                (|argv| >= 3 && At(argv[2], 0) == '-' ==>
                   q.lineOffset == 0 && Timestamp(q.tsSec, q.tsNsec) == TimeFilter(argv[2][1..], atoi, latest)) &&
                (|argv| >= 3 && At(argv[2], 0) != '-' ==>
                   q.lineOffset == atoi(argv[2]) % 0x1_0000 && q.tsSec == 0 && q.tsNsec == 0) &&
                (|argv| < 3 ==> q.lineOffset == 0 && q.tsSec == 0 && q.tsNsec == 0) &&
                q.capLen == (if |argv| >= 4 then atoi(argv[3]) % 0x1_0000 else 0)
      ensures s.request.Some? ==> s.result == CmdOk
    {
      if node < 0 {
        return Sent(CmdFail, None);
      }
      if |argv| < 2 {
        return Sent(CmdSyntax, None);
      }
      var q := Request(History, levelMask, groupMask, 0, 0, 0, 0, 0, 0);
      if At(argv[1], 0) == '-' {
        q := q.(cspPackets := atoi(argv[1][1..]) % 0x1_0000);
      } else {
        q := q.(lineCount := atoi(argv[1]) % 0x1_0000);
      }
      if |argv| >= 3 && At(argv[2], 0) == '-' {
        var ts := ParseTime(argv[2][1..], atoi);
        q := q.(tsSec := ts.sec, tsNsec := ts.nsec);
      } else if |argv| >= 3 {
        q := q.(lineOffset := atoi(argv[2]) % 0x1_0000);
      }
      if |argv| >= 4 {
        q := q.(capLen := atoi(argv[3]) % 0x1_0000);
      }
      s := Sent(CmdOk, Some(q));
    }

    /**
     * The reply loop of `rlog hist`: read replies until the link goes quiet
     * or a reply is final, keeping the first timestamp of each reply.
     */
    method FollowHistory(replies: seq<HistReply>)
      modifies this`latest
      ensures latest == LatestAfter(old(latest), replies)
    {
      var i := 0;
      while i < |replies|
        invariant i <= |replies|
        invariant LatestAfter(latest, replies[i..]) == LatestAfter(old(latest), replies)
      {
        var p := replies[i];
        assert replies[i..][1..] == replies[i + 1..];
        if |p.stamps| > 0 {
          latest := p.stamps[0];
        }
        if Final(p) {
          return;
        }
        i := i + 1;
      }
    }

    /**
     * rlog hist: send the request, then follow the replies. Once the request
     * is out, the command succeeds even if no reply ever comes.
     */
    method Hist(argv: seq<string>, atoi: string -> int, delivered: bool, replies: seq<HistReply>)
      returns (s: Sent)
      modifies this`latest
      ensures s.request.Some? <==> node >= 0 && |argv| >= 2
      ensures s.result == CmdOk <==> s.request.Some? && delivered
      ensures latest == (if s.result == CmdOk then LatestAfter(old(latest), replies) else old(latest))
    {
      s := HistRequest(argv, atoi);
      if s.request.None? {
        return;
      }
      if !delivered {
        return Sent(CmdFail, s.request);
      }
      FollowHistory(replies);
    }

    /**
     * rlog query [level|group <tokens>]: with no arguments it only shows the
     * masks; otherwise the comma-separated tokens edit one mask.
     */
    method Query(argv: seq<string>) returns (r: CmdResult)
      requires Valid()
      modifies this`levelMask, this`groupMask
      ensures Valid()
      ensures r == CmdOk <==> |argv| == 1 || (|argv| >= 3 && argv[1] in {"level", "group"})
      ensures levelMask == (if r == CmdOk && |argv| >= 3 && argv[1] == "level"
                            then LevelEdits(old(levelMask), Tokens(argv[2], {','})) else old(levelMask))
      ensures groupMask == (if r == CmdOk && |argv| >= 3 && argv[1] == "group"
                            then GroupEdits(old(groupMask), Tokens(argv[2], {','}), names, count)
                            else old(groupMask))
    {
      if |argv| == 1 {
        return CmdOk;
      }
      if |argv| < 3 {
        return CmdSyntax;
      }
      if argv[1] == "level" {
        QueryLevels(Tokens(argv[2], {','}));
      } else if argv[1] == "group" {
        QueryGroups(Tokens(argv[2], {','}));
      } else {
        return CmdSyntax;
      }
      r := CmdOk;
    }

    /** The level-token loop of `rlog query level`. */
    method QueryLevels(tokens: seq<string>)
      requires levelMask <= LEVELS
      modifies this`levelMask
      ensures levelMask == LevelEdits(old(levelMask), tokens)
      ensures levelMask <= LEVELS
    {
      var i := 0;
      while i < |tokens|
        invariant i <= |tokens|
        invariant LevelEdits(levelMask, tokens[i..]) == LevelEdits(old(levelMask), tokens)
      {
        assert tokens[i..][1..] == tokens[i + 1..];
        var token := tokens[i];
        if token != [] {
          var e := Split(token);
          if e.rest != [] {
            var l := LetterLevel(e.rest[0]);
            if l.Some? {
              if e.enable {
                levelMask := levelMask + {LogHost.Rank(l.value)};
              } else {
                levelMask := levelMask - {LogHost.Rank(l.value)};
              }
            }
          } else {
            levelMask := if e.enable then LEVELS else {};
          }
        }
        i := i + 1;
      }
      LevelEditsStayInLevels(old(levelMask), tokens);
    }

    /** The group-token loop of `rlog query group`. */
    method QueryGroups(tokens: seq<string>)
      requires Valid()
      modifies this`groupMask
      ensures groupMask == GroupEdits(old(groupMask), tokens, names, count)
    {
      var i := 0;
      while i < |tokens|
        invariant i <= |tokens|
        invariant GroupEdits(groupMask, tokens[i..], names, count) == GroupEdits(old(groupMask), tokens, names, count)
      {
        assert tokens[i..][1..] == tokens[i + 1..];
        var token := tokens[i];
        if token != [] {
          var e := Split(token);
          if e.rest != [] {
            var g := GroupIndex(e.rest);
            if g.Some? {
              if e.enable {
                groupMask := groupMask + {g.value};
              } else {
                groupMask := groupMask - {g.value};
              }
            }
          } else {
            groupMask := if e.enable then AllGroups(count) else {};
          }
        }
        i := i + 1;
      }
    }
  }
}
