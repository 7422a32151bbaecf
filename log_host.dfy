/**
 * The host side of the logging library (lib/liblog/src/host/log.c): named
 * log groups that each carry a print mask and a store mask with one bit
 * per level, the textual language that edits those masks,
 *
 *     group[,group...]=[+-]level[,[+-]level...][;...]
 *
 * and the decision whether an event is printed, stored or dropped.
 */
module LogHost {
  import opened Common

  // ---------------------------------------------------------------------
  // Levels and masks
  // ---------------------------------------------------------------------

  /** Log levels, lowest first; the level of rank n owns bit n of a mask. */
  datatype Level = Trace | Debug | Info | Warning | Error

  function Rank(l: Level): nat
  {
    match l
    case Trace => 0
    case Debug => 1
    case Info => 2
    case Warning => 3
    case Error => 4
  }

  /** LOG_<level>_MASK: the single bit of a level. */
  function Bit(l: Level): bv8
  {
    match l
    case Trace => 0x01
    case Debug => 0x02
    case Info => 0x04
    case Warning => 0x08
    case Error => 0x10
  }

  /** LOG_ALL_MASK: every level bit. */
  const ALL_MASK: bv8 := 0x1F

  /** MASK_SET, MASK_AND and MASK_OR. */
  datatype Op = MaskSet | MaskAnd | MaskOr

  /**
   * mask_set: under MASK_SET a level bit stands for that level and every
   * level above it; under the other operations it stands for itself.
   */
  function Select(bit: bv8, op: Op): bv8
  {
    if op == MaskSet then ALL_MASK & !(bit - 1) else bit
  }

  /** Setting a level enables exactly the levels of equal or higher rank. */
  lemma SetSelectsLevelsAtOrAbove(l: Level, m: Level)
    ensures Select(Bit(l), MaskSet) & Bit(m) != 0 <==> Rank(l) <= Rank(m)
    ensures Select(Bit(l), MaskSet) & !ALL_MASK == 0
    ensures Select(Bit(l), MaskOr) == Bit(l)
  {
  }

  // ---------------------------------------------------------------------
  // Keywords: a token names the first keyword, in this order, that it
  // abbreviates ignoring case ("d" is debug, "s" is standard).
  // ---------------------------------------------------------------------

  datatype Keyword = Named(level: Level) | Standard | Everything | Nothing

  const KEYWORDS: seq<Keyword> :=
    [Named(Trace), Named(Debug), Named(Info), Named(Warning), Named(Error),
     Standard, Everything, Nothing]

  function Word(k: Keyword): string
  {
    match k
    case Named(Trace) => "trace"
    case Named(Debug) => "debug"
    case Named(Info) => "info"
    case Named(Warning) => "warning"
    case Named(Error) => "error"
    case Standard => "standard"
    case Everything => "all"
    case Nothing => "none"
  }

  /** The first keyword at position i of KEYWORDS or later that t abbreviates. */
  function FirstMatch(t: string, i: nat): (r: Option<nat>)
    requires i <= |KEYWORDS|
    ensures r.Some? ==> i <= r.value < |KEYWORDS| && PrefixIgnoreCase(t, Word(KEYWORDS[r.value]))
    ensures r.Some? ==> forall j :: i <= j < r.value ==> !PrefixIgnoreCase(t, Word(KEYWORDS[j]))
    ensures r.None? ==> forall j :: i <= j < |KEYWORDS| ==> !PrefixIgnoreCase(t, Word(KEYWORDS[j]))
    decreases |KEYWORDS| - i
  {
    if i == |KEYWORDS| then None
    else if PrefixIgnoreCase(t, Word(KEYWORDS[i])) then Some(i)
    else FirstMatch(t, i + 1)
  }

  /** No keyword contains the list separator. */
  lemma KeywordsHaveNoComma(k: Keyword)
    ensures forall i :: 0 <= i < |Word(k)| ==> Word(k)[i] != ','
  {
  }

  /** An abbreviation of a keyword is one token of a mask list. */
  lemma AbbreviationIsOneToken(t: string, k: Keyword)
    requires PrefixIgnoreCase(t, Word(k))
    ensures forall i :: 0 <= i < |t| ==> t[i] != ','
  {
    KeywordsHaveNoComma(k);
    forall i | 0 <= i < |t|
      ensures t[i] != ','
    {
      assert Lower(t[i]) == Lower(Word(k)[i]);
    }
  }

  // ---------------------------------------------------------------------
  // log_string_to_mask
  // ---------------------------------------------------------------------

  /** What one token does to a mask. */
  datatype Step = Step(op: Op, mask: bv8)

  /** The operation a token's sign asks for. */
  function Sign(token: string): Op
  {
    if |token| > 0 && token[0] == '+' then MaskOr
    else if |token| > 0 && token[0] == '-' then MaskAnd
    else MaskSet
  }

  /** The token without its sign. */
  function Unsigned(token: string): string
  {
    if Sign(token) == MaskSet then token else token[1..]
  }

  /**
   * One token of a mask list; None is the -1 of log_string_to_mask.
   * "standard", "all" and "none" always replace the mask, whatever sign
   * the token carries; a level keyword keeps its sign.
   */
  function ParseToken(token: string, standard: bv8): (r: Option<Step>)
    ensures r.None? <==> Unsigned(token) == [] || FirstMatch(Unsigned(token), 0).None?
    ensures r.Some? && r.value.op != MaskSet ==> r.value.op == Sign(token)
    ensures r.Some? && r.value.op != MaskSet ==> r.value.mask & !ALL_MASK == 0
  {
    var word := Unsigned(token);
    if |word| < 1 then None
    else match FirstMatch(word, 0)
      case None => None
      case Some(i) =>
        match KEYWORDS[i]
        case Named(l) => Some(Step(Sign(token), Select(Bit(l), Sign(token))))
        case Standard => Some(Step(MaskSet, standard))
        case Everything => Some(Step(MaskSet, ALL_MASK))
        case Nothing => Some(Step(MaskSet, 0))
  }

  function Apply(start: bv8, s: Step): bv8
  {
    match s.op
    case MaskOr => start | s.mask
    case MaskAnd => start & !s.mask
    case MaskSet => s.mask
  }

  /** The tokens applied left to right; the first bad token fails the whole list. */
  function ApplyAll(tokens: seq<string>, start: bv8, standard: bv8): Option<bv8>
  {
    if tokens == [] then Some(start)
    else match ParseToken(tokens[0], standard)
      case None => None
      case Some(s) => ApplyAll(tokens[1..], Apply(start, s), standard)
  }

  /** The value log_string_to_mask returns for str and a starting mask. */
  function MaskAfter(str: string, start: bv8, standard: bv8): Option<bv8>
  {
    ApplyAll(Tokens(str, {','}), start, standard)
  }

  /** log_string_to_mask: the strtok_r loop over the comma-separated tokens. */
  method StringToMask(str: string, start: bv8, standard: bv8) returns (r: Option<bv8>)
    ensures r == MaskAfter(str, start, standard)
  {
    var tokens := Tokens(str, {','});
    var mask := start;
    var i := 0;
    while i < |tokens|
      invariant 0 <= i <= |tokens|
      invariant ApplyAll(tokens[i..], mask, standard) == ApplyAll(tokens, start, standard)
    {
      assert tokens[i..][1..] == tokens[i + 1..];
      var step := ParseToken(tokens[i], standard);
      if step.None? {
        return None;
      }
      mask := Apply(mask, step.value);
      i := i + 1;
    }
    assert tokens[i..] == [];
    return Some(mask);
  }

  /** Applying two token lists one after the other. */
  lemma {:induction false} ApplyAllAppend(a: seq<string>, b: seq<string>, start: bv8, standard: bv8)
    ensures ApplyAll(a + b, start, standard) ==
            match ApplyAll(a, start, standard)
            case None => None
            case Some(m) => ApplyAll(b, m, standard)
    decreases |a|
  {
    if a == [] {
      assert a + b == b;
    } else {
      assert (a + b)[1..] == a[1..] + b;
      match ParseToken(a[0], standard)
      case None =>
      case Some(s) => ApplyAllAppend(a[1..], b, Apply(start, s), standard);
    }
  }

  /** "x,y" means x and then y. */
  lemma MaskListIsSequential(x: string, y: string, start: bv8, standard: bv8)
    ensures MaskAfter(x + "," + y, start, standard) ==
            match MaskAfter(x, start, standard)
            case None => None
            case Some(m) => MaskAfter(y, m, standard)
  {
    assert x + "," + y == x + [','] + y;
    TokensAround(x, ',', y, {','});
    ApplyAllAppend(Tokens(x, {','}), Tokens(y, {','}), start, standard);
  }

  /** Whether a list is accepted does not depend on the mask it starts from. */
  lemma {:induction false} AcceptanceIgnoresStart(tokens: seq<string>, a: bv8, b: bv8, standard: bv8)
    ensures ApplyAll(tokens, a, standard).Some? == ApplyAll(tokens, b, standard).Some?
    decreases |tokens|
  {
    if tokens != [] {
      match ParseToken(tokens[0], standard)
      case None =>
      case Some(s) => AcceptanceIgnoresStart(tokens[1..], Apply(a, s), Apply(b, s), standard);
    }
  }

  /** A token without a comma is one strtok_r token. */
  lemma SingleToken(t: string, start: bv8, standard: bv8)
    requires t != [] && forall i :: 0 <= i < |t| ==> t[i] != ','
    ensures MaskAfter(t, start, standard) ==
            match ParseToken(t, standard)
            case None => None
            case Some(s) => Some(Apply(start, s))
  {
    TokensOfPlain(t, {','});
    assert Tokens(t, {','}) == [t];
    match ParseToken(t, standard)
    case None =>
    case Some(s) =>
      assert [t][1..] == [];
      assert ApplyAll([t], start, standard) == ApplyAll([], Apply(start, s), standard);
  }

  /** A keyword abbreviation, signed or not, is one token. */
  lemma SignedAbbreviation(w: string, sign: string, k: Keyword)
    requires w != [] && PrefixIgnoreCase(w, Word(k))
    requires sign == "" || sign == "+" || sign == "-"
    ensures sign + w != [] && forall i :: 0 <= i < |sign + w| ==> (sign + w)[i] != ','
    ensures Unsigned(sign + w) == w
    ensures Sign(sign + w) == if sign == "+" then MaskOr else if sign == "-" then MaskAnd else MaskSet
  {
    AbbreviationIsOneToken(w, k);
    assert w[0] != '+' && w[0] != '-' by {
      KeywordsHaveNoComma(k);
      assert Lower(w[0]) == Lower(Word(k)[0]);
    }
    assert (sign + w)[|sign|..] == w;
  }

  /**
   * The meaning of a level word w ("info", "inf", "I", ...): alone it
   * enables w and every level above; "+w" adds w; "-w" removes w.
   */
  lemma LevelWordMeaning(w: string, l: Level, start: bv8, standard: bv8)
    requires w != [] && FirstMatch(w, 0).Some? && KEYWORDS[FirstMatch(w, 0).value] == Named(l)
    ensures MaskAfter(w, start, standard) == Some(Select(Bit(l), MaskSet))
    ensures MaskAfter("+" + w, start, standard) == Some(start | Bit(l))
    ensures MaskAfter("-" + w, start, standard) == Some(start & !Bit(l))
  {
    SignedAbbreviation(w, "", Named(l));
    SignedAbbreviation(w, "+", Named(l));
    SignedAbbreviation(w, "-", Named(l));
    assert "" + w == w;
    SingleToken(w, start, standard);
    SingleToken("+" + w, start, standard);
    SingleToken("-" + w, start, standard);
  }

  /** "standard", "all" and "none" replace the mask whatever the sign. */
  lemma GlobalWordMeaning(w: string, sign: string, start: bv8, standard: bv8)
    requires w != [] && FirstMatch(w, 0).Some? && !KEYWORDS[FirstMatch(w, 0).value].Named?
    requires sign == "" || sign == "+" || sign == "-"
    ensures MaskAfter(sign + w, start, standard) == Some(
              match KEYWORDS[FirstMatch(w, 0).value]
              case Standard => standard
              case Everything => ALL_MASK
              case _ => 0)
  {
    SignedAbbreviation(w, sign, KEYWORDS[FirstMatch(w, 0).value]);
    SingleToken(sign + w, start, standard);
  }

  /** A bare sign is an empty level and rejects the whole list. */
  lemma BareSignRejected(x: string, sign: string, start: bv8, standard: bv8)
    requires sign == "+" || sign == "-"
    ensures MaskAfter(sign, start, standard).None?
    ensures MaskAfter(x + "," + sign, start, standard).None?
  {
    assert Unsigned(sign) == [];
    SingleToken(sign, start, standard);
    MaskListIsSequential(x, sign, start, standard);
  }

  // ---------------------------------------------------------------------
  // Groups
  // ---------------------------------------------------------------------

  datatype Group = Group(name: string, printMask: bv8, storeMask: bv8)

  /** The last group called name: log_find_group keeps the last match. */
  function LastNamed(groups: seq<Group>, name: string): (r: Option<nat>)
    ensures r.Some? ==> r.value < |groups| && groups[r.value].name == name
    ensures r.Some? ==> forall j :: r.value < j < |groups| ==> groups[j].name != name
    ensures r.None? ==> forall j :: 0 <= j < |groups| ==> groups[j].name != name
  {
    if groups == [] then None
    else if groups[|groups| - 1].name == name then Some(|groups| - 1)
    else LastNamed(groups[..|groups| - 1], name)
  }

  function MaskOf(g: Group, isPrint: bool): bv8
  {
    if isPrint then g.printMask else g.storeMask
  }

  function WithMask(g: Group, mask: bv8, isPrint: bool): Group
  {
    if isPrint then g.(printMask := mask) else g.(storeMask := mask)
  }

  /** log_get_mask; None is the -1 of an unknown group. */
  function MaskNamed(groups: seq<Group>, name: string, isPrint: bool): Option<bv8>
  {
    match LastNamed(groups, name)
    case None => None
    case Some(k) => Some(MaskOf(groups[k], isPrint))
  }

  /** Every group with one of its masks replaced. */
  function SetEvery(groups: seq<Group>, mask: bv8, isPrint: bool): (r: seq<Group>)
    ensures |r| == |groups|
    ensures forall i :: 0 <= i < |r| ==> r[i] == WithMask(groups[i], mask, isPrint)
  {
    if groups == [] then []
    else [WithMask(groups[0], mask, isPrint)] + SetEvery(groups[1..], mask, isPrint)
  }

  /** log_set_mask: "all" sets every group, any other name its last match. */
  function Assigned(groups: seq<Group>, name: string, mask: bv8, isPrint: bool): seq<Group>
  {
    if name == "all" then SetEvery(groups, mask, isPrint)
    else match LastNamed(groups, name)
      case None => groups
      case Some(k) => groups[k := WithMask(groups[k], mask, isPrint)]
  }

  /** Two registries with the same names find the same group for every name. */
  lemma SameNamesSameLookup(a: seq<Group>, b: seq<Group>, name: string)
    requires |a| == |b| && forall i :: 0 <= i < |a| ==> a[i].name == b[i].name
    ensures LastNamed(a, name) == LastNamed(b, name)
  {
  }

  /**
   * log_set_mask then log_get_mask: the group reads back the mask just
   * set; every other group and the other kind of mask are untouched; an
   * unknown name changes nothing; names never change.
   */
  lemma GetAfterSet(groups: seq<Group>, name: string, mask: bv8, isPrint: bool)
    ensures var r := Assigned(groups, name, mask, isPrint);
      |r| == |groups| &&
      (forall i :: 0 <= i < |r| ==> r[i].name == groups[i].name) &&
      (forall i :: 0 <= i < |r| ==> MaskOf(r[i], !isPrint) == MaskOf(groups[i], !isPrint))
    ensures name != "all" && MaskNamed(groups, name, isPrint).Some? ==>
              MaskNamed(Assigned(groups, name, mask, isPrint), name, isPrint) == Some(mask)
    ensures name != "all" && MaskNamed(groups, name, isPrint).None? ==>
              Assigned(groups, name, mask, isPrint) == groups
    ensures forall other :: other != name && name != "all" ==>
              MaskNamed(Assigned(groups, name, mask, isPrint), other, isPrint) ==
              MaskNamed(groups, other, isPrint)
    ensures forall other :: name == "all" && MaskNamed(groups, other, isPrint).Some? ==>
              MaskNamed(Assigned(groups, name, mask, isPrint), other, isPrint) == Some(mask)
  {
    var r := Assigned(groups, name, mask, isPrint);
    forall other
      ensures LastNamed(r, other) == LastNamed(groups, other)
    {
      SameNamesSameLookup(r, groups, other);
    }
  }

  // ---------------------------------------------------------------------
  // log_set_from_string
  // ---------------------------------------------------------------------

  /** strndup(str, 100): the configuration string is cut to this length. */
  const COPY_LIMIT: nat := 100

  /** The ';'-separated entries of a configuration string. */
  function Entries(str: string): seq<string>
  {
    Tokens(Prefix(str, COPY_LIMIT), {';'})
  }

  /**
   * The mask text the next group of a list sees. log_string_to_mask
   * tokenises its argument in place, so in the code as written the next
   * group sees only what strtok_r left readable; with a fresh copy per
   * group (inPlace false) it sees the whole text again.
   */
  function Residue(maskText: string, inPlace: bool): string
  {
    if inPlace then AfterStrtok(maskText, {','}) else maskText
  }

  /**
   * One group of an entry: its current print mask ("all" starts from 0)
   * edited by the mask text. None means the entry is abandoned: the group
   * is unknown or the mask text is rejected.
   */
  function GroupStep(groups: seq<Group>, name: string, maskText: string, standard: bv8): Option<seq<Group>>
  {
    var current := if name != "all" then MaskNamed(groups, name, true) else Some(0);
    if current.None? then None
    else match MaskAfter(maskText, current.value, standard)
      case None => None
      case Some(m) => Some(Assigned(groups, name, m, true))
  }

  /**
   * The groups of one entry, left to right. An unknown group or a bad mask
   * abandons the rest of the entry. "all" starts from mask 0.
   */
  function ApplyGroups(groups: seq<Group>, names: seq<string>, maskText: string,
                       standard: bv8, inPlace: bool): seq<Group>
    decreases |names|
  {
    if names == [] then groups
    else match GroupStep(groups, names[0], maskText, standard)
      case None => groups
      case Some(next) =>
        ApplyGroups(next, names[1..], Residue(maskText, inPlace), standard, inPlace)
  }

  /** One entry "groups=masks"; an entry without '=' is skipped. */
  function ApplyEntry(groups: seq<Group>, entry: string, standard: bv8, inPlace: bool): seq<Group>
  {
    var eq := RunLength(entry, {'='});
    if eq == |entry| then groups
    else ApplyGroups(groups, Tokens(entry[..eq], {','}), entry[eq + 1..], standard, inPlace)
  }

  function ApplyEntries(groups: seq<Group>, entries: seq<string>, standard: bv8, inPlace: bool): seq<Group>
    decreases |entries|
  {
    if entries == [] then groups
    else ApplyEntries(ApplyEntry(groups, entries[0], standard, inPlace), entries[1..], standard, inPlace)
  }

  /** The print masks after log_set_from_string(str). */
  function Configured(groups: seq<Group>, str: string, standard: bv8, inPlace: bool): seq<Group>
  {
    ApplyEntries(groups, Entries(str), standard, inPlace)
  }

  /** Two registries with the same groups, names and store masks: only print masks may differ. */
  predicate SameShape(a: seq<Group>, b: seq<Group>)
  {
    |a| == |b| && forall i :: 0 <= i < |a| ==> a[i].name == b[i].name && a[i].storeMask == b[i].storeMask
  }

  /** The group loop of an entry only ever edits print masks. */
  lemma {:induction false} GroupsKeepShape(groups: seq<Group>, names: seq<string>, maskText: string,
                                           standard: bv8, inPlace: bool)
    ensures SameShape(groups, ApplyGroups(groups, names, maskText, standard, inPlace))
    decreases |names|
  {
    if names != [] {
      var step := GroupStep(groups, names[0], maskText, standard);
      if step.Some? {
        var current := if names[0] != "all" then MaskNamed(groups, names[0], true) else Some(0);
        var m := MaskAfter(maskText, current.value, standard).value;
        GetAfterSet(groups, names[0], m, true);
        GroupsKeepShape(step.value, names[1..], Residue(maskText, inPlace), standard, inPlace);
      }
    }
  }

  /**
   * log_set_from_string edits print masks only: the registry keeps its
   * groups, their names and their store masks.
   */
  lemma {:induction false} ConfiguredKeepsShape(groups: seq<Group>, str: string, standard: bv8, inPlace: bool)
    ensures SameShape(groups, Configured(groups, str, standard, inPlace))
  {
    EntriesKeepShape(groups, Entries(str), standard, inPlace);
  }

  lemma {:induction false} EntriesKeepShape(groups: seq<Group>, entries: seq<string>, standard: bv8, inPlace: bool)
    ensures SameShape(groups, ApplyEntries(groups, entries, standard, inPlace))
    decreases |entries|
  {
    if entries != [] {
      var entry := entries[0];
      var eq := RunLength(entry, {'='});
      if eq < |entry| {
        GroupsKeepShape(groups, Tokens(entry[..eq], {','}), entry[eq + 1..], standard, inPlace);
      }
      var next := ApplyEntry(groups, entry, standard, inPlace);
      EntriesKeepShape(next, entries[1..], standard, inPlace);
    }
  }

  /** The text seen after the first group reads the same however often it is re-read. */
  lemma ResidueStable(maskText: string, inPlace: bool, start: bv8, standard: bv8)
    ensures MaskAfter(Residue(Residue(maskText, inPlace), inPlace), start, standard) ==
            MaskAfter(Residue(maskText, inPlace), start, standard)
  {
    if inPlace {
      var ts := Tokens(maskText, {','});
      TokensAfterStrtok(maskText, {','});
      TokensAfterStrtok(AfterStrtok(maskText, {','}), {','});
      assert Prefix(Prefix(ts, 1), 1) == Prefix(ts, 1);
    }
  }

  /** The first token of an accepted list is accepted on its own. */
  lemma FirstTokenAccepted(ts: seq<string>, standard: bv8)
    requires ApplyAll(ts, 0, standard).Some?
    ensures ApplyAll(Prefix(ts, 1), 0, standard).Some?
  {
    if ts != [] {
      assert ts == Prefix(ts, 1) + ts[1..];
      ApplyAllAppend(Prefix(ts, 1), ts[1..], 0, standard);
    }
  }

  /** A mask text that is accepted leaves a residue that is accepted. */
  lemma ResidueAccepted(maskText: string, inPlace: bool, start: bv8, standard: bv8)
    requires MaskAfter(maskText, 0, standard).Some?
    ensures MaskAfter(Residue(maskText, inPlace), start, standard).Some?
  {
    if inPlace {
      TokensAfterStrtok(maskText, {','});
      FirstTokenAccepted(Tokens(maskText, {','}), standard);
    }
    AcceptanceIgnoresStart(Tokens(Residue(maskText, inPlace), {','}), 0, start, standard);
  }

  /**
   * The effect of one group list whose groups all exist, are distinct and
   * are not "all", with a mask text that is accepted: the first group gets
   * the text applied to its own mask, every later group gets the residue
   * applied to its own mask, and groups outside the list keep their masks.
   */
  lemma {:induction false} GroupListEffect(groups: seq<Group>, names: seq<string>, maskText: string,
                                           standard: bv8, inPlace: bool)
    requires KnownDistinct(groups, names)
    requires MaskAfter(maskText, 0, standard).Some?
    ensures var r := ApplyGroups(groups, names, maskText, standard, inPlace);
      forall i :: 0 <= i < |names| ==>
        MaskNamed(r, names[i], true) ==
        MaskAfter(if i == 0 then maskText else Residue(maskText, inPlace),
                  MaskNamed(groups, names[i], true).value, standard)
    ensures var r := ApplyGroups(groups, names, maskText, standard, inPlace);
      forall n :: n !in names ==> MaskNamed(r, n, true) == MaskNamed(groups, n, true)
    decreases |names|
  {
    if names != [] {
      var n0 := names[0];
      var g1 := KnownGroupStep(groups, n0, maskText, standard);
      var rest := Residue(maskText, inPlace);
      ResidueAccepted(maskText, inPlace, 0, standard);
      forall i | 0 <= i < |names| - 1
        ensures names[1..][i] != n0
      {
        assert names[1..][i] == names[i + 1];
      }
      GroupListEffect(g1, names[1..], rest, standard, inPlace);
      var r := ApplyGroups(groups, names, maskText, standard, inPlace);
      assert r == ApplyGroups(g1, names[1..], rest, standard, inPlace);
      forall i | 0 <= i < |names|
        ensures MaskNamed(r, names[i], true) ==
                MaskAfter(if i == 0 then maskText else rest,
                          MaskNamed(groups, names[i], true).value, standard)
      {
        if i > 0 {
          assert names[i] == names[1..][i - 1];
          ResidueStable(maskText, inPlace, MaskNamed(g1, names[i], true).value, standard);
        } else {
          assert n0 !in names[1..];
        }
      }
    }
  }

  /** A group list whose groups all exist, are distinct and are not "all". */
  predicate KnownDistinct(groups: seq<Group>, names: seq<string>)
  {
    (forall i :: 0 <= i < |names| ==> names[i] != "all" && MaskNamed(groups, names[i], true).Some?) &&
    (forall i, j :: 0 <= i < j < |names| ==> names[i] != names[j])
  }

  /** One step for a known group with an accepted mask text, and what it leaves alone. */
  lemma KnownGroupStep(groups: seq<Group>, name: string, maskText: string, standard: bv8)
    returns (next: seq<Group>)
    requires name != "all" && MaskNamed(groups, name, true).Some?
    requires MaskAfter(maskText, 0, standard).Some?
    ensures GroupStep(groups, name, maskText, standard) == Some(next)
    ensures MaskNamed(next, name, true) == MaskAfter(maskText, MaskNamed(groups, name, true).value, standard)
    ensures forall n :: n != name ==> MaskNamed(next, n, true) == MaskNamed(groups, n, true)
  {
    var current := MaskNamed(groups, name, true).value;
    AcceptanceIgnoresStart(Tokens(maskText, {','}), 0, current, standard);
    var m := MaskAfter(maskText, current, standard).value;
    next := Assigned(groups, name, m, true);
    GetAfterSet(groups, name, m, true);
  }

  /**
   * As written: in "a,b=+info,-debug" every group after the first sees
   * only the first token of the mask list.
   */
  lemma AsWrittenLaterGroupsSeeFirstToken(groups: seq<Group>, names: seq<string>, maskText: string,
                                          standard: bv8)
    requires KnownDistinct(groups, names)
    requires MaskAfter(maskText, 0, standard).Some?
    ensures var r := ApplyGroups(groups, names, maskText, standard, true);
      forall i :: 1 <= i < |names| ==>
        MaskNamed(r, names[i], true) ==
        ApplyAll(Prefix(Tokens(maskText, {','}), 1), MaskNamed(groups, names[i], true).value, standard)
  {
    GroupListEffect(groups, names, maskText, standard, true);
    TokensAfterStrtok(maskText, {','});
  }

  /** The configuration of the example below, "a,b=+e,-t", and its parts. */
  const ADD_ERROR: string := "+" + "e"
  const DROP_TRACE: string := "-" + "t"
  const MASK_TEXT: string := ADD_ERROR + "," + DROP_TRACE
  const NAMES_TEXT: string := "a" + "," + "b"
  const EXAMPLE: string := NAMES_TEXT + "=" + MASK_TEXT

  lemma ExampleEntries()
    ensures Entries(EXAMPLE) == [EXAMPLE]
  {
    assert Prefix(EXAMPLE, COPY_LIMIT) == EXAMPLE;
    assert forall i :: 0 <= i < |EXAMPLE| ==> EXAMPLE[i] !in {';'};
    TokensOfPlain(EXAMPLE, {';'});
  }

  lemma ExampleSplit()
    ensures RunLength(EXAMPLE, {'='}) == 3 && EXAMPLE[..3] == NAMES_TEXT && EXAMPLE[4..] == MASK_TEXT
  {
    assert EXAMPLE == NAMES_TEXT + ['='] + MASK_TEXT;
    RunLengthBeforeDelim(NAMES_TEXT, '=', MASK_TEXT, {'='});
  }

  lemma ExampleNames()
    ensures Tokens(NAMES_TEXT, {','}) == ["a", "b"]
  {
    assert NAMES_TEXT == "a" + [','] + "b";
    TokensAround("a", ',', "b", {','});
    TokensOfPlain("a", {','});
    TokensOfPlain("b", {','});
  }

  lemma ExampleTokens()
    ensures Tokens(MASK_TEXT, {','}) == [ADD_ERROR, DROP_TRACE]
    ensures Tokens(ADD_ERROR, {','}) == [ADD_ERROR]
  {
    assert MASK_TEXT == ADD_ERROR + [','] + DROP_TRACE;
    TokensAround(ADD_ERROR, ',', DROP_TRACE, {','});
    TokensOfPlain(ADD_ERROR, {','});
    TokensOfPlain(DROP_TRACE, {','});
  }

  /** The example is one entry: groups "a" and "b", mask text "+e,-t". */
  lemma ExampleEntry(groups: seq<Group>, inPlace: bool)
    ensures Configured(groups, EXAMPLE, 0, inPlace) ==
            ApplyGroups(groups, ["a", "b"], MASK_TEXT, 0, inPlace)
  {
    var e := EXAMPLE;
    var es: seq<string> := [e];
    ExampleEntries();
    assert Configured(groups, e, 0, inPlace) == ApplyEntries(groups, es, 0, inPlace);
    assert es[1..] == [];
    assert ApplyEntries(groups, es, 0, inPlace) == ApplyEntry(groups, e, 0, inPlace);
    ExampleSplit();
    ExampleNames();
    assert ApplyEntry(groups, e, 0, inPlace) ==
           ApplyGroups(groups, Tokens(e[..3], {','}), e[4..], 0, inPlace);
  }

  /** "+e" adds error. */
  lemma ExampleAddError(m: bv8)
    ensures MaskAfter(ADD_ERROR, m, 0) == Some(m | 0x10)
  {
    ExampleWords();
    LevelWordMeaning("e", Error, m, 0);
  }

  /** "-t" drops trace. */
  lemma ExampleDropTrace(m: bv8)
    ensures MaskAfter(DROP_TRACE, m, 0) == Some(m & !0x01)
  {
    ExampleWords();
    LevelWordMeaning("t", Trace, m, 0);
  }

  /** "+e,-t" adds error and drops trace. */
  lemma ExampleWholeList(m: bv8)
    ensures MaskAfter(MASK_TEXT, m, 0) == Some((m | 0x10) & !0x01)
  {
    ExampleAddError(m);
    ExampleDropTrace(m | 0x10);
    MaskListIsSequential(ADD_ERROR, DROP_TRACE, m, 0);
  }

  /** Its first token alone only adds error. */
  lemma ExampleFirstToken(m: bv8)
    ensures ApplyAll(Prefix(Tokens(MASK_TEXT, {','}), 1), m, 0) == Some(m | 0x10)
  {
    ExampleAddError(m);
    ExampleTokens();
    assert Prefix(Tokens(MASK_TEXT, {','}), 1) == Tokens(ADD_ERROR, {','});
  }

  /** "e" abbreviates error (not trace, debug, info or warning); "t" abbreviates trace. */
  lemma ExampleWords()
    ensures FirstMatch("e", 0) == Some(4) && KEYWORDS[4] == Named(Error)
    ensures FirstMatch("t", 0) == Some(0) && KEYWORDS[0] == Named(Trace)
  {
    assert "e"[0] == 'e' && Lower('e') == 'e';
    assert "trace"[0] == 't' && "debug"[0] == 'd' && "info"[0] == 'i' && "warning"[0] == 'w';
    assert !PrefixIgnoreCase("e", "trace") && !PrefixIgnoreCase("e", "debug");
    assert !PrefixIgnoreCase("e", "info") && !PrefixIgnoreCase("e", "warning");
  }

  /** Two groups "a" and "b" with every level enabled. */
  const EXAMPLE_GROUPS: seq<Group> := [Group("a", 0x1F, 0x1F), Group("b", 0x1F, 0x1F)]

  /** The example's groups are found under their names. */
  lemma ExampleLookup()
    ensures MaskNamed(EXAMPLE_GROUPS, "a", true) == Some(0x1F)
    ensures MaskNamed(EXAMPLE_GROUPS, "b", true) == Some(0x1F)
    ensures "a" != "b" && "a" != "all" && "b" != "all"
  {
    assert "a"[0] != "b"[0];
    assert "a" != "all" && "b" != "all" by {
      assert |"a"| != |"all"|;
    }
    assert EXAMPLE_GROUPS[..1] == [Group("a", 0x1F, 0x1F)];
    assert LastNamed(EXAMPLE_GROUPS, "a") == LastNamed(EXAMPLE_GROUPS[..1], "a");
  }

  /** The example's group list meets the premises of GroupListEffect. */
  lemma ExampleGroupList()
    ensures KnownDistinct(EXAMPLE_GROUPS, ["a", "b"])
  {
    var names := ["a", "b"];
    ExampleLookup();
    forall i | 0 <= i < |names|
      ensures names[i] != "all" && MaskNamed(EXAMPLE_GROUPS, names[i], true).Some?
    {
      if i == 0 { assert names[i] == "a"; } else { assert names[i] == "b"; }
    }
    forall i, j | 0 <= i < j < |names|
      ensures names[i] != names[j]
    {
      assert names[i] == "a" && names[j] == "b";
    }
  }

  /**
   * The input that shows it: the configuration "a,b=+e,-t" (add error,
   * drop trace) on EXAMPLE_GROUPS. As written "b" keeps trace while "a"
   * loses it.
   */
  lemma InPlaceTokenisingExample()
    ensures MaskNamed(Configured(EXAMPLE_GROUPS, EXAMPLE, 0, true), "a", true) == Some(0x1E)
    ensures MaskNamed(Configured(EXAMPLE_GROUPS, EXAMPLE, 0, true), "b", true) == Some(0x1F)
  {
    ExampleLookup();
    ExampleGroupList();
    ExampleWholeList(0);
    ExampleEntry(EXAMPLE_GROUPS, true);
    ExampleWholeList(0x1F);
    ExampleFirstToken(0x1F);
    AsWrittenLaterGroupsSeeFirstToken(EXAMPLE_GROUPS, ["a", "b"], MASK_TEXT, 0);
    GroupListEffect(EXAMPLE_GROUPS, ["a", "b"], MASK_TEXT, 0, true);
  }

  /** With a fresh copy of the mask text, "b" loses trace like "a". */
  lemma CopyingExample()
    ensures MaskNamed(Configured(EXAMPLE_GROUPS, EXAMPLE, 0, false), "a", true) == Some(0x1E)
    ensures MaskNamed(Configured(EXAMPLE_GROUPS, EXAMPLE, 0, false), "b", true) == Some(0x1E)
  {
    ExampleLookup();
    ExampleGroupList();
    ExampleWholeList(0);
    ExampleEntry(EXAMPLE_GROUPS, false);
    ExampleWholeList(0x1F);
    CorrectedEveryGroupSeesWholeList(EXAMPLE_GROUPS, ["a", "b"], MASK_TEXT, 0);
  }

  /** Corrected: every group of the list gets the whole mask list. */
  lemma CorrectedEveryGroupSeesWholeList(groups: seq<Group>, names: seq<string>, maskText: string,
                                         standard: bv8)
    requires KnownDistinct(groups, names)
    requires MaskAfter(maskText, 0, standard).Some?
    ensures var r := ApplyGroups(groups, names, maskText, standard, false);
      forall i :: 0 <= i < |names| ==>
        MaskNamed(r, names[i], true) == MaskAfter(maskText, MaskNamed(groups, names[i], true).value, standard)
    ensures var r := ApplyGroups(groups, names, maskText, standard, false);
      forall n :: n !in names ==> MaskNamed(r, n, true) == MaskNamed(groups, n, true)
  {
    GroupListEffect(groups, names, maskText, standard, false);
  }

  // ---------------------------------------------------------------------
  // log_event_group
  // ---------------------------------------------------------------------

  /** -1 (dropped), or handed on to be printed and/or stored. */
  datatype Outcome = Dropped | Logged(printed: bool, stored: bool)

  /** The group an event is logged under: no group means LOG_DEFAULT. */
  function EventGroup(groups: seq<Group>, defaultGroup: nat, group: Option<nat>): (g: Group)
    requires defaultGroup < |groups|
    requires group.Some? ==> group.value < |groups|
    ensures g in groups
    ensures group.None? ==> g == groups[defaultGroup]
  {
    if group.Some? then groups[group.value] else groups[defaultGroup]
  }

  /** Whether the outcome hands the event to the printer (isPrint) or the store. */
  predicate Handled(o: Outcome, isPrint: bool)
  {
    o.Logged? && (if isPrint then o.printed else o.stored)
  }

  /**
   * log_event_group: the event is dropped exactly when neither the print
   * mask nor the store mask of its group has the level's bit; otherwise it
   * is printed and stored as those two bits say.
   */
  function Event(groups: seq<Group>, defaultGroup: nat, level: Level, group: Option<nat>): (o: Outcome)
    requires defaultGroup < |groups|
    requires group.Some? ==> group.value < |groups|
    ensures var g := EventGroup(groups, defaultGroup, group);
      o == Dropped <==> g.printMask & Bit(level) == 0 && g.storeMask & Bit(level) == 0
    ensures var g := EventGroup(groups, defaultGroup, group);
      o.Logged? ==> o.printed == (g.printMask & Bit(level) != 0) && o.stored == (g.storeMask & Bit(level) != 0)
  {
    var g := EventGroup(groups, defaultGroup, group);
    var doPrint := g.printMask & Bit(level) != 0;
    var doStore := g.storeMask & Bit(level) != 0;
    if !doPrint && !doStore then Dropped else Logged(doPrint, doStore)
  }

  /** An event without a group is treated as one of LOG_DEFAULT. */
  lemma EventDefaultsToDefaultGroup(groups: seq<Group>, defaultGroup: nat, level: Level)
    requires defaultGroup < |groups|
    ensures Event(groups, defaultGroup, level, None) == Event(groups, defaultGroup, level, Some(defaultGroup))
  {
  }

  /**
   * After a group's print (or store) mask is set to a level, its events are
   * printed (or stored) exactly when they are of that level or higher; after
   * "none" they never are. The other mask, and so the other channel, is
   * left as it was.
   */
  lemma EventFollowsSelection(groups: seq<Group>, defaultGroup: nat, name: string,
                              l: Level, level: Level, isPrint: bool)
    requires defaultGroup < |groups|
    requires name != "all" && LastNamed(groups, name).Some?
    ensures var r := Assigned(groups, name, Select(Bit(l), MaskSet), isPrint);
      Handled(Event(r, defaultGroup, level, LastNamed(groups, name)), isPrint) <==> Rank(l) <= Rank(level)
    ensures var r := Assigned(groups, name, 0, isPrint);
      !Handled(Event(r, defaultGroup, level, LastNamed(groups, name)), isPrint)
    ensures forall mask :: var r := Assigned(groups, name, mask, isPrint);
      Handled(Event(r, defaultGroup, level, LastNamed(groups, name)), !isPrint) ==
      Handled(Event(groups, defaultGroup, level, LastNamed(groups, name)), !isPrint)
  {
    SetSelectsLevelsAtOrAbove(l, level);
    forall mask: bv8
      ensures var r := Assigned(groups, name, mask, isPrint);
        Handled(Event(r, defaultGroup, level, LastNamed(groups, name)), !isPrint) ==
        Handled(Event(groups, defaultGroup, level, LastNamed(groups, name)), !isPrint)
    {
      GetAfterSet(groups, name, mask, isPrint);
    }
  }

  // ---------------------------------------------------------------------
  // The registry of groups, updated in place
  // ---------------------------------------------------------------------

  class Log {
    /** The log_groups linker section, in link order. */
    var groups: seq<Group>
    /** Index of LOG_DEFAULT. */
    const defaultGroup: nat
    /** LOG_DEFAULT_MASK, the mask "standard" stands for. */
    const standard: bv8

    predicate Valid()
      reads this
    {
      defaultGroup < |groups|
    }

    constructor (groups: seq<Group>, defaultGroup: nat, standard: bv8)
      requires defaultGroup < |groups|
      ensures Valid()
      ensures this.groups == groups && this.defaultGroup == defaultGroup && this.standard == standard
    {
      this.groups := groups;
      this.defaultGroup := defaultGroup;
      this.standard := standard;
    }

    /** log_find_group: a scan that remembers the latest match. */
    method FindGroup(name: string) returns (r: Option<nat>)
      ensures r == LastNamed(groups, name)
    {
      r := None;
      var i := 0;
      while i < |groups|
        invariant 0 <= i <= |groups|
        invariant r == LastNamed(groups[..i], name)
      {
        assert groups[..i + 1][..i] == groups[..i];
        if groups[i].name == name {
          r := Some(i);
        }
        i := i + 1;
      }
      assert groups[..i] == groups;
    }

    /** log_get_mask */
    method GetMask(name: string, isPrint: bool) returns (r: Option<bv8>)
      ensures r == MaskNamed(groups, name, isPrint)
    {
      var k := FindGroup(name);
      if k.None? {
        return None;
      }
      r := Some(MaskOf(groups[k.value], isPrint));
    }

    /** log_event_group on the registry as it stands. */
    method LogEvent(level: Level, group: Option<nat>) returns (o: Outcome)
      requires Valid()
      requires group.Some? ==> group.value < |groups|
      ensures o == Event(groups, defaultGroup, level, group)
    {
      var g := if group.Some? then groups[group.value] else groups[defaultGroup];
      var doPrint := g.printMask & Bit(level) != 0;
      var doStore := g.storeMask & Bit(level) != 0;
      if !doPrint && !doStore {
        return Dropped;
      }
      return Logged(doPrint, doStore);
    }

    /** log_set_mask */
    method SetMask(name: string, mask: bv8, isPrint: bool)
      requires Valid()
      modifies this`groups
      ensures Valid()
      ensures groups == Assigned(old(groups), name, mask, isPrint)
    {
      if name == "all" {
        var i := 0;
        while i < |groups|
          invariant 0 <= i <= |groups| == |old(groups)|
          invariant forall j :: 0 <= j < i ==> groups[j] == WithMask(old(groups)[j], mask, isPrint)
          invariant forall j :: i <= j < |groups| ==> groups[j] == old(groups)[j]
        {
          groups := groups[i := WithMask(groups[i], mask, isPrint)];
          i := i + 1;
        }
        return;
      }
      var k := FindGroup(name);
      if k.Some? {
        groups := groups[k.value := WithMask(groups[k.value], mask, isPrint)];
      }
    }

    /** One pass of the group loop; false is the jump to the next entry. */
    method SetGroup(name: string, maskText: string) returns (ok: bool)
      requires Valid()
      modifies this`groups
      ensures Valid()
      ensures ok == GroupStep(old(groups), name, maskText, standard).Some?
      ensures ok ==> groups == GroupStep(old(groups), name, maskText, standard).value
      ensures !ok ==> groups == old(groups)
    {
      var current: Option<bv8> := Some(0);
      if name != "all" {
        current := GetMask(name, true);
        if current.None? {
          return false;
        }
      }
      var mask := StringToMask(maskText, current.value, standard);
      if mask.None? {
        return false;
      }
      SetMask(name, mask.value, true);
      return true;
    }

    /**
     * The group loop of one entry. inPlace says whether the mask text is
     * the buffer log_string_to_mask tokenises (as written) or a fresh copy
     * for every group.
     */
    method SetEntry(entry: string, inPlace: bool)
      requires Valid()
      modifies this`groups
      ensures Valid()
      ensures groups == ApplyEntry(old(groups), entry, standard, inPlace)
    {
      var eq := RunLength(entry, {'='});
      if eq == |entry| {
        return;
      }
      SetGroups(Tokens(entry[..eq], {','}), entry[eq + 1..], inPlace);
    }

    /** The loop over the ','-separated groups of one entry. */
    method SetGroups(names: seq<string>, maskText: string, inPlace: bool)
      requires Valid()
      modifies this`groups
      ensures Valid()
      ensures groups == ApplyGroups(old(groups), names, maskText, standard, inPlace)
    {
      var text := maskText;
      var i := 0;
      while i < |names|
        invariant 0 <= i <= |names|
        invariant Valid()
        invariant ApplyGroups(groups, names[i..], text, standard, inPlace) ==
                  ApplyGroups(old(groups), names, maskText, standard, inPlace)
      {
        assert names[i..][1..] == names[i + 1..];
        var ok := SetGroup(names[i], text);
        if !ok {
          return;
        }
        text := Residue(text, inPlace);
        i := i + 1;
      }
      assert names[i..] == [];
    }

    /** log_set_from_string as written (the allocation failure is left out). */
    method SetFromString(str: string)
      requires Valid()
      modifies this`groups
      ensures Valid()
      ensures groups == Configured(old(groups), str, standard, true)
    {
      SetEntries(str, true);
    }

    /** log_set_from_string with a fresh copy of the mask text for every group. */
    method SetFromStringCopying(str: string)
      requires Valid()
      modifies this`groups
      ensures Valid()
      ensures groups == Configured(old(groups), str, standard, false)
    {
      SetEntries(str, false);
    }

    /** The entry loop over the ';'-separated entries of the copied string. */
    method SetEntries(str: string, inPlace: bool)
      requires Valid()
      modifies this`groups
      ensures Valid()
      ensures groups == Configured(old(groups), str, standard, inPlace)
    {
      var entries := Entries(str);
      var i := 0;
      while i < |entries|
        invariant 0 <= i <= |entries|
        invariant Valid()
        invariant ApplyEntries(groups, entries[i..], standard, inPlace) ==
                  Configured(old(groups), str, standard, inPlace)
      {
        assert entries[i..][1..] == entries[i + 1..];
        SetEntry(entries[i], inPlace);
        i := i + 1;
      }
      assert entries[i..] == [];
    }
  }
}
