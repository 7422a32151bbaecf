/**
 * gosh_getopt (lib/libgosh/src/gosh/getopt.c): the option scanner of the
 * shell's commands. The cursor lives in the command context: `optind` is
 * the word being read, `optsp` the position inside it, `optarg` the
 * argument of the last option (None for NULL) and `optopt` the last
 * option character. Each call reads one option character and moves the
 * cursor past it.
 */
module GetOpt {
  import opened Common

  const EOF: int := -1
  const UNKNOWN: int := '?' as int

  /** The cursor fields of a command context. */
  datatype Cursor = Cursor(optind: nat, optsp: nat, optarg: Option<string>, optopt: char)

  /**
   * Where a call can be made: the words are C strings, and a position
   * past the first inside a word points at one of its characters (the
   * call reads it without checking).
   */
  predicate WellPlaced(argv: seq<string>, s: Cursor)
  {
    (forall i :: 0 <= i < |argv| ==> IsCString(argv[i])) &&
    s.optsp >= 1 &&
    (s.optsp > 1 ==> s.optind < |argv| && s.optsp < |argv[s.optind]|)
  }

  /** The cursor moved strictly forward: a later word, or further into the same one. */
  predicate Advanced(s: Cursor, t: Cursor)
  {
    t.optind > s.optind || (t.optind == s.optind && t.optsp > s.optsp)
  }

  /** The word the cursor is in (empty past the end). */
  function Word(argv: seq<string>, s: Cursor): string
  {
    if s.optind < |argv| then argv[s.optind] else []
  }

  /** The word at the cursor is not an option: past the end, not '-'-led, or "-" alone. */
  predicate NotAnOption(argv: seq<string>, s: Cursor)
  {
    s.optind >= |argv| || At(argv[s.optind], 0) != '-' || At(argv[s.optind], 1) == '\0'
  }

  /** Whether c is an option letter of `opts` that takes an argument (followed by ':'). */
  predicate TakesArgument(opts: string, c: char)
  {
    RunLength(opts, {c}) < |opts| && At(opts, RunLength(opts, {c}) + 1) == ':'
  }

  /**
   * One call of gosh_getopt: the value returned and the new cursor.
   */
  function Step(argv: seq<string>, opts: string, s: Cursor): (out: (int, Cursor))
    requires WellPlaced(argv, s)
    ensures WellPlaced(argv, out.1)
    ensures out.0 == EOF ==> s.optsp == 1 && out.1.optarg == s.optarg && out.1.optopt == s.optopt
    ensures out.0 == EOF ==> out.1 == s || (out.1 == s.(optind := s.optind + 1) && Word(argv, s) == "--")
    ensures out.0 != EOF ==> Advanced(s, out.1) && out.1.optind <= |argv| &&
                             s.optind < |argv| && s.optsp < |argv[s.optind]| &&
                             out.1.optopt == argv[s.optind][s.optsp]
    ensures out.0 != EOF && out.0 != UNKNOWN ==> out.0 == out.1.optopt as int
    ensures out.1.optsp > 1 ==> out.1.optind == s.optind && out.1.optsp == s.optsp + 1
  {
    var w := Word(argv, s);
    if s.optsp == 1 && NotAnOption(argv, s) then (EOF, s)
    else if s.optsp == 1 && w == "--" then (EOF, s.(optind := s.optind + 1))
    else
      var c := w[s.optsp];
      var at := RunLength(opts, {c});
      var s1 := s.(optopt := c);
      if c == ':' || at == |opts| then
        if At(w, s.optsp + 1) == '\0' then (UNKNOWN, s1.(optind := s.optind + 1, optsp := 1))
        else (UNKNOWN, s1.(optsp := s.optsp + 1))
      else if At(opts, at + 1) == ':' then
        if At(w, s.optsp + 1) != '\0' then
          (c as int, s1.(optarg := Some(w[s.optsp + 1..]), optind := s.optind + 1, optsp := 1))
        else if s.optind + 1 >= |argv| then (UNKNOWN, s1.(optind := s.optind + 1, optsp := 1))
        else (c as int, s1.(optarg := Some(argv[s.optind + 1]), optind := s.optind + 2, optsp := 1))
      else if At(w, s.optsp + 1) == '\0' then (c as int, s1.(optarg := None, optind := s.optind + 1, optsp := 1))
      else (c as int, s1.(optarg := None, optsp := s.optsp + 1))
  }

  /** At the start of a word, a non-option word or the end of argv stops the scan where it is. */
  lemma StopsAtNonOption(argv: seq<string>, opts: string, s: Cursor)
    requires WellPlaced(argv, s) && s.optsp == 1 && NotAnOption(argv, s)
    ensures Step(argv, opts, s) == (EOF, s)
  {
  }

  /** "--" is consumed and ends the scan. */
  lemma DoubleDashEnds(argv: seq<string>, opts: string, s: Cursor)
    requires WellPlaced(argv, s) && s.optsp == 1 && s.optind < |argv| && argv[s.optind] == "--"
    ensures Step(argv, opts, s) == (EOF, s.(optind := s.optind + 1))
  {
    assert At(argv[s.optind], 0) == '-' && At(argv[s.optind], 1) == '-';
  }

  /**
   * An option character that is ':' or not among `opts` gives '?' and
   * steps past that character, to the next word at the end of this one.
   */
  lemma UnknownOption(argv: seq<string>, opts: string, s: Cursor)
    requires WellPlaced(argv, s) && !(s.optsp == 1 && NotAnOption(argv, s))
    requires !(s.optsp == 1 && argv[s.optind] == "--")
    requires var c := argv[s.optind][s.optsp]; c == ':' || c !in opts
    ensures var (r, t) := Step(argv, opts, s);
            r == UNKNOWN && t.optopt == argv[s.optind][s.optsp] && t.optarg == s.optarg &&
            (if s.optsp + 1 < |argv[s.optind]| then t.optind == s.optind && t.optsp == s.optsp + 1
             else t.optind == s.optind + 1 && t.optsp == 1)
  {
    var w := argv[s.optind];
    var c := w[s.optsp];
    assert c == ':' || RunLength(opts, {c}) == |opts|;
    assert s.optsp + 1 < |w| ==> At(w, s.optsp + 1) != '\0';
  }

  /**
   * An option that takes an argument uses the rest of its word when there
   * is one, else the next word; a missing argument at the end gives '?'
   * with the cursor past the end. Either way the next call starts a word.
   */
  lemma OptionWithArgument(argv: seq<string>, opts: string, s: Cursor)
    requires WellPlaced(argv, s) && !(s.optsp == 1 && NotAnOption(argv, s))
    requires !(s.optsp == 1 && argv[s.optind] == "--")
    requires var c := argv[s.optind][s.optsp]; c != ':' && TakesArgument(opts, c)
    ensures var (r, t) := Step(argv, opts, s);
            var w := argv[s.optind];
            t.optsp == 1 &&
            (if s.optsp + 1 < |w| then r == w[s.optsp] as int && t.optarg == Some(w[s.optsp + 1..]) && t.optind == s.optind + 1
             else if s.optind + 1 < |argv| then r == w[s.optsp] as int && t.optarg == Some(argv[s.optind + 1]) && t.optind == s.optind + 2
             else r == UNKNOWN && t.optarg == s.optarg && t.optind >= |argv|)
  {
    var w := argv[s.optind];
    assert s.optsp + 1 < |w| ==> At(w, s.optsp + 1) != '\0';
  }

  /**
   * A flag clears optarg and steps to the next character of a grouped
   * word such as "-abc", or to the next word after its last one.
   */
  lemma FlagOption(argv: seq<string>, opts: string, s: Cursor)
    requires WellPlaced(argv, s) && !(s.optsp == 1 && NotAnOption(argv, s))
    requires !(s.optsp == 1 && argv[s.optind] == "--")
    requires var c := argv[s.optind][s.optsp]; c != ':' && c in opts && !TakesArgument(opts, c)
    ensures var (r, t) := Step(argv, opts, s);
            r == argv[s.optind][s.optsp] as int && t.optarg.None? &&
            (if s.optsp + 1 < |argv[s.optind]| then t.optind == s.optind && t.optsp == s.optsp + 1
             else t.optind == s.optind + 1 && t.optsp == 1)
  {
    var w := argv[s.optind];
    var c := w[s.optsp];
    assert RunLength(opts, {c}) < |opts| by {
      var k :| 0 <= k < |opts| && opts[k] == c;
      assert opts[k] in {c};
    }
    assert s.optsp + 1 < |w| ==> At(w, s.optsp + 1) != '\0';
  }

  /**
   * What is left to scan: the words after the cursor, then the characters
   * after it in its own word. Every call that does not end the scan makes
   * it smaller.
   */
  function Remaining(argv: seq<string>, s: Cursor): (nat, nat)
  {
    (if s.optind <= |argv| then |argv| - s.optind else 0,
     if s.optind < |argv| && s.optsp <= |argv[s.optind]| then |argv[s.optind]| - s.optsp else 0)
  }

  lemma StepShrinksRemaining(argv: seq<string>, opts: string, s: Cursor)
    requires WellPlaced(argv, s) && Step(argv, opts, s).0 != EOF
    ensures var t := Step(argv, opts, s).1;
            Remaining(argv, t).0 < Remaining(argv, s).0 ||
            (Remaining(argv, t).0 == Remaining(argv, s).0 && Remaining(argv, t).1 < Remaining(argv, s).1)
  {
  }

  /** A command context's option cursor over its argument words. */
  class Context {
    const argv: seq<string>
    var optind: nat
    var optsp: nat
    var optarg: Option<string>
    var optopt: char

    function Position(): Cursor
      reads this
    {
      Cursor(optind, optsp, optarg, optopt)
    }

    ghost predicate Valid()
      reads this
    {
      WellPlaced(argv, Position())
    }

    /** A fresh context: scanning starts at the word after the command name. */
    constructor(argv: seq<string>)
      requires forall i :: 0 <= i < |argv| ==> IsCString(argv[i])
      ensures this.argv == argv && Position() == Cursor(1, 1, None, '\0')
      ensures Valid()
    {
      this.argv := argv;
      optind := 1;
      optsp := 1;
      optarg := None;
      optopt := '\0';
    }

    /** gosh_getopt */
    method Next(opts: string) returns (r: int)
      requires Valid()
      modifies this`optind, this`optsp, this`optarg, this`optopt
      ensures Valid()
      ensures (r, Position()) == Step(argv, opts, old(Position()))
    {
      if optsp == 1 {
        if optind >= |argv| || At(argv[optind], 0) != '-' || At(argv[optind], 1) == '\0' {
          return EOF;
        } else if argv[optind] == "--" {
          optind := optind + 1;
          return EOF;
        }
      }
      var c := argv[optind][optsp];
      optopt := c;
      var at := RunLength(opts, {c});
      if c == ':' || at == |opts| {
        optsp := optsp + 1;
        if At(argv[optind], optsp) == '\0' {
          optind := optind + 1;
          optsp := 1;
        }
        return UNKNOWN;
      }
      if At(opts, at + 1) == ':' {
        if At(argv[optind], optsp + 1) != '\0' {
          optarg := Some(argv[optind][optsp + 1..]);
          optind := optind + 1;
        } else {
          optind := optind + 1;
          if optind >= |argv| {
            optsp := 1;
            return UNKNOWN;
          }
          optarg := Some(argv[optind]);
          optind := optind + 1;
        }
        optsp := 1;
      } else {
        optsp := optsp + 1;
        if At(argv[optind], optsp) == '\0' {
          optsp := 1;
          optind := optind + 1;
        }
        optarg := None;
      }
      return c as int;
    }

    /**
     * The loop every command runs over its options: call until EOF,
     * collecting what each call returned. It always ends, because each
     * call that does not return EOF moves the cursor forward.
     */
    method All(opts: string) returns (seen: seq<int>)
      requires Valid()
      modifies this`optind, this`optsp, this`optarg, this`optopt
      ensures Valid()
      ensures EOF !in seen
      ensures optsp == 1
    {
      seen := [];
      var c := Next(opts);
      while c != EOF
        invariant Valid()
        invariant EOF !in seen
        invariant c == EOF ==> optsp == 1
        decreases Remaining(argv, Position()).0, Remaining(argv, Position()).1, if c == EOF then 0 else 1
      {
        seen := seen + [c];
        ghost var before := Position();
        c := Next(opts);
        if c != EOF {
          StepShrinksRemaining(argv, opts, before);
        }
      }
    }
  }
}
