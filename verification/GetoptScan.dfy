/** getopt over repeated calls (Wnn/etc/getopt.c:394-622, 773-969): the scan of the argument
    vector, and what the vector looks like when the scan is over.

    Pointers into strings become the strings that remain; NULL and "" for `nextchar` mean the
    same to the code and are both "". */
module GetoptScan {
  import opened BlockExchange
  import opened OptionDecode
  import opened ScanMeaning

  function Min(a: nat, b: nat): (m: nat)
    ensures m <= a && m <= b && (m == a || m == b)
  {
    if a < b then a else b
  }

  function FlagOf(optstring: string): Option<char> {
    if At(optstring, 0) in {'-', '+'} then Some(optstring[0]) else None
  }

  /** The option string without its ordering flag. */
  function Unflagged(optstring: string): string {
    if At(optstring, 0) in {'-', '+'} then optstring[1..] else optstring
  }

  function OrderingOf(optstring: string, posixlyCorrect: bool): Ordering {
    if At(optstring, 0) == '-' then RETURN_IN_ORDER
    else if At(optstring, 0) == '+' || posixlyCorrect then REQUIRE_ORDER
    else PERMUTE
  }

  // ----- the scanner -----

  class Scanner {
    const argv: array<string>
    var optind: nat
    var firstNonopt: nat
    var lastNonopt: nat
    var nextchar: string
    var optarg: Option<string>
    var optopt: int
    var longind: Option<nat>
    var ordering: Ordering
    var initialized: bool
    ghost var orig: seq<string>   // the vector as it was when scanning began
    ghost var start: nat          // optind when scanning began
    ghost var log: seq<Report>    // what the calls have given back since then
    ghost var target: Outcome     // what the scan is to come to

    constructor (argv: array<string>)
      ensures this.argv == argv && !initialized && optind == 1 && nextchar == ""
    {
      this.argv := argv;
      optind, firstNonopt, lastNonopt := 1, 1, 1;
      nextchar, optarg, optopt, longind := "", None, '?' as int, None;
      ordering, initialized := PERMUTE, false;
      orig, start, log, target := argv[..], 1, [], Overrun([]);
    }

    /** What holds between two calls. */
    ghost predicate Between()
      reads this, argv
    {
      && initialized
      && start <= firstNonopt <= lastNonopt <= optind <= argv.Length == |orig|
      && argv[..start] == orig[..start] && argv[optind..] == orig[optind..]
      && (nextchar != "" ==>
            && optind < argv.Length && !NonOption(argv[optind]) && argv[optind] != "--")
      && (ordering != PERMUTE ==> firstNonopt == lastNonopt == start)
    }

    /** The elements moved over so far. */
    ghost function Done(): seq<string>
      requires Between()
      reads this, argv
    {
      argv[start..firstNonopt] + argv[lastNonopt..optind]
    }

    /** The operands skipped so far. */
    ghost function Skipped(): seq<string>
      requires Between()
      reads this, argv
    {
      argv[firstNonopt..lastNonopt]
    }

    /** What has been done so far, and the scan of what is left when the next call looks into opts,
        make up the target. */
    ghost predicate OnTrack(cfg: Config, opts: string)
      requires Between() && Demands(cfg, opts) && Demands(cfg, cfg.optstring)
      reads this, argv
    {
      target == Prepend(Done(), Skipped(), log, Rest(cfg, opts, ordering, orig, optind, nextchar))
    }

    /** Where the scan stands, for the argument that repeated calls come to an end. */
    ghost function Left(): nat
      reads this, argv
    {
      if nextchar != "" then |nextchar| else if optind < argv.Length then |argv[optind]| + 1 else 0
    }

    /** _getopt_initialize (lines 394-458): returns optstring without the ordering flag. */
    method Initialize(cfg: Config, posixlyCorrect: bool) returns (opts: string)
      requires !initialized && 1 <= optind <= argv.Length && Demands(cfg, cfg.optstring)
      modifies this
      ensures Between() && optind == old(optind) && nextchar == "" && start == optind && orig == argv[..]
      ensures optarg == old(optarg) && log == []
      ensures opts == Unflagged(cfg.optstring) && ordering == OrderingOf(cfg.optstring, posixlyCorrect)
      ensures Demands(cfg, opts) && target == Scan(cfg, opts, cfg.optstring, ordering, false, orig[start..], start)
      ensures OnTrack(cfg, opts)
    {
      hide Demands, Scan, Prepend, OrderingOf, Unflagged;
      firstNonopt, lastNonopt := optind, optind;
      nextchar := "";
      opts := ChooseOrdering(cfg.optstring, posixlyCorrect);
      initialized := true;
      UnflaggedDemands(cfg, cfg.optstring);
      orig, start, log := argv[..], optind, [];
      target := Scan(cfg, opts, cfg.optstring, ordering, false, orig[start..], start);
      PrependNothing(target);
      assert Done() == [] && Skipped() == [];
    }

    method ChooseOrdering(optstring: string, posixlyCorrect: bool) returns (opts: string)
      modifies this`ordering
      ensures opts == Unflagged(optstring) && ordering == OrderingOf(optstring, posixlyCorrect)
    {
      opts := optstring;
      if At(opts, 0) == '-' {
        ordering, opts := RETURN_IN_ORDER, opts[1..];
      } else if At(opts, 0) == '+' {
        ordering, opts := REQUIRE_ORDER, opts[1..];
      } else if posixlyCorrect {
        ordering := REQUIRE_ORDER;
      } else {
        ordering := PERMUTE;
      }
    }

    /** Puts the options just moved over in front of the operands skipped before them (lines 558-566). */
    method Regroup()
      requires Between() && nextchar == ""
      modifies this`firstNonopt, this`lastNonopt, argv
      ensures start <= firstNonopt <= optind
      ensures argv[start..firstNonopt] == old(Done()) && argv[firstNonopt..optind] == old(Skipped())
      ensures argv[..start] == orig[..start] && argv[optind..] == orig[optind..]
    {
      ghost var a, f, l, o := argv[..], firstNonopt, lastNonopt, optind;
      if firstNonopt != lastNonopt && lastNonopt != optind {
        Exchange(argv, firstNonopt, lastNonopt, optind);
        firstNonopt, lastNonopt := firstNonopt + (optind - lastNonopt), optind;
      } else if lastNonopt != optind {
        firstNonopt := optind;
      }
      Regrouped(a, argv[..], start, f, l, o, firstNonopt);
    }

    /** Regroups, then skips further operands (lines 558-574). */
    method SkipOperands() returns (ghost more: seq<string>)
      requires ordering == PERMUTE && Between() && nextchar == ""
      modifies this`optind, this`firstNonopt, this`lastNonopt, argv
      ensures Between() && lastNonopt == optind
      ensures Done() == old(Done()) && Skipped() == old(Skipped()) + more
      ensures old(optind) <= optind && more == orig[old(optind)..optind]
      ensures forall k :: 0 <= k < |more| ==> NonOption(more[k])
      ensures optind < argv.Length ==> !NonOption(argv[optind])
    {
      hide NonOption;
      Regroup();
      ghost var b, o := argv[..], optind;
      while optind < argv.Length && NonOption(argv[optind])
        modifies this`optind
        invariant o <= optind <= argv.Length
        invariant forall k :: o <= k < optind ==> NonOption(argv[k])
      {
        optind := optind + 1;
      }
      lastNonopt := optind;
      more := orig[o..optind];
      assert argv[..] == b;
      SkippedMore(b, orig, start, o, firstNonopt, optind);
      forall k | 0 <= k < |more| ensures NonOption(more[k]) {
        assert more[k] == b[o + k] == argv[o + k];
      }
    }

    /** "--" ends the options: it is moved over like an option and everything behind it skipped
        like operands (lines 581-592). */
    method Terminator()
      requires Between() && nextchar == "" && optind < argv.Length && argv[optind] == "--"
      requires lastNonopt == optind || firstNonopt == lastNonopt
      modifies this`optind, this`firstNonopt, this`lastNonopt, argv
      ensures start <= firstNonopt <= lastNonopt == optind == argv.Length && argv[..start] == orig[..start]
      ensures argv[start..firstNonopt] + argv[lastNonopt..optind] == old(Done()) + ["--"]
      ensures argv[firstNonopt..lastNonopt] == old(Skipped()) + orig[old(optind) + 1..]
    {
      ghost var a, f, l, o := argv[..], firstNonopt, lastNonopt, optind;
      optind := optind + 1;
      if firstNonopt != lastNonopt && lastNonopt != optind {
        Exchange(argv, firstNonopt, lastNonopt, optind);
        firstNonopt, lastNonopt := firstNonopt + (optind - lastNonopt), optind;
      } else if firstNonopt == lastNonopt {
        firstNonopt := optind;
      }
      lastNonopt := argv.Length;
      optind := argv.Length;
      Terminated(a, argv[..], orig, start, f, l, o, firstNonopt);
    }

    /** The scanner's variables after a decoding step. */
    ghost predicate Took(st: Step, optind0: nat, optopt0: int, longind0: Option<nat>, c: int)
      reads this
    {
      && c == st.ret && optind == optind0 + st.used && nextchar == st.next && optarg == st.optarg
      && optopt == (if st.optopt.Some? then st.optopt.value else optopt0)
      && longind == (if st.longind.Some? then st.longind else longind0)
    }

    /** Decodes the next option of argv[optind] (lines 639-969). */
    method DecodeElement(cfg: Config, opts: string) returns (c: int)
      requires nextchar != "" && optind < argv.Length && optarg == None && Demands(cfg, opts)
      modifies this`optind, this`nextchar, this`optarg, this`optopt, this`longind
      ensures Took(Decode(cfg, opts, old(argv[optind..]), old(nextchar)), old(optind), old(optopt), old(longind), c)
    {
      hide LongMatch, Matches, MyIndex, NameEnd;
      if AsLong(cfg, opts, argv[optind]) {
        var m := FindLong(cfg.longopts.value, nextchar[..NameEnd(nextchar)]);
        MatchIsUnique(cfg.longopts.value, nextchar[..NameEnd(nextchar)], m,
                      LongMatch(cfg.longopts.value, nextchar[..NameEnd(nextchar)]));
        match m {
          case Ambiguous =>
            nextchar, optind, optopt := "", optind + 1, 0;
            return '?' as int;
          case Found(i) =>
            optind := optind + 1;
            c := TakeLong(cfg, opts, nextchar, i, false);
            return;
          case NoMatch =>
            if !cfg.longOnly || At(argv[optind], 1) == '-' || MyIndex(opts, nextchar[0]).None? {
              nextchar, optind, optopt := "", optind + 1, 0;
              return '?' as int;
            }
        }
      }
      c := DecodeShortOption(cfg, opts);
    }

    /** A long option whose name was found, `optind` being behind that name (lines 690-746, 880-917). */
    method TakeLong(cfg: Config, opts: string, text: string, i: nat, short: bool) returns (c: int)
      requires cfg.longopts.Some? && i < |cfg.longopts.value| && optind <= argv.Length
      requires optarg == if short then Some(text) else None
      modifies this`optind, this`nextchar, this`optarg, this`optopt, this`longind
      ensures Took(LongFound(cfg, opts, text, i, 0, argv[old(optind)..], short), old(optind), old(optopt), old(longind), c)
    {
      hide NameEnd;
      var pfound := cfg.longopts.value[i];
      var nameend := NameEnd(text);
      if nameend < |text| {
        if pfound.hasArg != 0 {
          optarg := Some(text[nameend + 1..]);
        } else if short || cfg.opterr {
          nextchar := "";
          if !short { optopt := pfound.val; }
          return '?' as int;
        }
      } else if pfound.hasArg == 1 {
        if optind < argv.Length {
          optarg := Some(argv[optind]);
          optind := optind + 1;
        } else {
          nextchar := "";
          if !short { optopt := pfound.val; }
          return Complaint(opts);
        }
      }
      nextchar := "";
      longind := Some(i);
      return if pfound.flag then 0 else pfound.val;
    }

    /** One option character (lines 775-969). */
    method DecodeShortOption(cfg: Config, opts: string) returns (c: int)
      requires nextchar != "" && optind < argv.Length && optarg == None && Demands(cfg, opts)
      modifies this`optind, this`nextchar, this`optarg, this`optopt, this`longind
      ensures Took(DecodeShort(cfg, opts, old(argv[optind..]), old(nextchar)), old(optind), old(optopt), old(longind), c)
    {
      hide LongMatch, Matches, MyIndex, NameEnd, Complaint, At;
      ghost var tail := argv[optind..];
      var ch := nextchar[0];
      nextchar := nextchar[1..];
      var temp := MyIndex(opts, ch);
      IndexFindsChar(opts, ch);
      if nextchar == "" {
        optind := optind + 1;
      }
      if temp.None? || ch == ':' {
        optopt := ch as int;
        return '?' as int;
      }
      if ch == 'W' && At(temp.value, 1) == ';' {
        if nextchar != "" {
          optarg := Some(nextchar);
          optind := optind + 1;
        } else if optind == argv.Length {
          optopt := ch as int;
          return Complaint(opts);
        } else {
          assert tail[1] == argv[optind] && tail[2..] == argv[optind + 1..];
          optarg := Some(argv[optind]);
          optind := optind + 1;
        }
        assert tail[1..] == argv[old(optind) + 1..];
        c := TakeW(cfg, opts, optarg.value);
        return;
      }
      if At(temp.value, 1) == ':' {
        assert |tail| > 1 ==> tail[1] == argv[old(optind) + 1];
        c := TakeArgument(opts, ch, At(temp.value, 2) == ':');
        return;
      }
      return ch as int;
    }

    /** The argument of an option character, from the element or the next one (lines 922-967). */
    method TakeArgument(opts: string, ch: char, optional: bool) returns (c: int)
      requires optarg == None && optind <= argv.Length
      modifies this`optind, this`nextchar, this`optarg, this`optopt
      ensures Took(if old(nextchar) != "" then Step(ch as int, 1, "", Some(old(nextchar)), None, None)
                   else if optional then Step(ch as int, 0, "", None, None, None)
                   else if old(optind) == argv.Length then Step(Complaint(opts), 0, "", None, Some(ch as int), None)
                   else Step(ch as int, 1, "", Some(argv[old(optind)]), None, None),
                   old(optind), old(optopt), old(longind), c)
    {
      c := ch as int;
      if optional {
        if nextchar != "" {
          optarg := Some(nextchar);
          optind := optind + 1;
        } else {
          optarg := None;
        }
      } else if nextchar != "" {
        optarg := Some(nextchar);
        optind := optind + 1;
      } else if optind == argv.Length {
        optopt := ch as int;
        c := Complaint(opts);
      } else {
        optarg := Some(argv[optind]);
        optind := optind + 1;
      }
      nextchar := "";
    }

    /** -W name, `optind` being behind the name (lines 840-920). */
    method TakeW(cfg: Config, opts: string, text: string) returns (c: int)
      requires cfg.longopts.Some? && optind <= argv.Length && optarg == Some(text)
      modifies this`optind, this`nextchar, this`optarg, this`optopt, this`longind
      ensures Took(DecodeW(cfg, opts, text, 0, argv[old(optind)..]), old(optind), old(optopt), old(longind), c)
    {
      hide LongMatch, Matches, NameEnd;
      var m := FindLong(cfg.longopts.value, text[..NameEnd(text)]);
      MatchIsUnique(cfg.longopts.value, text[..NameEnd(text)], m, LongMatch(cfg.longopts.value, text[..NameEnd(text)]));
      match m {
        case Ambiguous =>
          nextchar, optind := "", optind + 1;
          c := '?' as int;
        case Found(i) =>
          c := TakeLong(cfg, opts, text, i, true);
        case NoMatch =>
          nextchar := "";
          c := 'W' as int;
      }
    }

    /** The scan is over: the vector holds the elements moved over first, then those that stayed, and
        optind is between them. */
    ghost predicate Finished()
      reads this, argv
    {
      && target.Outcome? && start <= |orig|
      && argv[..] == orig[..start] + target.moved + target.stayed
      && optind == start + |target.moved| && log == target.reports
    }

    method SkipTracked(cfg: Config, opts: string)
      requires ordering == PERMUTE && Between() && nextchar == "" && Demands(cfg, opts) && Demands(cfg, cfg.optstring)
      requires OnTrack(cfg, opts)
      modifies this`optind, this`firstNonopt, this`lastNonopt, argv
      ensures Between() && lastNonopt == optind && old(optind) <= optind && OnTrack(cfg, opts)
      ensures optind < argv.Length ==> !NonOption(argv[optind])
    {
      hide NonOption, Demands, Rest, Prepend;
      ghost var o, done, skipped := optind, Done(), Skipped();
      ghost var more := SkipOperands();
      RestSkipped(cfg, opts, orig, o, optind, more);
      AddSkipped(done, skipped, log, more, Rest(cfg, opts, PERMUTE, orig, optind, ""));
    }

    method TerminatorTracked(cfg: Config, opts: string)
      requires Between() && nextchar == "" && optind < argv.Length && argv[optind] == "--"
      requires lastNonopt == optind || firstNonopt == lastNonopt
      requires Demands(cfg, opts) && Demands(cfg, cfg.optstring) && OnTrack(cfg, opts)
      modifies this`optind, this`firstNonopt, this`lastNonopt, argv
      ensures optind == lastNonopt == argv.Length && Placed(log)
    {
      hide NonOption, Demands, Prepend;
      ghost var o, done, skipped := optind, Done(), Skipped();
      HeadOfRest(argv[..], orig, o);
      Terminator();
      AddTerminator(done, skipped, log, orig[o + 1..]);
    }

    /** All elements have been passed. */
    ghost predicate Placed(log0: seq<Report>)
      reads this, argv
    {
      && start <= firstNonopt <= lastNonopt <= optind == argv.Length == |orig| && argv[..start] == orig[..start]
      && (lastNonopt == optind || firstNonopt == lastNonopt)
      && target == Outcome(argv[start..firstNonopt] + argv[lastNonopt..optind], argv[firstNonopt..lastNonopt], log0)
    }

    /** The end of the scan: back to the first operand (lines 597-604). */
    method Finish()
      requires Placed(log)
      modifies this`optind
      ensures Finished()
    {
      AllPlaced(argv[..], orig, start, firstNonopt, lastNonopt);
      if firstNonopt != lastNonopt {
        optind := firstNonopt;
      }
    }

    /** Lines 552-556: only a caller that moved optind back finds the markers ahead of it. */
    method BoundMarkers(cfg: Config, opts: string)
      requires Between() && Demands(cfg, opts) && Demands(cfg, cfg.optstring)
      modifies this`firstNonopt, this`lastNonopt
      ensures Between() && OnTrack(cfg, opts) == old(OnTrack(cfg, opts))
      ensures firstNonopt == old(firstNonopt) && lastNonopt == old(lastNonopt)
    {
      hide Demands, Prepend, Rest;
      lastNonopt, firstNonopt := Min(lastNonopt, optind), Min(firstNonopt, optind);
    }

    /** On to an element that is not skipped, or to the end. */
    method ToNextElement(cfg: Config, opts: string)
      requires Between() && nextchar == "" && Demands(cfg, opts) && Demands(cfg, cfg.optstring) && OnTrack(cfg, opts)
      modifies this`optind, this`firstNonopt, this`lastNonopt, argv
      ensures if optind == argv.Length then Placed(log)
              else
                && Between() && OnTrack(cfg, opts) && argv[optind] != "--" && (ordering == PERMUTE ==> !NonOption(argv[optind]))
                && (if ordering == RETURN_IN_ORDER then optind == old(optind) else optind >= old(optind))
    {
      hide NonOption, Demands, Scan, Prepend, OnTrack, Scanner.Placed;
      BoundMarkers(cfg, opts);
      if ordering == PERMUTE {
        SkipTracked(cfg, opts);
      }
      if optind != argv.Length && argv[optind] == "--" {
        TerminatorTracked(cfg, opts);
      } else if optind == argv.Length {
        AllPassed(cfg, opts);
      }
    }

    /** The first half of a call: on to the next option element, or to the end
        (lines 547-622). None means that an option element is ready to be decoded. */
    method Advance(cfg: Config, opts: string) returns (r: Option<int>)
      requires Between() && nextchar == "" && Demands(cfg, opts) && Demands(cfg, cfg.optstring) && OnTrack(cfg, opts)
      modifies this`optind, this`firstNonopt, this`lastNonopt, this`nextchar, this`optarg, this`log, argv
      ensures Advanced(cfg, opts, r, old(optind), old(log))
      ensures r == None ==> optarg == old(optarg)
    {
      hide NonOption, Demands, Scan, Prepend, OnTrack, Scanner.Placed, Scanner.Finished, LeftOf;
      ToNextElement(cfg, opts);
      if optind == argv.Length {
        Finish();
        return Some(-1);
      }
      r := Meet(cfg, opts);
    }

    ghost method AllPassed(cfg: Config, opts: string)
      requires Between() && nextchar == "" && optind == argv.Length && (ordering == PERMUTE ==> lastNonopt == optind)
      requires Demands(cfg, opts) && Demands(cfg, cfg.optstring) && OnTrack(cfg, opts)
      ensures Placed(log)
    {
      assert orig[optind..] == [];
      assert Done() + [] == Done() && Skipped() + [] == Skipped() && log + [] == log;
    }

    /** What Advance achieves when it started at optind0. */
    ghost predicate Advanced(cfg: Config, opts: string, r: Option<int>, optind0: nat, log0: seq<Report>)
      requires Demands(cfg, opts) && Demands(cfg, cfg.optstring)
      reads this, argv
    {
      match r
      case None =>
        && Between() && OnTrack(cfg, opts) && log == log0
        && nextchar != "" && LeftOf(nextchar, argv[optind]) && optind0 <= optind
      case Some(c) =>
        if c == -1 then Finished() && log == log0
        else
          && Between() && OnTrack(cfg, cfg.optstring)
          && c == 1 && ordering == RETURN_IN_ORDER && nextchar == "" && optind == optind0 + 1
          && optarg.Some? && log == log0 + [OperandReport(optarg.value, optind0)]
    }

    /** Meets an element that is not "--" (lines 606-622). */
    method Meet(cfg: Config, opts: string) returns (r: Option<int>)
      requires Between() && nextchar == "" && Demands(cfg, opts) && Demands(cfg, cfg.optstring) && OnTrack(cfg, opts)
      requires optind < argv.Length && argv[optind] != "--" && (ordering == PERMUTE ==> !NonOption(argv[optind]))
      modifies this`optind, this`nextchar, this`optarg, this`log
      ensures Advanced(cfg, opts, r, old(optind), old(log))
      ensures r == None ==> optarg == old(optarg)
    {
      hide NonOption, Demands, ScanElement, Prepend, LeftOf;
      ghost var a, o, done, skipped, was := argv[..], optind, Done(), Skipped(), log;
      HeadOfRest(a, orig, o);
      if NonOption(argv[optind]) {
        if ordering == REQUIRE_ORDER {
          assert argv[start..start] == [] && a[o..] == argv[o..];
          StopsHere(a, orig, start, o, log, target);
          return Some(-1);
        }
        optarg := Some(argv[optind]);
        optind := optind + 1;
        log := log + [OperandReport(optarg.value, o)];
        OperandPassed(a, orig, start, o);
        AddMoved(done, skipped, was, [a[o]], OperandReport(a[o], o),
                 Scan(cfg, cfg.optstring, cfg.optstring, ordering, false, orig[optind..], optind));
        return Some(1);
      }
      nextchar := Start(cfg, argv[optind]);
      return None;
    }

    /** What a call relies on: the caller left the scanner alone since the last call, and no element
        was claimed that is not there. */
    ghost predicate Ready(cfg: Config)
      reads this, argv
    {
      && Demands(cfg, cfg.optstring) && 1 <= optind <= argv.Length
      && (!initialized ==> nextchar == "")
      && (initialized ==> Between() && OnTrack(cfg, cfg.optstring) && (nextchar != "" ==> LeftOf(nextchar, argv[optind])))
    }

    /** The call gave back c and the scanner's variables, and logged it. */
    ghost predicate Logged(log0: seq<Report>, c: int)
      reads this
    {
      && |log| == |log0| + 1 && log[..|log0|] == log0
      && var st := log[|log0|].step;
         && c == st.ret && optarg == st.optarg && optind == log[|log0|].optind
         && (st.optopt.Some? ==> optopt == st.optopt.value) && (st.longind.Some? ==> longind == st.longind)
    }

    /** What a call does once the scanner is initialized. */
    ghost predicate CallDone(cfg: Config, over: bool, c: int, optind0: nat, left0: nat, log0: seq<Report>)
      requires Demands(cfg, cfg.optstring)
      reads this, argv
    {
      if over then c == -1 && log == log0 && Finished()
      else
        && Logged(log0, c)
        && (optind > optind0 || (optind == optind0 && Left() < left0))
        && if optind <= argv.Length then
             Between() && OnTrack(cfg, cfg.optstring) && (nextchar != "" ==> LeftOf(nextchar, argv[optind]))
           else target == Overrun(log)
    }

    /** _getopt_internal. `over` tells the -1 that ends the scan from an option whose val is -1. The
        ordering flag of optstring is passed over on the first call only. */
    method GetoptInternal(cfg: Config, posixlyCorrect: bool) returns (c: int, over: bool)
      requires Ready(cfg)
      modifies this, argv
      ensures initialized
      ensures old(initialized) ==> orig == old(orig) && start == old(start) && target == old(target)
      ensures !old(initialized) ==>
                && orig == old(argv[..]) && start == old(optind) <= |orig| && Demands(cfg, Unflagged(cfg.optstring))
                && target == Scan(cfg, Unflagged(cfg.optstring), cfg.optstring, OrderingOf(cfg.optstring, posixlyCorrect), false, orig[start..], start)
      ensures CallDone(cfg, over, c, old(optind), old(Left()), if old(initialized) then old(log) else [])
    {
      hide NonOption, Demands, Scan, Rest, Prepend, Finished, OrderingOf, LeftOf;
      var opts := cfg.optstring;
      optarg := None;
      if !initialized {
        opts := Initialize(cfg, posixlyCorrect);
      }
      c, over := Call(cfg, opts);
    }

    method Call(cfg: Config, opts: string) returns (c: int, over: bool)
      requires Between() && optarg == None && Demands(cfg, opts) && Demands(cfg, cfg.optstring) && OnTrack(cfg, opts)
      requires nextchar != "" ==> LeftOf(nextchar, argv[optind])
      modifies this`optind, this`firstNonopt, this`lastNonopt, this`nextchar, this`optarg, this`optopt, this`longind, this`log, argv
      ensures CallDone(cfg, over, c, old(optind), old(Left()), old(log))
    {
      hide NonOption, Demands, Scan, Rest, Prepend, Finished, OnTrack;
      if optind < argv.Length {
        HeadOfRest(argv[..], orig, optind);
      }
      if nextchar == "" {
        var r := Advance(cfg, opts);
        if r != None {
          return r.value, r.value == -1;
        }
      }
      HeadOfRest(argv[..], orig, optind);
      c := DecodeTracked(cfg, opts);
      over := false;
    }

    method DecodeTracked(cfg: Config, opts: string) returns (c: int)
      requires Between() && nextchar != "" && LeftOf(nextchar, argv[optind]) && optarg == None
      requires Demands(cfg, opts) && Demands(cfg, cfg.optstring) && OnTrack(cfg, opts)
      modifies this`optind, this`nextchar, this`optarg, this`optopt, this`longind, this`log
      ensures Logged(old(log), c)
      ensures if optind <= argv.Length then
                Between() && OnTrack(cfg, cfg.optstring) && (nextchar != "" ==> LeftOf(nextchar, argv[optind]))
              else target == Overrun(log)
      ensures optind > old(optind) || (optind == old(optind) && nextchar != "" && |nextchar| < |old(nextchar)|)
    {
      hide NonOption, Demands, Scan, ScanElement, Prepend, Decode, Taken, AmbiguousW;
      ghost var a, f, l, n, o := argv[..], firstNonopt, lastNonopt, nextchar, optind;
      HeadOfRest(a, orig, o);
      StepTakes(cfg, opts, orig[o..], n);
      assert argv[o..] == orig[o..];
      assert Done() == a[start..f] + a[l..o] && Skipped() == a[f..l];
      c := DecodeElement(cfg, opts);
      log := log + [Report(Decode(cfg, opts, orig[o..], n), optind)];
      assert argv[..] == a;
      StepTracked(cfg, opts, ordering, a, orig, start, f, l, o, n, optind, old(log), target);
      if optind <= argv.Length {
        SameBlock(a, orig, o, optind, l);
        assert Done() == a[start..f] + a[l..optind] && Skipped() == a[f..l];
      }
    }

    /** Where a caller's loop stands that scans the vector a from its first argument on. */
    ghost predicate Running(cfg: Config, posixlyCorrect: bool, a: seq<string>)
      reads this
    {
      && orig == a && start == 1 <= |a| && Demands(cfg, cfg.optstring) && Demands(cfg, Unflagged(cfg.optstring))
      && target == Scan(cfg, Unflagged(cfg.optstring), cfg.optstring, OrderingOf(cfg.optstring, posixlyCorrect), false, a[1..], 1)
    }

    /** Calls until the scan is over, or an element is claimed that is not there. */
    method Run(cfg: Config, posixlyCorrect: bool) returns (calls: seq<Seen>, overrun: bool)
      requires Ready(cfg) && !initialized && optind == 1
      modifies this, argv
      ensures Running(cfg, posixlyCorrect, old(argv[..])) && calls == SeenOf(log)
      ensures if overrun then target == Overrun(log) else Finished()
    {
      hide NonOption, Demands, Finished, OnTrack, Left, Between, Scan, OrderingOf, LeftOf;
      ghost var a := argv[..];
      calls, overrun := [], false;
      while true
        invariant Ready(cfg)
        invariant !initialized ==> argv[..] == a && optind == 1 && calls == []
        invariant initialized ==> Running(cfg, posixlyCorrect, a) && calls == SeenOf(log)
        decreases argv.Length - optind, Left()
      {
        var c, over := GetoptInternal(cfg, posixlyCorrect);
        if over {
          break;
        }
        calls := calls + [Seen(c, optarg, optind)];
        if optind > argv.Length {
          overrun := true;
          break;
        }
      }
    }
  }

  /** What a caller sees of a call: the value returned, optarg and optind. */
  datatype Seen = Seen(ret: int, optarg: Option<string>, optind: nat)

  ghost function SeenOf(log: seq<Report>): (r: seq<Seen>)
    ensures |r| == |log| && forall i :: 0 <= i < |r| ==> r[i] == Seen(log[i].step.ret, log[i].step.optarg, log[i].optind)
  {
    seq(|log|, i requires 0 <= i < |log| => Seen(log[i].step.ret, log[i].step.optarg, log[i].optind))
  }

  /** A caller's loop: calls until the scan is over, or a call claims an element that is not there.
      It always ends, and in all three orderings does what the scan function says of the code; that
      is what is meant exactly when no step is disturbed. The arguments in front of optind and those
      behind it are all of them, each in their old order. */
  method ScanAll(argv: array<string>, cfg: Config, posixlyCorrect: bool) returns (calls: seq<Seen>, optind: nat, overrun: bool)
    requires argv.Length > 0 && Demands(cfg, cfg.optstring)
    modifies argv
    ensures Demands(cfg, Unflagged(cfg.optstring))
    ensures var v, opts, mode := old(argv[1..]), Unflagged(cfg.optstring), OrderingOf(cfg.optstring, posixlyCorrect);
            var scan, meant := Scan(cfg, opts, cfg.optstring, mode, false, v, 1), Scan(cfg, opts, opts, mode, true, v, 1);
            && (overrun <==> scan.Overrun?)
            && calls == SeenOf(scan.reports)
            && (!overrun ==> argv[..] == [old(argv[0])] + scan.moved + scan.stayed && optind == 1 + |scan.moved|)
            && (!overrun ==> 1 <= optind <= argv.Length && Parts(v, argv[1..optind], argv[optind..]))
            && (scan == meant <==> Undisturbed(cfg, FlagOf(cfg.optstring), true, opts, mode, v))
  {
    hide NonOption, Demands, Scan, Undisturbed, OrderingOf, Scanner.OnTrack, Scanner.Left, Scanner.Between;
    var scanner := new Scanner(argv);
    ghost var a := argv[..];
    assert a[..1] == [a[0]];
    calls, overrun := scanner.Run(cfg, posixlyCorrect);
    optind := scanner.optind;
    FlagInFrontOf(cfg.optstring);
    ghost var opts, mode := Unflagged(cfg.optstring), OrderingOf(cfg.optstring, posixlyCorrect);
    ScanIsMeant(cfg, FlagOf(cfg.optstring), true, opts, mode, a[1..], 1);
    if !overrun {
      NothingLost(cfg, opts, cfg.optstring, mode, false, a[1..], 1);
      TwoBlocks(argv[..], a[0], scanner.target.moved, scanner.target.stayed);
    }
  }

  lemma TwoBlocks(v: seq<string>, first: string, m: seq<string>, s: seq<string>)
    requires v == [first] + m + s
    ensures v[1..1 + |m|] == m && v[1 + |m|..] == s
  {
  }

  lemma FlagInFrontOf(optstring: string)
    ensures FlagOk(FlagOf(optstring)) && Behind(FlagOf(optstring), Unflagged(optstring)) == optstring
  {
  }

  lemma UnflaggedDemands(cfg: Config, optstring: string)
    requires Demands(cfg, optstring)
    ensures Demands(cfg, Unflagged(optstring))
  {
    FlagInFrontOf(optstring);
    FlagDemands(cfg, FlagOf(optstring), Unflagged(optstring));
  }

  // ----- the scan of what is left -----

  ghost function Rest(cfg: Config, opts: string, mode: Ordering, orig: seq<string>, o: nat, next: string): Outcome
    requires o <= |orig| && (next != "" ==> o < |orig|) && Demands(cfg, opts) && Demands(cfg, cfg.optstring)
  {
    if next == "" then Scan(cfg, opts, cfg.optstring, mode, false, orig[o..], o)
    else ScanElement(cfg, opts, cfg.optstring, mode, false, orig[o..], o, next)
  }

  /** The scan of what is left, before and after operands are skipped. */
  lemma RestSkipped(cfg: Config, opts: string, orig: seq<string>, o: nat, o1: nat, more: seq<string>)
    requires Demands(cfg, opts) && Demands(cfg, cfg.optstring) && o <= o1 <= |orig| && more == orig[o..o1]
    requires forall k :: 0 <= k < |more| ==> NonOption(more[k])
    ensures Rest(cfg, opts, PERMUTE, orig, o, "") == Prepend([], more, [], Rest(cfg, opts, PERMUTE, orig, o1, ""))
  {
    hide NonOption, Demands, Scan, Prepend;
    RestOfRest(orig, o, o1);
    forall k | 0 <= k < o1 - o ensures NonOption(orig[o..][k]) {
      assert more[k] == orig[o..][k];
    }
    ScanSkips(cfg, opts, cfg.optstring, false, orig[o..], o, o1 - o);
  }

  lemma AddSkipped(done: seq<string>, skipped: seq<string>, log: seq<Report>, more: seq<string>, o: Outcome)
    ensures Prepend(done, skipped, log, Prepend([], more, [], o)) == Prepend(done, skipped + more, log, o)
  {
    PrependTwice(done, skipped, log, [], more, [], o);
    assert done + [] == done && log + [] == log;
  }

  lemma AddMoved(done: seq<string>, skipped: seq<string>, log: seq<Report>, more: seq<string>, r: Report, o: Outcome)
    ensures Prepend(done, skipped, log, Prepend(more, [], [r], o)) == Prepend(done + more, skipped, log + [r], o)
  {
    PrependTwice(done, skipped, log, more, [], [r], o);
    assert skipped + [] == skipped;
  }

  lemma AddTerminator(done: seq<string>, skipped: seq<string>, log: seq<Report>, rest: seq<string>)
    ensures Prepend(done, skipped, log, Outcome(["--"], rest, [])) == Outcome(done + ["--"], skipped + rest, log)
  {
    assert log + [] == log;
  }

  /** Without permuting, the scan stops in front of the first operand. */
  lemma StopsHere(a: seq<string>, orig: seq<string>, s: nat, o: nat, log: seq<Report>, target: Outcome)
    requires s <= o <= |a| == |orig| && a[..s] == orig[..s] && a[o..] == orig[o..]
    requires target == Prepend(a[s..s] + a[s..o], a[s..s], log, Outcome([], orig[o..], []))
    ensures target.Outcome? && a == orig[..s] + target.moved + target.stayed && o == s + |target.moved| && log == target.reports
  {
    assert target.moved == a[s..o] && target.stayed == a[o..] && target.reports == log;
  }

  lemma OperandPassed(a: seq<string>, orig: seq<string>, s: nat, o: nat)
    requires s <= o < |a| == |orig| && a[o..] == orig[o..]
    ensures a[o + 1..] == orig[o + 1..] && a[s..o + 1] == a[s..o] + [a[o]] && orig[o..][1..] == orig[o + 1..]
    ensures a[s..s] + a[s..o + 1] == a[s..s] + a[s..o] + [a[o]]
  {
    assert a[o + 1..] == a[o..][1..];
  }

  lemma StepTracked(cfg: Config, opts: string, mode: Ordering, a: seq<string>, orig: seq<string>, s: nat, f: nat, l: nat, o: nat, next: string, o1: nat, log: seq<Report>, target: Outcome)
    requires Demands(cfg, opts) && Demands(cfg, cfg.optstring) && s <= f <= l <= o < |a| == |orig| && a[o..] == orig[o..]
    requires next != "" && target == Prepend(a[s..f] + a[l..o], a[f..l], log, ScanElement(cfg, opts, cfg.optstring, mode, false, orig[o..], o, next))
    requires o1 == o + Decode(cfg, opts, orig[o..], next).used
    ensures var st := Decode(cfg, opts, orig[o..], next);
            && (st.next != "" ==> o1 == o)
            && if o1 <= |a| then target == Prepend(a[s..f] + a[l..o1], a[f..l], log + [Report(st, o1)], Rest(cfg, cfg.optstring, mode, orig, o1, st.next))
               else target == Overrun(log + [Report(st, o1)])
  {
    hide NonOption, Demands, Prepend, Scan, Decode, Taken, AmbiguousW;
    var tail, st := orig[o..], Decode(cfg, opts, orig[o..], next);
    StepTakes(cfg, opts, tail, next);
    if o1 <= |a| {
      SameBlock(a, orig, o, o1, l);
      RestOfRest(orig, o, o1);
      assert tail[..0] == [];
      AddMoved(a[s..f] + a[l..o], a[f..l], log, tail[..o1 - o], Report(st, o1), Rest(cfg, cfg.optstring, mode, orig, o1, st.next));
      assert a[s..f] + a[l..o1] == (a[s..f] + a[l..o]) + tail[..o1 - o];
    } else {
      OverrunAdds(a[s..f] + a[l..o], a[f..l], log, [Report(st, o1)]);
    }
  }

  lemma OverrunAdds(m: seq<string>, s: seq<string>, r: seq<Report>, r1: seq<Report>)
    ensures Prepend(m, s, r, Overrun(r1)) == Overrun(r + r1)
  {
  }

  lemma SameBlock(a: seq<string>, orig: seq<string>, o: nat, o1: nat, l: nat)
    requires l <= o <= o1 <= |a| == |orig| && a[o..] == orig[o..]
    ensures a[o1..] == orig[o1..] && a[l..o1] == a[l..o] + orig[o..][..o1 - o]
  {
    assert a[o1..] == a[o..][o1 - o..];
    assert a[o..o1] == a[o..][..o1 - o];
  }

  lemma RestOfRest(orig: seq<string>, o: nat, o1: nat)
    requires o <= o1 <= |orig|
    ensures orig[o..][o1 - o..] == orig[o1..] && orig[o..][..o1 - o] == orig[o..o1]
  {
  }

  lemma HeadOfRest(a: seq<string>, orig: seq<string>, o: nat)
    requires o < |a| == |orig| && a[o..] == orig[o..]
    ensures orig[o..] != [] && orig[o..][0] == a[o] == orig[o] && orig[o..][1..] == orig[o + 1..]
  {
    assert a[o..][0] == a[o];
  }

  lemma AllPlaced(a: seq<string>, orig: seq<string>, s: nat, f: nat, l: nat)
    requires s <= f <= l <= |a| == |orig| && a[..s] == orig[..s]
    ensures l == |a| ==> a == orig[..s] + (a[s..f] + a[l..|a|]) + a[f..l]
    ensures f == l ==> a == orig[..s] + (a[s..f] + a[l..|a|]) + a[f..l]
  {
  }

  // ----- what the moves do to the two lists -----

  /** After the exchange (or without one) the options stand at [s, f1) and the operands at [f1, o). */
  lemma Regrouped(a: seq<string>, b: seq<string>, s: nat, f: nat, l: nat, o: nat, f1: nat)
    requires s <= f <= l <= o <= |a| == |b|
    requires if f != l && l != o then b == Exchanged(a, f, l, o) && f1 == f + (o - l)
             else b == a && f1 == if l != o then o else f
    ensures f1 <= o && b[s..f1] == a[s..f] + a[l..o] && b[f1..o] == a[f..l]
    ensures b[o..] == a[o..] && b[..s] == a[..s]
  {
  }

  lemma SkippedMore(b: seq<string>, orig: seq<string>, s: nat, o: nat, f1: nat, o1: nat)
    requires s <= f1 <= o <= o1 <= |b| == |orig| && b[o..] == orig[o..]
    ensures b[s..f1] + b[o1..o1] == b[s..f1]
    ensures b[f1..o1] == b[f1..o] + orig[o..o1]
    ensures b[o1..] == orig[o1..]
    ensures forall k :: 0 <= k < o1 - o ==> orig[o..o1][k] == b[o + k]
  {
    assert b[o..o1] == b[o..][..o1 - o] == orig[o..][..o1 - o] == orig[o..o1];
    assert b[f1..o1] == b[f1..o] + b[o..o1];
    assert b[o1..] == b[o..][o1 - o..] && orig[o1..] == orig[o..][o1 - o..];
    forall k | 0 <= k < o1 - o ensures orig[o..o1][k] == b[o + k] {
      assert b[o..o1][k] == b[o + k];
    }
  }

  lemma Terminated(a: seq<string>, b: seq<string>, orig: seq<string>, s: nat, f: nat, l: nat, o: nat, f1: nat)
    requires s <= f <= l <= o < |a| == |b| == |orig| && (l == o || f == l)
    requires a[o..] == orig[o..] && a[o] == "--"
    requires if f != l then b == Exchanged(a, f, l, o + 1) && f1 == f + (o + 1 - l) else b == a && f1 == o + 1
    ensures f1 <= |b| && b[s..f1] + b[|b|..|b|] == a[s..f] + a[l..o] + ["--"]
    ensures b[f1..|b|] == a[f..l] + orig[o + 1..]
    ensures b[..s] == a[..s]
  {
    assert a[l..o + 1] == a[l..o] + ["--"];
    assert a[o + 1..] == a[o..][1..] == orig[o..][1..] == orig[o + 1..];
    if f == l {
      assert a[s..o + 1] == a[s..f] + a[l..o] + ["--"];
    }
  }
}
