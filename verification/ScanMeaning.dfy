/** What repeated calls of getopt make of an argument vector (Wnn/etc/getopt.c:470-510, 547-969): as
    the code does it, and as its options and operands are meant. */
module ScanMeaning {
  import opened OptionDecode

  datatype Ordering = REQUIRE_ORDER | PERMUTE | RETURN_IN_ORDER

  /** NONOPTION_P: neither an option nor "--". */
  predicate NonOption(arg: string) {
    |arg| < 2 || arg[0] != '-'
  }

  /** Where the decoding of an option element starts. */
  function Start(cfg: Config, elem: string): (next: string)
    requires !NonOption(elem)
    ensures elem != "--" ==> next != "" && LeftOf(next, elem)
  {
    if cfg.longopts.Some? && elem[1] == '-' then elem[2..] else elem[1..]
  }

  /** next is what is left to decode of an element. */
  predicate LeftOf(next: string, elem: string) {
    |next| < |elem| && next == elem[|elem| - |next|..]
  }

  /** What one call gives back: the step it took, and optind behind it. */
  datatype Report = Report(step: Step, optind: nat)

  /** A whole scan: the elements that end in front of optind, those behind it, and what the calls
      gave back; or the calls up to one that claims an element that is not there. */
  datatype Outcome =
    | Overrun(reports: seq<Report>)
    | Outcome(moved: seq<string>, stayed: seq<string>, reports: seq<Report>)

  ghost function Prepend(moved: seq<string>, stayed: seq<string>, reports: seq<Report>, o: Outcome): Outcome {
    match o
    case Overrun(r) => Overrun(reports + r)
    case Outcome(m, s, r) => Outcome(moved + m, stayed + s, reports + r)
  }

  lemma PrependTwice(m: seq<string>, s: seq<string>, r: seq<Report>, m1: seq<string>, s1: seq<string>, r1: seq<Report>, o: Outcome)
    ensures Prepend(m, s, r, Prepend(m1, s1, r1, o)) == Prepend(m + m1, s + s1, r + r1, o)
  {
    match o
    case Overrun(x) => assert r + (r1 + x) == (r + r1) + x;
    case Outcome(a, b, x) =>
      assert m + (m1 + a) == (m + m1) + a && s + (s1 + b) == (s + s1) + b && r + (r1 + x) == (r + r1) + x;
  }

  lemma PrependNothing(o: Outcome)
    ensures Prepend([], [], [], o) == o
  {
  }

  lemma PrependCancels(m: seq<string>, s: seq<string>, r: seq<Report>, o: Outcome, p: Outcome)
    ensures Prepend(m, s, r, o) == Prepend(m, s, r, p) <==> o == p
  {
    if Prepend(m, s, r, o) == Prepend(m, s, r, p) {
      SameTail(r, o.reports, p.reports);
      if o.Outcome? {
        SameTail(m, o.moved, p.moved);
        SameTail(s, o.stayed, p.stayed);
      }
    }
  }

  lemma SameTail<T>(a: seq<T>, x: seq<T>, y: seq<T>)
    ensures a + x == a + y ==> x == y
  {
    if a + x == a + y {
      assert x == (a + x)[|a|..] == (a + y)[|a|..] == y;
    }
  }

  // ----- the scan -----

  /** One step: as the code takes it, or moving optind by exactly what the step takes. */
  ghost function StepBy(cfg: Config, opts: string, exact: bool, tail: seq<string>, next: string): Step
    requires tail != [] && next != "" && Demands(cfg, opts)
  {
    var st := Decode(cfg, opts, tail, next);
    if exact then st.(used := Taken(cfg, opts, tail, next)) else st
  }

  lemma StepShortens(cfg: Config, opts: string, exact: bool, tail: seq<string>, next: string)
    requires tail != [] && next != "" && Demands(cfg, opts)
    ensures var st := StepBy(cfg, opts, exact, tail, next);
            && (st.used == 0 ==> st.next != "" && st.next == next[1..])
            && (exact ==> st.used <= |tail|)
            && (st.next != "" ==> st.used == 0)
  {
    hide Decode, Taken, AmbiguousW;
    StepTakes(cfg, opts, tail, next);
  }

  /** The scan of v, which starts at index `at` of the vector, when the first call looks into opts
      and the later ones into `later`. */
  ghost function Scan(cfg: Config, opts: string, later: string, mode: Ordering, exact: bool, v: seq<string>, at: nat): Outcome
    requires Demands(cfg, opts) && Demands(cfg, later)
    decreases |v|, if v == [] then 0 else |v[0]|
  {
    if v == [] then Outcome([], [], [])
    else if v[0] == "--" then Outcome(["--"], v[1..], [])
    else if !NonOption(v[0]) then ScanElement(cfg, opts, later, mode, exact, v, at, Start(cfg, v[0]))
    else
      match mode
      case PERMUTE => Prepend([], [v[0]], [], Scan(cfg, opts, later, mode, exact, v[1..], at + 1))
      case REQUIRE_ORDER => Outcome([], v, [])
      case RETURN_IN_ORDER =>
        Prepend([v[0]], [], [OperandReport(v[0], at)], Scan(cfg, later, later, mode, exact, v[1..], at + 1))
  }

  /** In the returning order an operand comes back as an option with value 1. */
  ghost function OperandReport(arg: string, at: nat): Report {
    Report(Step(1, 1, "", Some(arg), None, None), at + 1)
  }

  ghost function ScanElement(cfg: Config, opts: string, later: string, mode: Ordering, exact: bool, v: seq<string>, at: nat, next: string): Outcome
    requires v != [] && next != "" && Demands(cfg, opts) && Demands(cfg, later)
    decreases |v|, |next|
  {
    StepShortens(cfg, opts, exact, v, next);
    var st := StepBy(cfg, opts, exact, v, next);
    var r := [Report(st, at + st.used)];
    if st.used == 0 then Prepend([], [], r, ScanElement(cfg, later, later, mode, exact, v, at, st.next))
    else if st.used > |v| then Overrun(r)
    else Prepend(v[..st.used], [], r, Scan(cfg, later, later, mode, exact, v[st.used..], at + st.used))
  }

  /** Operands skipped over one by one. */
  lemma {:induction false} ScanSkips(cfg: Config, opts: string, later: string, exact: bool, v: seq<string>, at: nat, n: nat)
    requires Demands(cfg, opts) && Demands(cfg, later) && n <= |v| && forall k :: 0 <= k < n ==> NonOption(v[k])
    ensures Scan(cfg, opts, later, PERMUTE, exact, v, at) == Prepend([], v[..n], [], Scan(cfg, opts, later, PERMUTE, exact, v[n..], at + n))
    decreases n
  {
    hide Demands, ScanElement, Prepend;
    if n == 0 {
      assert v[0..] == v && v[..0] == [];
      PrependNothing(Scan(cfg, opts, later, PERMUTE, exact, v, at));
    } else {
      var t := v[n - 1..];
      ScanSkips(cfg, opts, later, exact, v, at, n - 1);
      assert t[0] == v[n - 1] && t[1..] == v[n..] && v[..n] == v[..n - 1] + [t[0]];
      var none: seq<string>, quiet: seq<Report> := [], [];
      assert none + none == none && quiet + quiet == quiet;
      PrependTwice(none, v[..n - 1], quiet, none, [t[0]], quiet, Scan(cfg, opts, later, PERMUTE, exact, v[n..], at + n));
    }
  }

  // ----- nothing is lost, and only the permuting order moves anything -----

  /** v consists of the elements of m and those of s, each in their order. */
  ghost predicate Parts(v: seq<string>, m: seq<string>, s: seq<string>)
    decreases |v|
  {
    if v == [] then m == [] && s == []
    else
      || (m != [] && m[0] == v[0] && Parts(v[1..], m[1..], s))
      || (s != [] && s[0] == v[0] && Parts(v[1..], m, s[1..]))
  }

  lemma {:induction false} PartsMoved(x: seq<string>, v: seq<string>, m: seq<string>, s: seq<string>)
    requires Parts(v, m, s)
    ensures Parts(x + v, x + m, s)
    decreases |x|
  {
    if x == [] {
      assert x + v == v && x + m == m;
    } else {
      PartsMoved(x[1..], v, m, s);
      assert (x + v)[1..] == x[1..] + v && (x + m)[1..] == x[1..] + m;
    }
  }

  lemma {:induction false} PartsStayed(x: seq<string>, v: seq<string>, m: seq<string>, s: seq<string>)
    requires Parts(v, m, s)
    ensures Parts(x + v, m, x + s)
    decreases |x|
  {
    if x == [] {
      assert x + v == v && x + s == s;
    } else {
      PartsStayed(x[1..], v, m, s);
      assert (x + v)[1..] == x[1..] + v && (x + s)[1..] == x[1..] + s;
    }
  }

  lemma AllStayed(v: seq<string>)
    ensures Parts(v, [], v)
  {
    PartsStayed(v, [], [], []);
    assert v + [] == v;
  }

  /** Two parts have all elements between them. */
  lemma {:induction false} PartsAreAll(v: seq<string>, m: seq<string>, s: seq<string>)
    requires Parts(v, m, s)
    ensures multiset(v) == multiset(m) + multiset(s)
    decreases |v|
  {
    if v != [] {
      assert v == [v[0]] + v[1..];
      if m != [] && m[0] == v[0] && Parts(v[1..], m[1..], s) {
        PartsAreAll(v[1..], m[1..], s);
        assert m == [m[0]] + m[1..];
      } else {
        PartsAreAll(v[1..], m, s[1..]);
        assert s == [s[0]] + s[1..];
      }
    }
  }

  lemma {:induction false} NothingLost(cfg: Config, opts: string, later: string, mode: Ordering, exact: bool, v: seq<string>, at: nat)
    requires Demands(cfg, opts) && Demands(cfg, later)
    ensures Keeps(Scan(cfg, opts, later, mode, exact, v, at), mode, v)
    decreases |v|, if v == [] then 0 else |v[0]|
  {
    hide Demands, ScanElement, Prepend, Parts;
    AllStayed(v);
    PartsAreAll(v, [], v);
    if v == [] {
    } else if v[0] == "--" {
      AllStayed(v[1..]);
      PartsMoved(["--"], v[1..], [], v[1..]);
      assert ["--"] + v[1..] == v && ["--"] + [] == ["--"];
      PartsAreAll(v, ["--"], v[1..]);
    } else if !NonOption(v[0]) {
      ElementNotLost(cfg, opts, later, mode, exact, v, at, Start(cfg, v[0]));
    } else if mode == PERMUTE {
      NothingLost(cfg, opts, later, mode, exact, v[1..], at + 1);
      KeepsMore([], [v[0]], [], Scan(cfg, opts, later, mode, exact, v[1..], at + 1), mode, v[1..], v);
    } else if mode == RETURN_IN_ORDER {
      NothingLost(cfg, later, later, mode, exact, v[1..], at + 1);
      KeepsMore([v[0]], [], [OperandReport(v[0], at)], Scan(cfg, later, later, mode, exact, v[1..], at + 1), mode, v[1..], v);
    }
  }

  lemma {:induction false} ElementNotLost(cfg: Config, opts: string, later: string, mode: Ordering, exact: bool, v: seq<string>, at: nat, next: string)
    requires v != [] && next != "" && Demands(cfg, opts) && Demands(cfg, later)
    ensures Keeps(ScanElement(cfg, opts, later, mode, exact, v, at, next), mode, v)
    decreases |v|, |next|
  {
    hide Demands, Scan, StepBy, Prepend, Keeps;
    StepShortens(cfg, opts, exact, v, next);
    OverrunKeeps(mode, v);
    var st := StepBy(cfg, opts, exact, v, next);
    var r := [Report(st, at + st.used)];
    if st.used == 0 {
      ElementNotLost(cfg, later, later, mode, exact, v, at, st.next);
      KeepsMore([], [], r, ScanElement(cfg, later, later, mode, exact, v, at, st.next), mode, v, v);
    } else if st.used <= |v| {
      NothingLost(cfg, later, later, mode, exact, v[st.used..], at + st.used);
      KeepsMore(v[..st.used], [], r, Scan(cfg, later, later, mode, exact, v[st.used..], at + st.used), mode, v[st.used..], v);
    }
  }

  /** The outcome has all elements of v, and both its parts keep their order; unless the scan
      permutes, one part stands behind the other in v. */
  ghost predicate Keeps(o: Outcome, mode: Ordering, v: seq<string>) {
    o.Outcome? ==>
      && Parts(v, o.moved, o.stayed) && multiset(o.moved) + multiset(o.stayed) == multiset(v)
      && (mode != PERMUTE ==> o.moved + o.stayed == v)
  }

  lemma OverrunKeeps(mode: Ordering, v: seq<string>)
    ensures forall r :: Keeps(Overrun(r), mode, v)
  {
  }

  lemma KeepsMore(m: seq<string>, s: seq<string>, r: seq<Report>, o: Outcome, mode: Ordering, rest: seq<string>, v: seq<string>)
    requires Keeps(o, mode, rest) && v == m + s + rest && (s == [] || mode == PERMUTE)
    ensures Keeps(Prepend(m, s, r, o), mode, v)
  {
    hide Parts;
    if o.Outcome? {
      PartsStayed(s, rest, o.moved, o.stayed);
      PartsMoved(m, s + rest, o.moved, s + o.stayed);
      assert m + (s + rest) == v;
      PartsAreAll(v, m + o.moved, s + o.stayed);
      if mode != PERMUTE {
        assert m + o.moved + ([] + o.stayed) == m + (o.moved + o.stayed);
      }
    }
  }

  // ----- when the code's scan is the one that is meant -----

  /** The option string behind a flag, if there is one. */
  function Behind(flag: Option<char>, opts: string): string {
    if flag.None? then opts else [flag.value] + opts
  }

  ghost predicate FlagOk(flag: Option<char>) {
    flag.Some? ==> flag.value in {'+', '-'}
  }

  /** Is this step not disturbed: neither by an ambiguous name behind -W, nor by the flag, which the
      first call does not see? */
  ghost predicate StepUndisturbed(cfg: Config, flag: Option<char>, first: bool, opts: string, v: seq<string>, next: string)
    requires v != [] && next != "" && Demands(cfg, opts)
  {
    && !AmbiguousW(cfg, opts, v, next)
    && (flag.Some? && !first ==> FlagHarmless(cfg, flag.value, opts, v, next))
  }

  /** Is no step of the scan disturbed? */
  ghost predicate Undisturbed(cfg: Config, flag: Option<char>, first: bool, opts: string, mode: Ordering, v: seq<string>)
    requires Demands(cfg, opts)
    decreases |v|, if v == [] then 0 else |v[0]|
  {
    if v == [] || v[0] == "--" then true
    else if !NonOption(v[0]) then ElementUndisturbed(cfg, flag, first, opts, mode, v, Start(cfg, v[0]))
    else mode == REQUIRE_ORDER || Undisturbed(cfg, flag, first && mode == PERMUTE, opts, mode, v[1..])
  }

  ghost predicate ElementUndisturbed(cfg: Config, flag: Option<char>, first: bool, opts: string, mode: Ordering, v: seq<string>, next: string)
    requires v != [] && next != "" && Demands(cfg, opts)
    decreases |v|, |next|
  {
    StepTakes(cfg, opts, v, next);
    var taken := Taken(cfg, opts, v, next);
    && StepUndisturbed(cfg, flag, first, opts, v, next)
    && if taken == 0 then ElementUndisturbed(cfg, flag, false, opts, mode, v, next[1..])
       else Undisturbed(cfg, flag, false, opts, mode, v[taken..])
  }

  lemma FlagDemands(cfg: Config, flag: Option<char>, opts: string)
    requires FlagOk(flag)
    ensures Demands(cfg, Behind(flag, opts)) <==> Demands(cfg, opts)
  {
    if flag.Some? { FlagInFront(flag.value, opts, 'W'); }
  }

  /** A step of the code is the one that is meant exactly when it is not disturbed. */
  lemma StepIsMeant(cfg: Config, flag: Option<char>, first: bool, opts: string, v: seq<string>, next: string)
    requires FlagOk(flag) && v != [] && next != "" && LeftOf(next, v[0]) && Demands(cfg, opts)
    ensures Demands(cfg, Behind(flag, opts))
    ensures StepBy(cfg, if first then opts else Behind(flag, opts), false, v, next) == StepBy(cfg, opts, true, v, next) <==>
            StepUndisturbed(cfg, flag, first, opts, v, next)
  {
    hide Demands, Decode, Taken, AmbiguousW, FlagHarmless, NonOption;
    FlagDemands(cfg, flag, opts);
    StepTakes(cfg, opts, v, next);
    if flag.Some? && !first {
      FlagChangesStep(cfg, flag.value, opts, v, next);
      AmbiguityStands(cfg, flag.value, opts, v, next);
    }
  }

  /** The flag does not touch a step with an ambiguous name. */
  lemma AmbiguityStands(cfg: Config, f: char, opts: string, v: seq<string>, next: string)
    requires f in {'+', '-'} && v != [] && next != "" && Demands(cfg, opts)
    ensures AmbiguousW(cfg, opts, v, next) ==> FlagHarmless(cfg, f, opts, v, next)
  {
    hide LongMatch, Matches, MyIndex, NameEnd, Demands;
  }

  lemma FirstReport(cfg: Config, opts: string, later: string, mode: Ordering, exact: bool, v: seq<string>, at: nat, next: string)
    requires v != [] && next != "" && Demands(cfg, opts) && Demands(cfg, later)
    ensures var st := StepBy(cfg, opts, exact, v, next);
            var o := ScanElement(cfg, opts, later, mode, exact, v, at, next);
            o.reports != [] && o.reports[0] == Report(st, at + st.used)
  {
    hide Demands, StepBy, Scan;
  }

  /** The code's scan is the one that is meant exactly when no step is disturbed. */
  lemma {:induction false} ScanIsMeant(cfg: Config, flag: Option<char>, first: bool, opts: string, mode: Ordering, v: seq<string>, at: nat)
    requires FlagOk(flag) && Demands(cfg, opts)
    ensures Demands(cfg, Behind(flag, opts))
    ensures var later := Behind(flag, opts);
            Scan(cfg, if first then opts else later, later, mode, false, v, at) == Scan(cfg, opts, opts, mode, true, v, at) <==>
            Undisturbed(cfg, flag, first, opts, mode, v)
    decreases |v|, if v == [] then 0 else |v[0]|
  {
    hide Demands, ScanElement, ElementUndisturbed, Prepend, LeftOf;
    FlagDemands(cfg, flag, opts);
    var later := Behind(flag, opts);
    var now := if first then opts else later;
    if v == [] || v[0] == "--" {
    } else if !NonOption(v[0]) {
      ElementIsMeant(cfg, flag, first, opts, mode, v, at, Start(cfg, v[0]));
    } else if mode == PERMUTE {
      ScanIsMeant(cfg, flag, first, opts, mode, v[1..], at + 1);
      PrependCancels([], [v[0]], [], Scan(cfg, now, later, mode, false, v[1..], at + 1), Scan(cfg, opts, opts, mode, true, v[1..], at + 1));
    } else if mode == RETURN_IN_ORDER {
      ScanIsMeant(cfg, flag, false, opts, mode, v[1..], at + 1);
      PrependCancels([v[0]], [], [OperandReport(v[0], at)], Scan(cfg, later, later, mode, false, v[1..], at + 1), Scan(cfg, opts, opts, mode, true, v[1..], at + 1));
    }
  }

  lemma {:induction false} ElementIsMeant(cfg: Config, flag: Option<char>, first: bool, opts: string, mode: Ordering, v: seq<string>, at: nat, next: string)
    requires FlagOk(flag) && v != [] && next != "" && LeftOf(next, v[0]) && Demands(cfg, opts)
    ensures Demands(cfg, Behind(flag, opts))
    ensures var later := Behind(flag, opts);
            ScanElement(cfg, if first then opts else later, later, mode, false, v, at, next) == ScanElement(cfg, opts, opts, mode, true, v, at, next) <==>
            ElementUndisturbed(cfg, flag, first, opts, mode, v, next)
    decreases |v|, |next|
  {
    hide Demands, Scan, Undisturbed, Prepend, StepBy, StepUndisturbed, Taken, AmbiguousW, Decode;
    FlagDemands(cfg, flag, opts);
    var later := Behind(flag, opts);
    var now := if first then opts else later;
    StepIsMeant(cfg, flag, first, opts, v, next);
    StepShortens(cfg, opts, true, v, next);
    UsedExactly(cfg, opts, v, next);
    FirstReport(cfg, now, later, mode, false, v, at, next);
    FirstReport(cfg, opts, opts, mode, true, v, at, next);
    var st := StepBy(cfg, opts, true, v, next);
    if StepBy(cfg, now, false, v, next) == st {
      var r := [Report(st, at + st.used)];
      if st.used == 0 {
        ElementIsMeant(cfg, flag, false, opts, mode, v, at, next[1..]);
        PrependCancels([], [], r, ScanElement(cfg, later, later, mode, false, v, at, st.next), ScanElement(cfg, opts, opts, mode, true, v, at, st.next));
      } else {
        ScanIsMeant(cfg, flag, false, opts, mode, v[st.used..], at + st.used);
        PrependCancels(v[..st.used], [], r, Scan(cfg, later, later, mode, false, v[st.used..], at + st.used), Scan(cfg, opts, opts, mode, true, v[st.used..], at + st.used));
      }
    }
  }

  lemma UsedExactly(cfg: Config, opts: string, v: seq<string>, next: string)
    requires v != [] && next != "" && Demands(cfg, opts)
    ensures StepBy(cfg, opts, true, v, next).used == Taken(cfg, opts, v, next)
  {
  }

  /** The scan that is meant never claims an element that is not there. */
  lemma {:induction false} MeantNeverOverruns(cfg: Config, opts: string, mode: Ordering, v: seq<string>, at: nat)
    requires Demands(cfg, opts)
    ensures Scan(cfg, opts, opts, mode, true, v, at).Outcome?
    decreases |v|, if v == [] then 0 else |v[0]|
  {
    hide Demands, ScanElement;
    if v != [] && v[0] != "--" {
      if !NonOption(v[0]) {
        ElementNeverOverruns(cfg, opts, mode, v, at, Start(cfg, v[0]));
      } else if mode != REQUIRE_ORDER {
        MeantNeverOverruns(cfg, opts, mode, v[1..], at + 1);
      }
    }
  }

  lemma {:induction false} ElementNeverOverruns(cfg: Config, opts: string, mode: Ordering, v: seq<string>, at: nat, next: string)
    requires v != [] && next != "" && Demands(cfg, opts)
    ensures ScanElement(cfg, opts, opts, mode, true, v, at, next).Outcome?
    decreases |v|, |next|
  {
    hide Demands, Scan, StepBy;
    StepShortens(cfg, opts, true, v, next);
    var st := StepBy(cfg, opts, true, v, next);
    if st.used == 0 {
      ElementNeverOverruns(cfg, opts, mode, v, at, st.next);
    } else {
      MeantNeverOverruns(cfg, opts, mode, v[st.used..], at + st.used);
    }
  }

  // ----- inputs -----

  /** Without "W;" in the option string and without a flag nothing is disturbed. */
  lemma {:induction false} NeverDisturbed(cfg: Config, first: bool, opts: string, mode: Ordering, v: seq<string>)
    requires Demands(cfg, opts) && KindOf(opts, 'W') != Named
    ensures Undisturbed(cfg, None, first, opts, mode, v)
    decreases |v|, if v == [] then 0 else |v[0]|
  {
    hide Demands, ElementUndisturbed, KindOf;
    if v != [] && v[0] != "--" {
      if !NonOption(v[0]) {
        ElementNeverDisturbed(cfg, first, opts, mode, v, Start(cfg, v[0]));
      } else if mode != REQUIRE_ORDER {
        NeverDisturbed(cfg, first && mode == PERMUTE, opts, mode, v[1..]);
      }
    }
  }

  lemma {:induction false} ElementNeverDisturbed(cfg: Config, first: bool, opts: string, mode: Ordering, v: seq<string>, next: string)
    requires v != [] && next != "" && Demands(cfg, opts) && KindOf(opts, 'W') != Named
    ensures ElementUndisturbed(cfg, None, first, opts, mode, v, next)
    decreases |v|, |next|
  {
    hide Demands, Undisturbed, Taken, Decode;
    StepTakes(cfg, opts, v, next);
    var taken := Taken(cfg, opts, v, next);
    if taken == 0 {
      ElementNeverDisturbed(cfg, false, opts, mode, v, next[1..]);
    } else {
      NeverDisturbed(cfg, false, opts, mode, v[taken..]);
    }
  }

  const TWO_NAMES := [LongOption("aa", 0, false, 1), LongOption("ab", 0, false, 2)]

  function NamesConfig(): Config {
    Config("W;", Some(TWO_NAMES), false, true)
  }

  lemma AmbiguousStep(v: seq<string>)
    requires v != [] && v[0] == "-Wa"
    ensures var cfg := NamesConfig();
            && Demands(cfg, "W;") && Start(cfg, "-Wa") == "Wa" && AmbiguousW(cfg, "W;", v, "Wa")
            && Taken(cfg, "W;", v, "Wa") == 1
            && Decode(cfg, "W;", v, "Wa") == Step('?' as int, 2, "", Some("a"), None, None)
  {
    assert "Wa"[1..] == "a" && NameEnd("a") == 1 by { assert "a"[1..] == ""; }
    var name := "a"[..1];
    assert name <= TWO_NAMES[0].name && name <= TWO_NAMES[1].name;
    assert Matches(TWO_NAMES, name, Ambiguous);
    MatchIsUnique(TWO_NAMES, name, Ambiguous, LongMatch(TWO_NAMES, name));
  }

  /** -W with an abbreviation of two long options swallows the operand behind it; at the end of the
      vector optind ends behind the vector. */
  lemma AmbiguousNameSwallows(mode: Ordering)
    requires mode != RETURN_IN_ORDER
    ensures var cfg := NamesConfig();
            Demands(cfg, "W;") && !Undisturbed(cfg, None, true, "W;", mode, ["-Wa", "file"])
    ensures var scan, meant := Scan(NamesConfig(), "W;", "W;", mode, false, ["-Wa", "file"], 1),
                               Scan(NamesConfig(), "W;", "W;", mode, true, ["-Wa", "file"], 1);
            && scan.Outcome? && scan.moved == ["-Wa", "file"] && scan.stayed == []
            && meant.Outcome? && meant.moved == ["-Wa"] && meant.stayed == ["file"]
    ensures Scan(NamesConfig(), "W;", "W;", mode, false, ["-Wa"], 1).Overrun?
  {
    hide Decode, Taken, AmbiguousW;
    var cfg, v := NamesConfig(), ["-Wa", "file"];
    AmbiguousStep(v);
    AmbiguousStep(["-Wa"]);
    assert v[2..] == [] && v[1..] == ["file"];
    assert Scan(cfg, "W;", "W;", mode, false, v, 1) == ScanElement(cfg, "W;", "W;", mode, false, v, 1, "Wa");
    assert Scan(cfg, "W;", "W;", mode, true, v, 1) == ScanElement(cfg, "W;", "W;", mode, true, v, 1, "Wa");
    assert Scan(cfg, "W;", "W;", mode, true, ["file"], 2) == if mode == PERMUTE then Prepend([], ["file"], [], Scan(cfg, "W;", "W;", mode, true, [], 3)) else Outcome([], ["file"], []);
  }

  /** Behind "+", the second of two unknown '+' is taken for an option. */
  lemma FlagTakenForOption(cfg: Config)
    requires cfg.longopts.None?
    ensures Demands(cfg, "a") && !Undisturbed(cfg, Some('+'), true, "a", REQUIRE_ORDER, ["-+", "-+"])
  {
    var v := ["-+", "-+"];
    assert MyIndex("a", '+') == None && MyIndex("a", 'W') == None by { assert "a"[1..] == ""; }
    assert Start(cfg, "-+") == "+" && "+"[1..] == "" && v[1..] == ["-+"];
    FlagInFront('+', "a", '+');
    assert Taken(cfg, "a", v, "+") == 1;
    assert !FlagHarmless(cfg, '+', "a", v[1..], "+");
    assert !ElementUndisturbed(cfg, Some('+'), false, "a", REQUIRE_ORDER, v[1..], "+");
    assert !Undisturbed(cfg, Some('+'), false, "a", REQUIRE_ORDER, v[1..]);
  }
}
