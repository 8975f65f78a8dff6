/** Options and operands as a user means them, spelled out as an argument vector, and what a scan
    reads back (Wnn/etc/getopt.c:470-510, 547-967): the options in the order given, each with its
    argument, and the operands behind them. */
module ArgumentVector {
  import opened OptionDecode
  import opened OptionMeaning
  import opened ScanMeaning
  import opened GetoptScan

  /** How an argument is given: not at all, in the option's own element, or in the next one. */
  datatype Given = Nothing | Attached(value: string) | Apart(value: string)

  /** An operand; a long option; or option characters in one element, the last of which may take an
      argument. */
  datatype Item =
    | Operand(text: string)
    | Long(i: nat, name: string, given: Given)
    | Chars(plain: string, last: Option<char>, given: Given)

  function Spelled(head: string, mark: string, given: Given): (elements: seq<string>)
    ensures 1 <= |elements| <= 2
  {
    match given
    case Nothing => [head]
    case Attached(v) => [head + mark + v]
    case Apart(v) => [head, v]
  }

  function Elements(it: Item): (elements: seq<string>)
    ensures 1 <= |elements| <= 2
  {
    match it
    case Operand(text) => [text]
    case Long(_, name, given) => Spelled("--" + name, "=", given)
    case Chars(plain, last, given) => Spelled("-" + plain + (if last.Some? then [last.value] else ""), "", given)
  }

  function Vector(items: seq<Item>): seq<string> {
    if items == [] then [] else Elements(items[0]) + Vector(items[1..])
  }

  /** Can this be meant under these options? An abbreviation must be that of one option, an argument be
      given where it is required and nowhere else, and in the next element only where it is required.
      Characters that are no options are allowed, but not the ordering flag. */
  ghost predicate Meant(cfg: Config, flag: Option<char>, opts: string, it: Item) {
    match it
    case Operand(text) => NonOption(text)
    case Long(i, name, given) =>
      && cfg.longopts.Some? && i < |cfg.longopts.value| && name != "" && '=' !in name
      && Matches(cfg.longopts.value, name, Found(i))
      && match cfg.longopts.value[i].hasArg {
           case 0 => given.Nothing?
           case 1 => !given.Nothing?
           case _ => !given.Apart?
         }
    case Chars(plain, last, given) =>
      && !cfg.longOnly
      && (forall k :: 0 <= k < |plain| ==> CharOk(flag, plain[k]) && KindOf(opts, plain[k]) in {Plain, Unknown})
      && (plain != "" ==> plain[0] != '-') && (plain == "" ==> last.Some? && last.value != '-')
      && LastOk(flag, opts, last, given)
  }

  /** Does the last character take its argument where it is given? */
  ghost predicate LastOk(flag: Option<char>, opts: string, last: Option<char>, given: Given) {
    if last.None? then given.Nothing? else
      && CharOk(flag, last.value) && (given.Attached? ==> given.value != "")
      && match KindOf(opts, last.value) {
           case Required => !given.Nothing?
           case Optional => !given.Apart?
           case _ => false
         }
  }

  ghost predicate CharOk(flag: Option<char>, c: char) {
    flag != Some(c)
  }

  function ArgumentOf(given: Given): Option<string> {
    if given.Nothing? then None else Some(given.value)
  }

  /** What the calls give back for the characters of one element; optind moves with its last one. */
  ghost function CharCalls(opts: string, plain: string, last: bool, at: nat): seq<Seen> {
    if plain == "" then [] else
      [Seen(if KindOf(opts, plain[0]) == Plain then plain[0] as int else '?' as int, None, if |plain| == 1 && last then at + 1 else at)]
      + CharCalls(opts, plain[1..], last, at)
  }

  /** What the calls give back for an item whose first element stands at `at`. */
  ghost function Calls(cfg: Config, opts: string, mode: Ordering, it: Item, at: nat): seq<Seen>
    requires it.Long? ==> cfg.longopts.Some? && it.i < |cfg.longopts.value|
  {
    match it
    case Operand(text) => if mode == RETURN_IN_ORDER then [Seen(1, Some(text), at + 1)] else []
    case Long(i, _, given) =>
      var p := cfg.longopts.value[i];
      [Seen(if p.flag then 0 else p.val, ArgumentOf(given), at + |Elements(it)|)]
    case Chars(plain, last, given) =>
      CharCalls(opts, plain, last.None?, at)
      + if last.Some? then [Seen(last.value as int, ArgumentOf(given), at + |Elements(it)|)] else []
  }

  ghost function AllCalls(cfg: Config, opts: string, mode: Ordering, items: seq<Item>, at: nat): seq<Seen>
    requires forall k :: 0 <= k < |items| && items[k].Long? ==> cfg.longopts.Some? && items[k].i < |cfg.longopts.value|
  {
    if items == [] then []
    else Calls(cfg, opts, mode, items[0], at) + AllCalls(cfg, opts, mode, items[1..], at + |Elements(items[0])|)
  }

  /** The elements that end in front of optind, and those behind it. */
  function Front(mode: Ordering, items: seq<Item>): seq<string> {
    if items == [] then []
    else (if items[0].Operand? && mode == PERMUTE then [] else Elements(items[0])) + Front(mode, items[1..])
  }

  function Back(mode: Ordering, items: seq<Item>): seq<string> {
    if items == [] then []
    else (if items[0].Operand? && mode == PERMUTE then Elements(items[0]) else []) + Back(mode, items[1..])
  }

  // ----- one item -----

  lemma SeenBoth(r: seq<Report>, r1: seq<Report>)
    ensures SeenOf(r + r1) == SeenOf(r) + SeenOf(r1)
  {
  }

  lemma KindKept(flag: Option<char>, opts: string, c: char)
    requires FlagOk(flag) && CharOk(flag, c)
    ensures KindOf(Behind(flag, opts), c) == KindOf(opts, c)
  {
    if flag.Some? { FlagInFront(flag.value, opts, c); }
  }

  /** The option string a call looks into: the first call drops the flag. */
  ghost predicate Either(flag: Option<char>, opts: string, now: string) {
    now == opts || now == Behind(flag, opts)
  }

  lemma OperandScanned(cfg: Config, flag: Option<char>, opts: string, now: string, mode: Ordering, text: string, v: seq<string>, at: nat)
    returns (r: seq<Report>, then_: string)
    requires FlagOk(flag) && Demands(cfg, opts) && Demands(cfg, Behind(flag, opts)) && Either(flag, opts, now)
    requires NonOption(text) && mode != REQUIRE_ORDER
    ensures Either(flag, opts, then_) && SeenOf(r) == if mode == RETURN_IN_ORDER then [Seen(1, Some(text), at + 1)] else []
    ensures var later := Behind(flag, opts);
            Scan(cfg, now, later, mode, false, [text] + v, at) ==
            Prepend(if mode == PERMUTE then [] else [text], if mode == PERMUTE then [text] else [], r,
                    Scan(cfg, then_, later, mode, false, v, at + 1))
  {
    hide Demands, Prepend, ScanElement;
    assert ([text] + v)[1..] == v;
    if mode == PERMUTE {
      r, then_ := [], now;
    } else {
      r, then_ := [OperandReport(text, at)], Behind(flag, opts);
    }
  }

  lemma LongScanned(cfg: Config, flag: Option<char>, opts: string, now: string, mode: Ordering, it: Item, v: seq<string>, at: nat)
    returns (r: seq<Report>)
    requires FlagOk(flag) && Demands(cfg, opts) && Demands(cfg, Behind(flag, opts)) && Either(flag, opts, now)
    requires it.Long? && Meant(cfg, flag, opts, it)
    ensures SeenOf(r) == Calls(cfg, opts, mode, it, at)
    ensures var later := Behind(flag, opts);
            Scan(cfg, now, later, mode, false, Elements(it) + v, at) ==
            Prepend(Elements(it), [], r, Scan(cfg, later, later, mode, false, v, at + |Elements(it)|))
  {
    hide Demands, Prepend, Matches, KindOf, Decode, Taken;
    var all, later := Elements(it) + v, Behind(flag, opts);
    var name, text := it.name, if it.given.Attached? then it.name + "=" + it.given.value else it.name;
    assert all[0] == "--" + text && all[0][2..] == text;
    if it.given.Attached? {
      LongWithValue(cfg, now, all, name, it.given.value, it.i);
    } else {
      LongAlone(cfg, now, all, name, it.i);
    }
    var st := Decode(cfg, now, all, text);
    assert all[..st.used] == Elements(it) && all[st.used..] == v;
    r := [Report(st, at + st.used)];
  }

  /** What is left of an element of option characters. */
  function CharText(plain: string, last: Option<char>, given: Given): string {
    plain + (if last.Some? then [last.value] else "") + (if given.Attached? then given.value else "")
  }

  /** all starts with the element, of which plain, last and an argument in it are left. */
  ghost predicate AtChars(cfg: Config, all: seq<string>, plain: string, last: Option<char>, given: Given) {
    && !cfg.longOnly && all != [] && |all[0]| >= 2 && all[0][1] != '-'
    && (plain != "" || last.Some?)
    && (given.Apart? ==> |all| > 1 && all[1] == given.value)
  }

  lemma LastCharScanned(cfg: Config, flag: Option<char>, opts: string, now: string, mode: Ordering, all: seq<string>, at: nat, c: char, given: Given)
    returns (r: seq<Report>)
    requires FlagOk(flag) && Demands(cfg, opts) && Demands(cfg, Behind(flag, opts)) && Either(flag, opts, now)
    requires AtChars(cfg, all, "", Some(c), given) && LastOk(flag, opts, Some(c), given)
    ensures var n := if given.Apart? then 2 else 1;
            && SeenOf(r) == [Seen(c as int, ArgumentOf(given), at + n)]
            && ScanElement(cfg, now, Behind(flag, opts), mode, false, all, at, CharText("", Some(c), given)) ==
               Prepend(all[..n], [], r, Scan(cfg, Behind(flag, opts), Behind(flag, opts), mode, false, all[n..], at + n))
  {
    hide Demands, Prepend, KindOf, Decode, Taken, Scan;
    KindKept(flag, opts, c);
    var rest := if given.Attached? then given.value else "";
    assert CharText("", Some(c), given) == [c] + rest;
    CharWithArgument(cfg, now, all, c, rest);
    var st := Decode(cfg, now, all, [c] + rest);
    r := [Report(st, at + st.used)];
  }

  /** A character without argument, which rest follows in its element. */
  lemma CharScanned(cfg: Config, flag: Option<char>, opts: string, now: string, mode: Ordering, all: seq<string>, at: nat, c: char, rest: string)
    returns (r: seq<Report>)
    requires FlagOk(flag) && Demands(cfg, opts) && Demands(cfg, Behind(flag, opts)) && Either(flag, opts, now)
    requires !cfg.longOnly && all != [] && |all[0]| >= 2 && all[0][1] != '-'
    requires CharOk(flag, c) && KindOf(opts, c) in {Plain, Unknown}
    ensures SeenOf(r) == [Seen(if KindOf(opts, c) == Plain then c as int else '?' as int, None, if rest == "" then at + 1 else at)]
    ensures var later := Behind(flag, opts);
            ScanElement(cfg, now, later, mode, false, all, at, [c] + rest) ==
            if rest == "" then Prepend(all[..1], [], r, Scan(cfg, later, later, mode, false, all[1..], at + 1))
            else Prepend([], [], r, ScanElement(cfg, later, later, mode, false, all, at, rest))
  {
    hide Demands, Prepend, KindOf, Decode, Taken, Scan;
    KindKept(flag, opts, c);
    CharAlone(cfg, now, all, c, rest);
    var st := Decode(cfg, now, all, [c] + rest);
    r := [Report(st, at + st.used)];
  }

  lemma {:induction false} CharsScanned(cfg: Config, flag: Option<char>, opts: string, now: string, mode: Ordering, all: seq<string>, at: nat,
                                        plain: string, last: Option<char>, given: Given)
    returns (r: seq<Report>)
    requires FlagOk(flag) && Demands(cfg, opts) && Demands(cfg, Behind(flag, opts)) && Either(flag, opts, now)
    requires AtChars(cfg, all, plain, last, given) && LastOk(flag, opts, last, given)
    requires forall k :: 0 <= k < |plain| ==> CharOk(flag, plain[k]) && KindOf(opts, plain[k]) in {Plain, Unknown}
    ensures var n := if given.Apart? then 2 else 1;
            && SeenOf(r) == CharCalls(opts, plain, last.None?, at)
                            + (if last.Some? then [Seen(last.value as int, ArgumentOf(given), at + n)] else [])
            && ScanElement(cfg, now, Behind(flag, opts), mode, false, all, at, CharText(plain, last, given)) ==
               Prepend(all[..n], [], r, Scan(cfg, Behind(flag, opts), Behind(flag, opts), mode, false, all[n..], at + n))
    decreases |plain|
  {
    hide Demands, Prepend, KindOf, Scan, ScanElement;
    var later, n := Behind(flag, opts), if given.Apart? then 2 else 1;
    if plain == "" {
      r := LastCharScanned(cfg, flag, opts, now, mode, all, at, last.value, given);
    } else {
      var c, rest := plain[0], CharText(plain[1..], last, given);
      assert CharText(plain, last, given) == [c] + rest;
      r := CharScanned(cfg, flag, opts, now, mode, all, at, c, rest);
      if rest != "" {
        var more := CharsScanned(cfg, flag, opts, later, mode, all, at, plain[1..], last, given);
        SeenBoth(r, more);
        PrependMoved(all[..n], r, more, Scan(cfg, later, later, mode, false, all[n..], at + n));
        CallsJoin(opts, plain, last, SeenOf(more), at, n, given);
        r := r + more;
      }
    }
  }

  lemma PrependMoved(m: seq<string>, r: seq<Report>, r1: seq<Report>, o: Outcome)
    ensures Prepend([], [], r, Prepend(m, [], r1, o)) == Prepend(m, [], r + r1, o)
  {
    PrependTwice([], [], r, m, [], r1, o);
    assert [] + m == m;
  }

  lemma CallsJoin(opts: string, plain: string, last: Option<char>, more: seq<Seen>, at: nat, n: nat, given: Given)
    requires plain != "" && (|plain| > 1 || last.Some?)
    requires more == CharCalls(opts, plain[1..], last.None?, at) + if last.Some? then [Seen(last.value as int, ArgumentOf(given), at + n)] else []
    ensures [Seen(if KindOf(opts, plain[0]) == Plain then plain[0] as int else '?' as int, None, at)] + more ==
            CharCalls(opts, plain, last.None?, at) + if last.Some? then [Seen(last.value as int, ArgumentOf(given), at + n)] else []
  {
  }

  lemma CharsItemScanned(cfg: Config, flag: Option<char>, opts: string, now: string, mode: Ordering, it: Item, v: seq<string>, at: nat)
    returns (r: seq<Report>)
    requires FlagOk(flag) && Demands(cfg, opts) && Demands(cfg, Behind(flag, opts)) && Either(flag, opts, now)
    requires it.Chars? && Meant(cfg, flag, opts, it)
    ensures SeenOf(r) == Calls(cfg, opts, mode, it, at)
    ensures var later := Behind(flag, opts);
            Scan(cfg, now, later, mode, false, Elements(it) + v, at) ==
            Prepend(Elements(it), [], r, Scan(cfg, later, later, mode, false, v, at + |Elements(it)|))
  {
    hide Demands, Prepend, KindOf, ScanElement;
    var all, text := Elements(it) + v, CharText(it.plain, it.last, it.given);
    assert all[0] == "-" + text && all[0][1..] == text;
    r := CharsScanned(cfg, flag, opts, now, mode, all, at, it.plain, it.last, it.given);
    assert all[..|Elements(it)|] == Elements(it) && all[|Elements(it)|..] == v;
  }

  lemma ItemScanned(cfg: Config, flag: Option<char>, opts: string, now: string, mode: Ordering, it: Item, v: seq<string>, at: nat)
    returns (r: seq<Report>, then_: string)
    requires FlagOk(flag) && Demands(cfg, opts) && Demands(cfg, Behind(flag, opts)) && Either(flag, opts, now)
    requires Meant(cfg, flag, opts, it) && (mode == REQUIRE_ORDER ==> !it.Operand?)
    ensures Either(flag, opts, then_) && SeenOf(r) == Calls(cfg, opts, mode, it, at)
    ensures var stays := it.Operand? && mode == PERMUTE;
            Scan(cfg, now, Behind(flag, opts), mode, false, Elements(it) + v, at) ==
            Prepend(if stays then [] else Elements(it), if stays then Elements(it) else [], r,
                    Scan(cfg, then_, Behind(flag, opts), mode, false, v, at + |Elements(it)|))
  {
    hide Demands, Prepend, Scan;
    then_ := Behind(flag, opts);
    assert Either(flag, opts, then_) by { BehindIsEither(flag, opts); }
    match it
    case Operand(text) => r, then_ := OperandScanned(cfg, flag, opts, now, mode, text, v, at);
    case Long(_, _, _) => r := LongScanned(cfg, flag, opts, now, mode, it, v, at);
    case Chars(_, _, _) => r := CharsItemScanned(cfg, flag, opts, now, mode, it, v, at);
  }

  lemma BehindIsEither(flag: Option<char>, opts: string)
    ensures Either(flag, opts, Behind(flag, opts)) && Either(flag, opts, opts)
  {
  }

  // ----- whole vectors -----

  ghost predicate AllMeant(cfg: Config, flag: Option<char>, opts: string, mode: Ordering, items: seq<Item>) {
    forall k :: 0 <= k < |items| ==> Meant(cfg, flag, opts, items[k]) && (mode == REQUIRE_ORDER ==> !items[k].Operand?)
  }

  /** A vector that spells items is scanned item by item. */
  lemma {:induction false} VectorScanned(cfg: Config, flag: Option<char>, opts: string, now: string, mode: Ordering, items: seq<Item>, tail: seq<string>, at: nat)
    returns (r: seq<Report>, then_: string)
    requires FlagOk(flag) && Demands(cfg, opts) && Demands(cfg, Behind(flag, opts)) && Either(flag, opts, now)
    requires AllMeant(cfg, flag, opts, mode, items)
    ensures Either(flag, opts, then_) && SeenOf(r) == AllCalls(cfg, opts, mode, items, at)
    ensures Scan(cfg, now, Behind(flag, opts), mode, false, Vector(items) + tail, at) ==
            Prepend(Front(mode, items), Back(mode, items), r,
                    Scan(cfg, then_, Behind(flag, opts), mode, false, tail, at + |Vector(items)|))
    decreases |items|
  {
    hide Demands, Prepend, Scan, Meant, Elements, Calls, Behind;
    if items == [] {
      r, then_ := [], now;
      assert Vector(items) + tail == tail;
      PrependNothing(Scan(cfg, now, Behind(flag, opts), mode, false, tail, at));
    } else {
      var it, v := items[0], Vector(items[1..]) + tail;
      assert Vector(items) + tail == Elements(it) + v;
      var r0, now1 := ItemScanned(cfg, flag, opts, now, mode, it, v, at);
      var r1;
      r1, then_ := VectorScanned(cfg, flag, opts, now1, mode, items[1..], tail, at + |Elements(it)|);
      r := r0 + r1;
      SeenBoth(r0, r1);
      var stays := it.Operand? && mode == PERMUTE;
      PrependTwice(if stays then [] else Elements(it), if stays then Elements(it) else [], r0, Front(mode, items[1..]), Back(mode, items[1..]), r1,
                   Scan(cfg, then_, Behind(flag, opts), mode, false, tail, at + |Vector(items)|));
    }
  }

  /** Where a scan stops: at the end, at "--", or at an operand when none is to be passed. */
  ghost predicate Stops(mode: Ordering, tail: seq<string>) {
    tail == [] || tail[0] == "--" || (mode == REQUIRE_ORDER && NonOption(tail[0]))
  }

  function Terminator(tail: seq<string>): seq<string> {
    if tail != [] && tail[0] == "--" then ["--"] else []
  }

  function Remaining(tail: seq<string>): seq<string> {
    if tail != [] && tail[0] == "--" then tail[1..] else tail
  }

  lemma StopScanned(cfg: Config, now: string, later: string, mode: Ordering, tail: seq<string>, at: nat)
    requires Demands(cfg, now) && Demands(cfg, later) && Stops(mode, tail)
    ensures Scan(cfg, now, later, mode, false, tail, at) == Outcome(Terminator(tail), Remaining(tail), [])
  {
    hide Demands, ScanElement;
  }

  lemma SpelledScanned(cfg: Config, flag: Option<char>, opts: string, mode: Ordering, items: seq<Item>, tail: seq<string>)
    requires FlagOk(flag) && Demands(cfg, opts) && Demands(cfg, Behind(flag, opts))
    requires AllMeant(cfg, flag, opts, mode, items) && Stops(mode, tail)
    ensures var o := Scan(cfg, opts, Behind(flag, opts), mode, false, Vector(items) + tail, 1);
            && o.Outcome? && SeenOf(o.reports) == AllCalls(cfg, opts, mode, items, 1)
            && o.moved == Front(mode, items) + Terminator(tail) && o.stayed == Back(mode, items) + Remaining(tail)
  {
    hide Demands, Scan, Meant, Vector;
    BehindIsEither(flag, opts);
    var r, then_ := VectorScanned(cfg, flag, opts, opts, mode, items, tail, 1);
    StopScanned(cfg, then_, Behind(flag, opts), mode, tail, 1 + |Vector(items)|);
    assert r + [] == r;
  }

  /** A caller's loop over a vector that spells these items, in any of the three orderings: the calls
      give back every option with its argument, in order, and optind ends at the operands. */
  method ScanSpelled(argv: array<string>, cfg: Config, posixlyCorrect: bool, ghost items: seq<Item>, ghost tail: seq<string>)
    returns (calls: seq<Seen>, optind: nat, overrun: bool)
    requires argv.Length > 0 && Demands(cfg, cfg.optstring) && argv[1..] == Vector(items) + tail
    requires var mode := OrderingOf(cfg.optstring, posixlyCorrect);
             AllMeant(cfg, FlagOf(cfg.optstring), Unflagged(cfg.optstring), mode, items) && Stops(mode, tail)
    modifies argv
    ensures !overrun
    ensures var opts, mode := Unflagged(cfg.optstring), OrderingOf(cfg.optstring, posixlyCorrect);
            && calls == AllCalls(cfg, opts, mode, items, 1)
            && argv[..] == [old(argv[0])] + (Front(mode, items) + Terminator(tail)) + (Back(mode, items) + Remaining(tail))
            && optind == 1 + |Front(mode, items)| + |Terminator(tail)|
  {
    hide Demands, Scan, Meant, Vector, Undisturbed, OrderingOf, Parts;
    FlagInFrontOf(cfg.optstring);
    UnflaggedDemands(cfg, cfg.optstring);
    SpelledScanned(cfg, FlagOf(cfg.optstring), Unflagged(cfg.optstring), OrderingOf(cfg.optstring, posixlyCorrect), items, tail);
    calls, optind, overrun := ScanAll(argv, cfg, posixlyCorrect);
  }
}
