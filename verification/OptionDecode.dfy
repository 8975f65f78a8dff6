/** Decoding one option of one argument (the second half of _getopt_internal,
    Wnn/etc/getopt.c:639-969). */
module OptionDecode {

  datatype Option<+T> = None | Some(value: T)

  /** `struct option`; `flag` says whether a flag variable is set instead of val being returned. */
  datatype LongOption = LongOption(name: string, hasArg: int, flag: bool, val: int)

  /** What the caller passes on every call besides the vector; longopts is None for NULL. */
  datatype Config = Config(optstring: string, longopts: Option<seq<LongOption>>, longOnly: bool, opterr: bool)

  /** What one decoding step returns and changes. `used` counts the elements optind moves over,
      `next` is the rest of the element still to be decoded. */
  datatype Step = Step(ret: int, used: nat, next: string, optarg: Option<string>, optopt: Option<int>, longind: Option<nat>)

  /** The character at k, the terminator behind the end. */
  function At(s: string, k: nat): char {
    if k < |s| then s[k] else '\0'
  }

  /** my_index: the rest of s from the first c on, or None. */
  function MyIndex(s: string, c: char): Option<string> {
    if s == [] then None else if s[0] == c then Some(s) else MyIndex(s[1..], c)
  }

  // ----- matching a long option's name -----

  datatype Match = NoMatch | Ambiguous | Found(i: nat)

  /** A name matches exactly, or as an abbreviation when no second option starts with it. */
  ghost predicate Matches(opts: seq<LongOption>, name: string, m: Match) {
    match m
    case NoMatch => forall j :: 0 <= j < |opts| ==> !(name <= opts[j].name)
    case Found(i) =>
      && i < |opts| && name <= opts[i].name
      && (opts[i].name == name ==> forall j :: 0 <= j < i ==> opts[j].name != name)
      && (opts[i].name != name ==> forall j :: 0 <= j < |opts| && j != i ==> !(name <= opts[j].name))
    case Ambiguous =>
      && (forall j :: 0 <= j < |opts| ==> opts[j].name != name)
      && exists j, k :: 0 <= j < k < |opts| && name <= opts[j].name && name <= opts[k].name
  }

  lemma SameFound(opts: seq<LongOption>, name: string, i: nat, k: nat)
    requires Matches(opts, name, Found(i)) && Matches(opts, name, Found(k))
    ensures i == k
  {
  }

  /** There is exactly one way to match. */
  lemma MatchIsUnique(opts: seq<LongOption>, name: string, m: Match, n: Match)
    requires Matches(opts, name, m) && Matches(opts, name, n)
    ensures m == n
  {
    if m.Found? && n.Found? {
      SameFound(opts, name, m.i, n.i);
    }
  }

  method FindLong(opts: seq<LongOption>, name: string) returns (m: Match)
    ensures Matches(opts, name, m)
  {
    var indfound, ambig := -1, false;
    var optionIndex := 0;
    ghost var second := 0;
    while optionIndex < |opts|
      invariant 0 <= optionIndex <= |opts|
      invariant forall j :: 0 <= j < optionIndex ==> opts[j].name != name
      invariant -1 <= indfound < optionIndex
      invariant indfound == -1 ==> !ambig && forall j :: 0 <= j < optionIndex ==> !(name <= opts[j].name)
      invariant indfound >= 0 ==> name <= opts[indfound].name
      invariant ambig ==> indfound < second < optionIndex && name <= opts[second].name
      invariant indfound >= 0 && !ambig ==>
                  forall j :: 0 <= j < optionIndex && j != indfound ==> !(name <= opts[j].name)
    {
      if name <= opts[optionIndex].name {
        if |name| == |opts[optionIndex].name| {
          assert opts[optionIndex].name == opts[optionIndex].name[..|name|] == name;
          return Found(optionIndex);
        } else if indfound == -1 {
          indfound := optionIndex;
        } else {
          ambig, second := true, optionIndex;
        }
      }
      optionIndex := optionIndex + 1;
    }
    if ambig {
      return Ambiguous;
    }
    return if indfound >= 0 then Found(indfound) else NoMatch;
  }

  lemma SomeMatch(opts: seq<LongOption>, name: string)
    ensures exists m :: Matches(opts, name, m)
  {
    if e :| 0 <= e < |opts| && opts[e].name == name {
      var i := FirstNamed(opts, name, e);
      assert Matches(opts, name, Found(i));
    } else if j, k :| 0 <= j < k < |opts| && name <= opts[j].name && name <= opts[k].name {
      assert Matches(opts, name, Ambiguous);
    } else if i :| 0 <= i < |opts| && name <= opts[i].name {
      assert Matches(opts, name, Found(i));
    } else {
      assert Matches(opts, name, NoMatch);
    }
  }

  lemma FirstNamed(opts: seq<LongOption>, name: string, e: nat) returns (i: nat)
    requires e < |opts| && opts[e].name == name
    ensures i < |opts| && opts[i].name == name && forall j :: 0 <= j < i ==> opts[j].name != name
    decreases e
  {
    if j :| 0 <= j < e && opts[j].name == name {
      i := FirstNamed(opts, name, j);
    } else {
      i := e;
    }
  }

  ghost function LongMatch(opts: seq<LongOption>, name: string): (m: Match)
    ensures Matches(opts, name, m)
  {
    SomeMatch(opts, name);
    var m :| Matches(opts, name, m);
    m
  }

  lemma FoundInRange(opts: seq<LongOption>, name: string)
    ensures LongMatch(opts, name).Found? ==> LongMatch(opts, name).i < |opts|
  {
  }

  // ----- one step, as a function -----

  /** Where the name ends: at the first '=', or at the end. */
  function NameEnd(s: string): (n: nat)
    ensures n <= |s| && '=' !in s[..n] && (n < |s| ==> s[n] == '=')
  {
    if s == [] || s[0] == '=' then 0 else 1 + NameEnd(s[1..])
  }

  function Complaint(opts: string): int {
    if At(opts, 0) == ':' then ':' as int else '?' as int
  }

  /** Is this element to be looked up among the long options? */
  predicate AsLong(cfg: Config, opts: string, elem: string) {
    cfg.longopts.Some? &&
    (At(elem, 1) == '-' || (cfg.longOnly && (|elem| > 2 || MyIndex(opts, At(elem, 1)).None?)))
  }

  /** What a found long option does with text after '=' or with the following element. `used` elements
      are behind us; `more` are the elements that follow them. A needless argument is refused: behind
      -W (`short`) always (lines 892-899), else only when messages are wanted (lines 702-719). */
  ghost function LongFound(cfg: Config, opts: string, text: string, i: nat, used: nat, more: seq<string>, short: bool): Step
    requires cfg.longopts.Some? && i < |cfg.longopts.value|
  {
    var p := cfg.longopts.value[i];
    var n := NameEnd(text);
    var ret := if p.flag then 0 else p.val;
    var complain := if short then None else Some(p.val);
    if n < |text| && p.hasArg == 0 && (short || cfg.opterr) then
      Step('?' as int, used, "", if short then Some(text) else None, complain, None)
    else if n < |text| then
      Step(ret, used, "", if p.hasArg != 0 then Some(text[n + 1..]) else None, None, Some(i))
    else if p.hasArg == 1 then
      if more == [] then Step(Complaint(opts), used, "", if short then Some(text) else None, complain, None)
      else Step(ret, used + 1, "", Some(more[0]), None, Some(i))
    else
      Step(ret, used, "", if short then Some(text) else None, None, Some(i))
  }

  /** Decodes the next option of tail[0], of which `next` is left. */
  ghost function Decode(cfg: Config, opts: string, tail: seq<string>, next: string): Step
    requires tail != [] && next != "" && Demands(cfg, opts)
  {
    if AsLong(cfg, opts, tail[0]) then
      match LongMatch(cfg.longopts.value, next[..NameEnd(next)])
      case Ambiguous => Step('?' as int, 1, "", None, Some(0), None)
      case Found(i) => LongFound(cfg, opts, next, i, 1, tail[1..], false)
      case NoMatch =>
        if !cfg.longOnly || At(tail[0], 1) == '-' || MyIndex(opts, next[0]).None? then
          Step('?' as int, 1, "", None, Some(0), None)
        else DecodeShort(cfg, opts, tail, next)
    else DecodeShort(cfg, opts, tail, next)
  }

  /** A "W;" in optstring makes -W look for long options, which the caller must then supply. */
  ghost predicate Demands(cfg: Config, opts: string) {
    var w := MyIndex(opts, 'W');
    w.Some? && At(w.value, 1) == ';' ==> cfg.longopts.Some?
  }

  ghost function DecodeShort(cfg: Config, opts: string, tail: seq<string>, next: string): Step
    requires tail != [] && next != "" && Demands(cfg, opts)
  {
    var c, rest, temp := next[0], next[1..], MyIndex(opts, next[0]);
    var used := if rest == "" then 1 else 0;
    if temp.None? || c == ':' then
      Step('?' as int, used, rest, None, Some(c as int), None)
    else if c == 'W' && At(temp.value, 1) == ';' then
      if rest != "" then DecodeW(cfg, opts, rest, 1, tail[1..])
      else if |tail| == 1 then Step(Complaint(opts), 1, "", None, Some(c as int), None)
      else DecodeW(cfg, opts, tail[1], 2, tail[2..])
    else if At(temp.value, 1) == ':' then
      if rest != "" then Step(c as int, 1, "", Some(rest), None, None)
      else if At(temp.value, 2) == ':' then Step(c as int, 1, "", None, None, None)
      else if |tail| == 1 then Step(Complaint(opts), 1, "", None, Some(c as int), None)
      else Step(c as int, 2, "", Some(tail[1]), None, None)
    else
      Step(c as int, used, rest, None, None, None)
  }

  /** -W text, when `used` elements are behind us. An ambiguous name moves optind one element
      further, whether or not there is one (Wnn/etc/getopt.c:866-874). */
  ghost function DecodeW(cfg: Config, opts: string, text: string, used: nat, more: seq<string>): Step
    requires cfg.longopts.Some?
  {
    match LongMatch(cfg.longopts.value, text[..NameEnd(text)])
    case Ambiguous => Step('?' as int, used + 1, "", Some(text), None, None)
    case Found(i) => LongFound(cfg, opts, text, i, used, more, true)
    case NoMatch => Step('W' as int, used, "", Some(text), None, None)
  }

  // ----- what a step may consume -----

  /** What an option string says about a character. */
  datatype Kind = Unknown | Plain | Required | Optional | Named

  ghost function KindOf(opts: string, c: char): Kind {
    var t := MyIndex(opts, c);
    if t.None? || c == ':' then Unknown
    else if c == 'W' && At(t.value, 1) == ';' then Named
    else if At(t.value, 1) != ':' then Plain
    else if At(t.value, 2) == ':' then Optional
    else Required
  }

  /** Is the step decided by the long-option branch? */
  ghost predicate AsLongStep(cfg: Config, opts: string, tail: seq<string>, next: string)
    requires tail != [] && next != ""
  {
    && AsLong(cfg, opts, tail[0])
    && !(LongMatch(cfg.longopts.value, next[..NameEnd(next)]).NoMatch?
         && cfg.longOnly && At(tail[0], 1) != '-' && MyIndex(opts, next[0]).Some?)
  }

  /** Does this name want an argument that is not part of it? */
  ghost predicate WantsMore(cfg: Config, text: string)
    requires cfg.longopts.Some?
  {
    var m := LongMatch(cfg.longopts.value, text[..NameEnd(text)]);
    m.Found? && NameEnd(text) == |text| && cfg.longopts.value[m.i].hasArg == 1
  }

  /** How many elements the step takes: the element, once it is used up, and those that become its
      arguments. */
  ghost function Taken(cfg: Config, opts: string, tail: seq<string>, next: string): nat
    requires tail != [] && next != "" && Demands(cfg, opts)
  {
    if AsLongStep(cfg, opts, tail, next) then
      if WantsMore(cfg, next) && |tail| > 1 then 2 else 1
    else
      match KindOf(opts, next[0])
      case Unknown => if next[1..] == "" then 1 else 0
      case Plain => if next[1..] == "" then 1 else 0
      case Optional => 1
      case Required => if next[1..] == "" && |tail| > 1 then 2 else 1
      case Named =>
        if next[1..] != "" then if WantsMore(cfg, next[1..]) && |tail| > 1 then 2 else 1
        else if |tail| == 1 then 1
        else if WantsMore(cfg, tail[1]) && |tail| > 2 then 3 else 2
  }

  /** Does this step end in the ambiguous -W case that moves optind once too often? */
  ghost predicate AmbiguousW(cfg: Config, opts: string, tail: seq<string>, next: string)
    requires tail != [] && next != "" && Demands(cfg, opts)
  {
    && !AsLongStep(cfg, opts, tail, next)
    && KindOf(opts, next[0]) == Named && (next[1..] != "" || |tail| > 1)
    && var text := if next[1..] != "" then next[1..] else tail[1];
       LongMatch(cfg.longopts.value, text[..NameEnd(text)]).Ambiguous?
  }

  lemma IndexFindsChar(s: string, c: char)
    ensures MyIndex(s, c).Some? ==> MyIndex(s, c).value != "" && MyIndex(s, c).value[0] == c
  {
  }

  /** A step moves optind by what it takes, except that an ambiguous name behind -W moves it one
      element further, which is no argument of it and may not be there. */
  lemma StepTakes(cfg: Config, opts: string, tail: seq<string>, next: string)
    requires tail != [] && next != "" && Demands(cfg, opts)
    ensures var st, taken := Decode(cfg, opts, tail, next), Taken(cfg, opts, tail, next);
            && taken <= |tail| && (taken == 0 ==> st.used == 0)
            && st.used == taken + (if AmbiguousW(cfg, opts, tail, next) then 1 else 0)
            && (st.used == 0 ==> st.next != "" && st.next == next[1..])
            && (st.next != "" ==> st.used == 0 && taken == 0)
  {
    hide LongMatch, Matches, MyIndex, NameEnd, AsLong;
    IndexFindsChar(opts, next[0]);
  }

  // ----- what silence changes -----

  /** `opterr` is documented to silence messages only (lines 477-481). It also decides the outcome, exactly
      when a long option that takes no argument is given one with '=' (lines 702-719). */
  lemma SilenceChangesOutcome(cfg: Config, opts: string, tail: seq<string>, next: string)
    requires tail != [] && next != "" && Demands(cfg, opts)
    ensures var quiet, loud := cfg.(opterr := false), cfg.(opterr := true);
            Decode(quiet, opts, tail, next) != Decode(loud, opts, tail, next) <==>
            && AsLong(cfg, opts, tail[0])
            && var m := LongMatch(cfg.longopts.value, next[..NameEnd(next)]);
               m.Found? && NameEnd(next) < |next| && cfg.longopts.value[m.i].hasArg == 0
  {
    hide LongMatch, Matches, MyIndex, NameEnd, DecodeShort, LongFound, Demands;
    ShortIsDeaf(cfg, opts, tail, next);
    if AsLong(cfg, opts, tail[0]) {
      var m := LongMatch(cfg.longopts.value, next[..NameEnd(next)]);
      if m.Found? {
        FoundInRange(cfg.longopts.value, next[..NameEnd(next)]);
        LongHears(cfg, opts, next, m.i, tail[1..]);
      }
    }
  }

  /** --foo=x, where foo takes no argument: a complaint when messages are on, and foo when they are
      silenced. */
  lemma SilenceAccepts()
    ensures var cfg := Config("a", Some([LongOption("foo", 0, false, 7)]), false, false);
            && Demands(cfg, "a")
            && Decode(cfg, "a", ["--foo=x"], "foo=x").ret == 7
            && Decode(cfg.(opterr := true), "a", ["--foo=x"], "foo=x").ret == '?' as int
  {
    var opts := [LongOption("foo", 0, false, 7)];
    assert NameEnd("foo=x") == 3 by { assert "foo=x"[1..][1..][1..] == "=x"; }
    assert "foo=x"[..3] == "foo";
    assert Matches(opts, "foo", Found(0));
    MatchIsUnique(opts, "foo", Found(0), LongMatch(opts, "foo"));
  }

  lemma ShortIsDeaf(cfg: Config, opts: string, tail: seq<string>, next: string)
    requires tail != [] && next != "" && Demands(cfg, opts)
    ensures var quiet, loud := cfg.(opterr := false), cfg.(opterr := true);
            && Demands(quiet, opts) && Demands(loud, opts)
            && DecodeShort(quiet, opts, tail, next) == DecodeShort(loud, opts, tail, next)
  {
    hide LongMatch, Matches, MyIndex, NameEnd;
  }

  lemma LongHears(cfg: Config, opts: string, text: string, i: nat, more: seq<string>)
    requires cfg.longopts.Some? && i < |cfg.longopts.value|
    ensures var quiet, loud := cfg.(opterr := false), cfg.(opterr := true);
            LongFound(quiet, opts, text, i, 1, more, false) != LongFound(loud, opts, text, i, 1, more, false) <==>
            NameEnd(text) < |text| && cfg.longopts.value[i].hasArg == 0
  {
    hide NameEnd;
  }

  // ----- what an ordering flag in front of the option string changes -----

  /** Does the step end because an argument is missing? */
  ghost predicate Complains(cfg: Config, opts: string, tail: seq<string>, next: string)
    requires tail != [] && next != "" && Demands(cfg, opts)
  {
    if AsLongStep(cfg, opts, tail, next) then WantsMore(cfg, next) && |tail| == 1
    else ShortComplains(cfg, opts, tail, next)
  }

  ghost predicate ShortComplains(cfg: Config, opts: string, tail: seq<string>, next: string)
    requires tail != [] && next != "" && Demands(cfg, opts)
  {
    match KindOf(opts, next[0])
    case Required => next[1..] == "" && |tail| == 1
    case Named =>
      if next[1..] != "" then WantsMore(cfg, next[1..]) && |tail| == 1
      else |tail| == 1 || (WantsMore(cfg, tail[1]) && |tail| == 2)
    case _ => false
  }

  /** Two kinds of character that do the same to what is left of an element, and to the elements
      behind it; the first kind is that of the flag. */
  ghost predicate Alike(flag: Kind, own: Kind, last: bool, alone: bool) {
    || (flag == own && !(flag == Required && last && alone))
    || (last && flag in {Plain, Optional} && own in {Plain, Optional})
    || (!last && flag in {Required, Optional} && own in {Required, Optional})
    || (last && alone && flag == Required && own == Unknown)
  }

  /** Does it make no difference to the step that the flag f stands in front of opts? A character
      other than f is looked up all the same, and only a complaint about a missing argument changes,
      when opts starts with ':'. For f itself the flag stands for an option of its own. */
  ghost predicate FlagHarmless(cfg: Config, f: char, opts: string, tail: seq<string>, next: string)
    requires tail != [] && next != "" && Demands(cfg, opts)
  {
    if next[0] != f || (AsLongStep(cfg, opts, tail, next) && AsLongStep(cfg, [f] + opts, tail, next)) then
      At(opts, 0) == ':' ==> !Complains(cfg, opts, tail, next)
    else
      && !AsLongStep(cfg, opts, tail, next)
      && Alike(KindOf([f] + opts, f), KindOf(opts, f), next[1..] == "", |tail| == 1)
  }

  lemma FlagInFront(f: char, opts: string, c: char)
    requires f in {'+', '-'}
    ensures MyIndex([f] + opts, c) == if c == f then Some([f] + opts) else MyIndex(opts, c)
    ensures Complaint([f] + opts) == '?' as int
    ensures At([f] + opts, 1) == At(opts, 0) && At([f] + opts, 2) == At(opts, 1)
  {
    assert ([f] + opts)[1..] == opts;
  }

  /** Exactly when the flag in front makes no difference to a step; `next` is what is left of
      tail[0]. */
  lemma FlagChangesStep(cfg: Config, f: char, opts: string, tail: seq<string>, next: string)
    requires f in {'+', '-'} && tail != [] && next != "" && Demands(cfg, opts)
    requires |tail[0]| == 2 ==> next == tail[0][1..]
    ensures Demands(cfg, [f] + opts)
    ensures Decode(cfg, [f] + opts, tail, next) == Decode(cfg, opts, tail, next) <==> FlagHarmless(cfg, f, opts, tail, next)
  {
    hide LongMatch, Matches, MyIndex, NameEnd, DecodeShort, LongFound, Complaint, KindOf, Complains, Alike;
    FlagInFront(f, opts, 'W');
    FlagInFront(f, opts, next[0]);
    FlagInFront(f, opts, At(tail[0], 1));
    if next[0] != f {
      FlagElsewhere(cfg, f, opts, tail, next);
    } else {
      FlagLookedUp(cfg, f, opts, tail, next);
    }
  }

  lemma FlagElsewhere(cfg: Config, f: char, opts: string, tail: seq<string>, next: string)
    requires f in {'+', '-'} && tail != [] && next != "" && Demands(cfg, opts) && Demands(cfg, [f] + opts)
    requires next[0] != f && (|tail[0]| == 2 ==> next == tail[0][1..])
    ensures Decode(cfg, [f] + opts, tail, next) == Decode(cfg, opts, tail, next) <==>
            (At(opts, 0) == ':' ==> !Complains(cfg, opts, tail, next))
  {
    hide LongMatch, Matches, MyIndex, NameEnd, DecodeShort, ShortComplains, Demands;
    FlagInFront(f, opts, next[0]);
    FlagInFront(f, opts, At(tail[0], 1));
    ShortElsewhere(cfg, f, opts, tail, next);
  }

  lemma ShortElsewhere(cfg: Config, f: char, opts: string, tail: seq<string>, next: string)
    requires f in {'+', '-'} && tail != [] && next != "" && Demands(cfg, opts) && Demands(cfg, [f] + opts) && next[0] != f
    ensures DecodeShort(cfg, [f] + opts, tail, next) == DecodeShort(cfg, opts, tail, next) <==>
            (At(opts, 0) == ':' ==> !ShortComplains(cfg, opts, tail, next))
  {
    hide LongMatch, Matches, MyIndex, NameEnd;
    FlagInFront(f, opts, next[0]);
  }

  lemma FlagLookedUp(cfg: Config, f: char, opts: string, tail: seq<string>, next: string)
    requires f in {'+', '-'} && tail != [] && next != "" && Demands(cfg, opts) && Demands(cfg, [f] + opts)
    requires next[0] == f && (|tail[0]| == 2 ==> next == tail[0][1..])
    ensures Decode(cfg, [f] + opts, tail, next) == Decode(cfg, opts, tail, next) <==> FlagHarmless(cfg, f, opts, tail, next)
  {
    hide LongMatch, Matches, MyIndex, NameEnd, DecodeShort, Demands, KindOf, Alike;
    FlagInFront(f, opts, f);
    FlagInFront(f, opts, At(tail[0], 1));
    NameOfOne(next);
    FlagAsOption(cfg, f, opts, tail, next);
    ShortLookedUp(cfg, f, opts, tail, next);
  }

  /** The flag, taken for an option, never does what the long-option branch does. */
  lemma FlagAsOption(cfg: Config, f: char, opts: string, tail: seq<string>, next: string)
    requires f in {'+', '-'} && tail != [] && next != "" && next[0] == f && Demands(cfg, [f] + opts)
    ensures var st := DecodeShort(cfg, [f] + opts, tail, next);
            && st.longind == None && (st.ret == f as int || (st.ret == '?' as int && st.optopt == Some(f as int) && At(opts, 0) == ':'))
  {
    hide LongMatch, Matches, MyIndex, NameEnd;
    FlagInFront(f, opts, f);
  }

  lemma ShortLookedUp(cfg: Config, f: char, opts: string, tail: seq<string>, next: string)
    requires f in {'+', '-'} && tail != [] && next != "" && Demands(cfg, opts) && Demands(cfg, [f] + opts) && next[0] == f
    ensures DecodeShort(cfg, [f] + opts, tail, next) == DecodeShort(cfg, opts, tail, next) <==>
            Alike(KindOf([f] + opts, f), KindOf(opts, f), next[1..] == "", |tail| == 1)
  {
    hide LongMatch, Matches, MyIndex, NameEnd;
    FlagInFront(f, opts, f);
    IndexFindsChar(opts, f);
  }

  lemma NameOfOne(s: string)
    ensures |s| == 1 && s[0] != '=' ==> NameEnd(s) == 1
  {
  }
}
