/** What one option is, said of the characters that spell it: its value, its argument, and what is
    reported when it is wrong (Wnn/etc/getopt.c:639-967). */
module OptionMeaning {
  import opened OptionDecode

  lemma NameThenValue(name: string, value: string)
    requires '=' !in name
    ensures NameEnd(name + "=" + value) == |name| && (name + "=" + value)[..|name|] == name
    ensures (name + "=" + value)[|name| + 1..] == value
    ensures NameEnd(name) == |name| && name[..|name|] == name
  {
    var text := name + "=" + value;
    assert text[|name|] == '=' && text[..|name|] == name;
    NameEndIs(text, |name|);
    NameEndIs(name, |name|);
  }

  lemma {:induction false} NameEndIs(s: string, n: nat)
    requires n <= |s| && '=' !in s[..n] && (n < |s| ==> s[n] == '=')
    ensures NameEnd(s) == n
    decreases n
  {
    if n > 0 {
      assert s[0] in s[..n];
      assert s[..n][1..] == s[1..][..n - 1];
      NameEndIs(s[1..], n - 1);
    }
  }

  /** --name=value. */
  lemma LongWithValue(cfg: Config, opts: string, tail: seq<string>, name: string, value: string, i: nat)
    requires tail != [] && '=' !in name && Demands(cfg, opts) && AsLong(cfg, opts, tail[0])
    requires cfg.longopts.Some? && i < |cfg.longopts.value| && Matches(cfg.longopts.value, name, Found(i))
    ensures var p, st := cfg.longopts.value[i], Decode(cfg, opts, tail, name + "=" + value);
            && (p.hasArg != 0 ==> st == Step(if p.flag then 0 else p.val, 1, "", Some(value), None, Some(i)))
            && (p.hasArg == 0 && cfg.opterr ==> st == Step('?' as int, 1, "", None, Some(p.val), None))
            && (p.hasArg == 0 && !cfg.opterr ==> st == Step(if p.flag then 0 else p.val, 1, "", None, None, Some(i)))
  {
    hide Matches, Demands, AsLong, NameEnd;
    NameThenValue(name, value);
    MatchIsUnique(cfg.longopts.value, name, Found(i), LongMatch(cfg.longopts.value, name));
  }

  /** --name, with the next element as its argument when it requires one. */
  lemma LongAlone(cfg: Config, opts: string, tail: seq<string>, name: string, i: nat)
    requires tail != [] && name != "" && '=' !in name && Demands(cfg, opts) && AsLong(cfg, opts, tail[0])
    requires cfg.longopts.Some? && i < |cfg.longopts.value| && Matches(cfg.longopts.value, name, Found(i))
    ensures var p, st := cfg.longopts.value[i], Decode(cfg, opts, tail, name);
            && (p.hasArg != 1 ==> st == Step(if p.flag then 0 else p.val, 1, "", None, None, Some(i)))
            && (p.hasArg == 1 && |tail| > 1 ==> st == Step(if p.flag then 0 else p.val, 2, "", Some(tail[1]), None, Some(i)))
            && (p.hasArg == 1 && |tail| == 1 ==>
                  st == Step(if opts != "" && opts[0] == ':' then ':' as int else '?' as int, 1, "", None, Some(p.val), None))
  {
    hide Matches, Demands, AsLong, NameEnd;
    NameThenValue(name, "");
    MatchIsUnique(cfg.longopts.value, name, Found(i), LongMatch(cfg.longopts.value, name));
  }

  /** A name that is no option's, or that of several. */
  lemma LongUnknown(cfg: Config, opts: string, tail: seq<string>, next: string, name: string)
    requires tail != [] && next != "" && Demands(cfg, opts) && AsLong(cfg, opts, tail[0])
    requires cfg.longopts.Some? && '=' !in name && (next == name || exists value :: next == name + "=" + value)
    requires Matches(cfg.longopts.value, name, Ambiguous)
             || (Matches(cfg.longopts.value, name, NoMatch) && (!cfg.longOnly || At(tail[0], 1) == '-'))
    ensures Decode(cfg, opts, tail, next) == Step('?' as int, 1, "", None, Some(0), None)
  {
    hide Matches, Demands, AsLong, NameEnd, LongFound;
    if value :| next == name + "=" + value {
      NameThenValue(name, value);
    } else {
      NameThenValue(name, "");
    }
    var m := LongMatch(cfg.longopts.value, name);
    if Matches(cfg.longopts.value, name, Ambiguous) {
      MatchIsUnique(cfg.longopts.value, name, Ambiguous, m);
    } else {
      MatchIsUnique(cfg.longopts.value, name, NoMatch, m);
    }
  }

  // ----- option characters -----

  lemma {:induction false} IndexSpelled(pre: string, c: char, post: string)
    requires c !in pre
    ensures MyIndex(pre + [c] + post, c) == Some([c] + post)
    decreases |pre|
  {
    var s := pre + [c] + post;
    if pre == "" {
      assert s == [c] + post;
    } else {
      assert s[1..] == pre[1..] + [c] + post && s[0] == pre[0];
      IndexSpelled(pre[1..], c, post);
    }
  }

  lemma {:induction false} IndexMissing(s: string, c: char)
    ensures MyIndex(s, c) == None <==> c !in s
  {
    if s != "" {
      IndexMissing(s[1..], c);
      assert c in s <==> c == s[0] || c in s[1..] by { assert s == [s[0]] + s[1..]; }
    }
  }

  /** How the option string declares a character: what stands behind its first occurrence. */
  lemma KindSpelled(pre: string, c: char, post: string)
    requires c !in pre && c != ':'
    ensures KindOf(pre + [c] + post, c) ==
            if c == 'W' && ";" <= post then Named
            else if "::" <= post then Optional
            else if ":" <= post then Required
            else Plain
  {
    IndexSpelled(pre, c, post);
    var t := [c] + post;
    assert |post| > 0 ==> t[1] == post[0];
    assert |post| > 1 ==> t[2] == post[1];
  }

  lemma KindUnknown(opts: string, c: char)
    ensures KindOf(opts, c) == Unknown <==> c !in opts || c == ':'
  {
    IndexMissing(opts, c);
  }

  /** A character without argument, whether known or not: the element goes on behind it. */
  lemma CharAlone(cfg: Config, opts: string, tail: seq<string>, c: char, rest: string)
    requires tail != [] && Demands(cfg, opts) && !AsLong(cfg, opts, tail[0]) && KindOf(opts, c) in {Plain, Unknown}
    ensures Decode(cfg, opts, tail, [c] + rest) ==
            Step(if KindOf(opts, c) == Plain then c as int else '?' as int, if rest == "" then 1 else 0, rest,
                 None, if KindOf(opts, c) == Plain then None else Some(c as int), None)
  {
    hide AsLong, MyIndex;
    assert ([c] + rest)[1..] == rest;
  }

  /** A character with an argument: the rest of its element, or the next element if it must have one. */
  lemma CharWithArgument(cfg: Config, opts: string, tail: seq<string>, c: char, rest: string)
    requires tail != [] && Demands(cfg, opts) && !AsLong(cfg, opts, tail[0]) && KindOf(opts, c) in {Required, Optional}
    ensures var st := Decode(cfg, opts, tail, [c] + rest);
            && (rest != "" ==> st == Step(c as int, 1, "", Some(rest), None, None))
            && (rest == "" && KindOf(opts, c) == Optional ==> st == Step(c as int, 1, "", None, None, None))
            && (rest == "" && KindOf(opts, c) == Required && |tail| > 1 ==> st == Step(c as int, 2, "", Some(tail[1]), None, None))
            && (rest == "" && KindOf(opts, c) == Required && |tail| == 1 ==>
                  st == Step(if opts != "" && opts[0] == ':' then ':' as int else '?' as int, 1, "", None, Some(c as int), None))
  {
    hide AsLong, MyIndex;
    assert ([c] + rest)[1..] == rest;
  }

  // ----- -W -----

  /** Where -W finds its text: in its element or in the next. */
  lemma TextOfW(cfg: Config, opts: string, tail: seq<string>, rest: string)
    requires tail != [] && Demands(cfg, opts) && !AsLong(cfg, opts, tail[0]) && KindOf(opts, 'W') == Named
    ensures cfg.longopts.Some?
    ensures var st := Decode(cfg, opts, tail, "W" + rest);
            && (rest != "" ==> st == DecodeW(cfg, opts, rest, 1, tail[1..]))
            && (rest == "" && |tail| > 1 ==> st == DecodeW(cfg, opts, tail[1], 2, tail[2..]))
            && (rest == "" && |tail| == 1 ==>
                  st == Step(if opts != "" && opts[0] == ':' then ':' as int else '?' as int, 1, "", None, Some('W' as int), None))
  {
    hide AsLong, MyIndex, DecodeW;
    assert ("W" + rest)[1..] == rest;
  }

  /** -W name=value: a needless value is refused whatever opterr says. */
  lemma NamedWithValue(cfg: Config, opts: string, name: string, value: string, used: nat, more: seq<string>, i: nat)
    requires '=' !in name && cfg.longopts.Some? && i < |cfg.longopts.value| && Matches(cfg.longopts.value, name, Found(i))
    ensures var p, text := cfg.longopts.value[i], name + "=" + value;
            DecodeW(cfg, opts, text, used, more) ==
            if p.hasArg != 0 then Step(if p.flag then 0 else p.val, used, "", Some(value), None, Some(i))
            else Step('?' as int, used, "", Some(text), None, None)
  {
    hide Matches, NameEnd;
    NameThenValue(name, value);
    MatchIsUnique(cfg.longopts.value, name, Found(i), LongMatch(cfg.longopts.value, name));
  }

  /** -W name: without an argument of its own, optarg is left at the name. */
  lemma NamedAlone(cfg: Config, opts: string, name: string, used: nat, more: seq<string>, i: nat)
    requires '=' !in name && cfg.longopts.Some? && i < |cfg.longopts.value| && Matches(cfg.longopts.value, name, Found(i))
    ensures var p := cfg.longopts.value[i];
            DecodeW(cfg, opts, name, used, more) ==
            if p.hasArg != 1 then Step(if p.flag then 0 else p.val, used, "", Some(name), None, Some(i))
            else if more != [] then Step(if p.flag then 0 else p.val, used + 1, "", Some(more[0]), None, Some(i))
            else Step(if opts != "" && opts[0] == ':' then ':' as int else '?' as int, used, "", Some(name), None, None)
  {
    hide Matches, NameEnd;
    NameThenValue(name, "");
    MatchIsUnique(cfg.longopts.value, name, Found(i), LongMatch(cfg.longopts.value, name));
  }

  /** -W with a name that no long option has: left to the application. */
  lemma NamedUnknown(cfg: Config, opts: string, name: string, value: string, used: nat, more: seq<string>)
    requires '=' !in name && cfg.longopts.Some? && Matches(cfg.longopts.value, name, NoMatch)
    ensures DecodeW(cfg, opts, name, used, more) == Step('W' as int, used, "", Some(name), None, None)
    ensures DecodeW(cfg, opts, name + "=" + value, used, more) == Step('W' as int, used, "", Some(name + "=" + value), None, None)
  {
    hide Matches, NameEnd;
    NameThenValue(name, value);
    MatchIsUnique(cfg.longopts.value, name, NoMatch, LongMatch(cfg.longopts.value, name));
  }
}
