/** What runs of getopt_long report, word by word: the rules for long options, `-W`, short options
    with and without arguments, clusters and unknown letters, and what a vector made of such
    words yields as a whole. */
module GetoptReports {
  import opened Wrappers
  import opened Sequences
  import opened Getopt

  /** The words `taken`, standing before `more`, are taken as options and report `got`. */
  ghost predicate Reads(cfg: Config, taken: seq<string>, got: seq<Reported>, more: seq<string>)
    requires Permuting(cfg)
  {
    Scan(cfg, "", false, taken + more) == Join(got, taken, [], Scan(cfg, "", false, more))
  }

  /** The code for a missing or unwanted argument: a colon if the option string starts with one. */
  function BadArgument(options: string): (code: int)
  {
    if options != "" && options[0] == ':' then ':' as int else '?' as int
  }

  const UNKNOWN := '?' as int

  // ---------- long options ----------

  ghost predicate Alike(a: LongOption, b: LongOption)
  {
    a.hasArg == b.hasArg && a.flag == b.flag && a.val == b.val
  }

  /** A name selects the first entry with that name, or else the first entry it abbreviates,
      provided all entries it abbreviates mean the same. */
  ghost predicate Selects(longs: seq<LongOption>, name: string, i: nat)
  {
    i < |longs| &&
    if exists j :: 0 <= j < |longs| && longs[j].name == name then
      longs[i].name == name && forall j :: 0 <= j < i ==> longs[j].name != name
    else
      && name <= longs[i].name && (forall j :: 0 <= j < i ==> !(name <= longs[j].name))
      && forall j :: 0 <= j < |longs| && name <= longs[j].name ==> Alike(longs[j], longs[i])
  }

  lemma {:induction false} SelectsMatch(longs: seq<LongOption>, name: string, i: nat)
    ensures Selects(longs, name, i) <==> LongMatch(longs, name) == Found(i)
  {
    hide First;
    var e, f := First(longs, name, true), First(longs, name, false);
    FirstIs(longs, name, true);
    FirstIs(longs, name, false);
    if e < |longs| {
      assert longs[e].name == name;
    } else if f < |longs| {
      assert Identical(longs[f], longs[f]);
    }
  }

  lemma {:induction false} FirstIs(longs: seq<LongOption>, name: string, exact: bool)
    ensures var f := First(longs, name, exact);
            && f <= |longs| && (f < |longs| ==> Hit(longs[f], name, exact))
            && forall j :: 0 <= j < f ==> !Hit(longs[j], name, exact)
  {
  }

  /** What a long option reports: 0 if it sets a flag, its value otherwise. */
  function CodeOf(o: LongOption): (code: int)
  {
    if o.flag.Some? then 0 else o.val
  }

  /** `-W` stands for long options: the first W of the option string is followed by a semicolon. */
  ghost predicate TakesW(cfg: Config)
  {
    exists k :: 0 <= k < |cfg.options| - 1 && cfg.options[k] == 'W' && 'W' !in cfg.options[..k]
                && cfg.options[k + 1] == ';'
  }

  /** The words that give a long option by the text `t`. */
  ghost predicate Gives(cfg: Config, lead: seq<string>, t: string)
  {
    || (lead == ["--" + t] && t != "")
    || (TakesW(cfg) && ((lead == ["-W" + t] && t != "") || lead == ["-W", t]))
  }

  lemma {:induction false} FindAt(s: string, c: char, k: nat)
    requires k < |s| && s[k] == c && c !in s[..k]
    ensures Find(s, c) == k
  {
  }

  lemma {:induction false} StepReads(cfg: Config, place: string, bare: bool, words: seq<string>)
    requires Permuting(cfg) && place != "" && words != []
    requires OptionStep(cfg, place, bare, words[1..]).code != END && OptionStep(cfg, place, bare, words[1..]).adv > 0
    ensures var s := OptionStep(cfg, place, bare, words[1..]);
            Scan(cfg, place, bare, words)
            == Join([Reported(s.code, s.optarg)], words[..s.adv], [], Scan(cfg, "", false, words[s.adv..]))
  {
    hide OptionStep, Lead;
    ScanStep(cfg, place, bare, words);
  }

  /** Entering an option word. */
  lemma {:induction false} Enters(cfg: Config, words: seq<string>)
    requires Permuting(cfg) && words != [] && |words[0]| >= 2 && words[0][0] == '-' && words[0] != "--"
    ensures Scan(cfg, "", false, words) == Scan(cfg, words[0][1..], false, words)
  {
    hide OptionStep;
  }

  /** The three ways to give a long option come to the same. */
  lemma {:induction false} GivenLong(cfg: Config, lead: seq<string>, t: string, more: seq<string>)
    requires Permuting(cfg) && cfg.longs.Some? && Gives(cfg, lead, t)
    ensures var s := LongStep(cfg, t, more);
            var words, n := lead + more, |lead| - 1 + s.adv;
            && n <= |words|
            && Scan(cfg, "", false, words)
               == Join([Reported(s.code, s.optarg)], words[..n], [], Scan(cfg, "", false, words[n..]))
  {
    hide LongStep, Scan, OptionStep, TakesW;
    var words, s := lead + more, LongStep(cfg, t, more);
    LongAdvances(cfg, t, more);
    if lead == ["--" + t] && t != "" {
      DashGives(cfg, t, more);
      assert "--" + t == "-" + ("-" + t) && |"-" + t| >= 2;
      WordReads(cfg, "-" + t, more, words);
    } else if lead == ["-W" + t] && t != "" {
      WGives(cfg, t, more);
      assert "-W" + t == "-" + ("W" + t) && |"W" + t| >= 2;
      WordReads(cfg, "W" + t, more, words);
    } else {
      WGives(cfg, t, more);
      assert "-W" == "-" + "W" && words == ["-W"] + ([t] + more);
      WordReads(cfg, "W", [t] + more, words);
    }
  }

  /** A word that is one option step. */
  lemma {:induction false} WordReads(cfg: Config, place: string, more: seq<string>, words: seq<string>)
    requires Permuting(cfg) && place != "" && place != "-" && words == ["-" + place] + more
    requires OptionStep(cfg, place, false, more).code != END && OptionStep(cfg, place, false, more).adv > 0
    ensures var s := OptionStep(cfg, place, false, more);
            && s.adv <= |words|
            && Scan(cfg, "", false, words)
               == Join([Reported(s.code, s.optarg)], words[..s.adv], [], Scan(cfg, "", false, words[s.adv..]))
  {
    hide Scan;
    assert words[0] == "-" + place && words[0][1] == place[0] && words[1..] == more;
    Enters(cfg, words);
    assert words[0][1..] == place;
    hide OptionStep;
    StepReads(cfg, place, false, words);
    StepAdvances(cfg, place, more);
  }

  lemma {:induction false} StepAdvances(cfg: Config, place: string, more: seq<string>)
    requires Permuting(cfg) && place != ""
    ensures OptionStep(cfg, place, false, more).adv <= 1 + |more|
  {
  }

  lemma {:induction false} DashGives(cfg: Config, t: string, more: seq<string>)
    requires Permuting(cfg) && cfg.longs.Some?
    ensures OptionStep(cfg, "-" + t, false, more) == LongStep(cfg, t, more)
  {
    hide LongStep;
    assert ("-" + t)[1..] == t;
  }

  lemma {:induction false} WGives(cfg: Config, t: string, more: seq<string>)
    requires Permuting(cfg) && cfg.longs.Some? && TakesW(cfg)
    ensures var s := LongStep(cfg, t, more);
            && (t != "" ==> OptionStep(cfg, "W" + t, false, more) == s)
            && OptionStep(cfg, "W", false, [t] + more) == s.(adv := 1 + s.adv)
  {
    hide LongStep;
    var k :| 0 <= k < |cfg.options| - 1 && cfg.options[k] == 'W' && 'W' !in cfg.options[..k]
             && cfg.options[k + 1] == ';';
    FindAt(cfg.options, 'W', k);
    assert ("W" + t)[1..] == t && "W"[1..] == "" && ([t] + more)[1..] == more;
  }

  lemma {:induction false} LongAdvances(cfg: Config, t: string, more: seq<string>)
    requires Permuting(cfg) && cfg.longs.Some?
    ensures var s := LongStep(cfg, t, more); s.place == "" && 1 <= s.adv <= 1 + |more| && s.code != END
  {
  }

  /** `--name=value`: the value is what follows the first equals sign, and an error if the option
      takes no argument. */
  lemma {:induction false} LongWithValue(cfg: Config, lead: seq<string>, name: string, value: string, i: nat,
                                         more: seq<string>)
    requires Permuting(cfg) && cfg.longs.Some? && Selects(cfg.longs.value, name, i)
    requires '=' !in name && Gives(cfg, lead, name + "=" + value)
    ensures var o := cfg.longs.value[i];
            Reads(cfg, lead, [if o.hasArg == NoArgument then Reported(BadArgument(cfg.options), None)
                              else Reported(CodeOf(o), Some(value))], more)
  {
    hide Scan, Selects, Gives, LongMatch;
    var t := name + "=" + value;
    SelectsMatch(cfg.longs.value, name, i);
    FindAt(t, '=', |name|);
    assert t[..|name|] == name && t[|name| + 1..] == value;
    GivenLong(cfg, lead, t, more);
    assert (lead + more)[..|lead|] == lead && (lead + more)[|lead|..] == more;
  }

  /** `--name` alone: no argument wanted, or an optional one left out. */
  lemma {:induction false} LongAlone(cfg: Config, lead: seq<string>, name: string, i: nat, more: seq<string>)
    requires Permuting(cfg) && cfg.longs.Some? && Selects(cfg.longs.value, name, i)
    requires '=' !in name && Gives(cfg, lead, name) && cfg.longs.value[i].hasArg != RequiredArgument
    ensures Reads(cfg, lead, [Reported(CodeOf(cfg.longs.value[i]), None)], more)
  {
    hide Scan, Selects, Gives, LongMatch;
    SelectsMatch(cfg.longs.value, name, i);
    assert Find(name, '=') == |name| && name[..|name|] == name;
    GivenLong(cfg, lead, name, more);
    assert (lead + more)[..|lead|] == lead && (lead + more)[|lead|..] == more;
  }

  /** `--name value`: a required argument is the next word, whatever it is. */
  lemma {:induction false} LongNext(cfg: Config, lead: seq<string>, name: string, i: nat, value: string,
                                    more: seq<string>)
    requires Permuting(cfg) && cfg.longs.Some? && Selects(cfg.longs.value, name, i)
    requires '=' !in name && Gives(cfg, lead, name) && cfg.longs.value[i].hasArg == RequiredArgument
    ensures Reads(cfg, lead + [value], [Reported(CodeOf(cfg.longs.value[i]), Some(value))], more)
  {
    hide Scan, Selects, Gives, LongMatch;
    SelectsMatch(cfg.longs.value, name, i);
    assert Find(name, '=') == |name| && name[..|name|] == name;
    GivenLong(cfg, lead, name, [value] + more);
    var words := lead + [value] + more;
    assert lead + ([value] + more) == words;
    assert words[..|lead| + 1] == lead + [value] && words[|lead| + 1..] == more;
  }

  /** `--name` at the end, with a required argument missing. */
  lemma {:induction false} LongMissing(cfg: Config, lead: seq<string>, name: string, i: nat)
    requires Permuting(cfg) && cfg.longs.Some? && Selects(cfg.longs.value, name, i)
    requires '=' !in name && Gives(cfg, lead, name) && cfg.longs.value[i].hasArg == RequiredArgument
    ensures Reads(cfg, lead, [Reported(BadArgument(cfg.options), None)], [])
  {
    hide Scan, Selects, Gives, LongMatch;
    SelectsMatch(cfg.longs.value, name, i);
    assert Find(name, '=') == |name| && name[..|name|] == name;
    GivenLong(cfg, lead, name, []);
    assert (lead + [])[..|lead|] == lead && (lead + [])[|lead|..] == [];
  }

  /** A name that selects nothing, being unknown or ambiguous, with or without a value. */
  lemma {:induction false} LongUnknown(cfg: Config, lead: seq<string>, name: string, tail: string, more: seq<string>)
    requires Permuting(cfg) && cfg.longs.Some? && forall i: nat :: !Selects(cfg.longs.value, name, i)
    requires '=' !in name && (tail == "" || tail[0] == '=') && Gives(cfg, lead, name + tail)
    ensures Reads(cfg, lead, [Reported(UNKNOWN, None)], more)
  {
    hide Scan, Selects, Gives, LongMatch;
    var t := name + tail;
    var m := LongMatch(cfg.longs.value, name);
    if m.Found? {
      SelectsMatch(cfg.longs.value, name, m.index);
    }
    if tail != "" {
      FindAt(t, '=', |name|);
    }
    assert t[..|name|] == name && (tail == "" ==> t == name && Find(t, '=') == |name|);
    GivenLong(cfg, lead, t, more);
    assert (lead + more)[..|lead|] == lead && (lead + more)[|lead|..] == more;
  }

  /** `-W` at the end. */
  lemma {:induction false} WMissing(cfg: Config)
    requires Permuting(cfg) && cfg.longs.Some? && TakesW(cfg)
    ensures Reads(cfg, ["-W"], [Reported(BadArgument(cfg.options), None)], [])
  {
    hide Scan;
    var k :| 0 <= k < |cfg.options| - 1 && cfg.options[k] == 'W' && 'W' !in cfg.options[..k]
             && cfg.options[k + 1] == ';';
    FindAt(cfg.options, 'W', k);
    var words := ["-W"] + [];
    assert words == ["-W"] && words[1..] == [] && words[..1] == words;
    Enters(cfg, words);
    assert "-W"[1..] == "W" && "W"[1..] == "";
    StepReads(cfg, "W", false, words);
  }

  // ---------- short options ----------

  /** The first place of a letter in the option string. */
  ghost predicate Listed(cfg: Config, c: char, k: nat)
  {
    k < |cfg.options| && cfg.options[k] == c && c !in cfg.options[..k] && c != ':' && c != '-'
  }

  ghost predicate Followed(cfg: Config, k: nat, c: char)
  {
    k < |cfg.options| && cfg.options[k] == c
  }

  /** An option letter without argument. */
  ghost predicate Plain(cfg: Config, c: char)
  {
    exists k: nat :: Listed(cfg, c, k) && !Followed(cfg, k + 1, ':')
                && !(c == 'W' && cfg.longs.Some? && Followed(cfg, k + 1, ';'))
  }

  /** A letter that is no option. */
  ghost predicate Stray(cfg: Config, c: char)
  {
    c != '-' && (c == ':' || c !in cfg.options)
  }

  ghost function LetterCode(cfg: Config, c: char): (code: int)
  {
    if Stray(cfg, c) then UNKNOWN else c as int
  }

  ghost predicate Simple(cfg: Config, cs: string)
  {
    forall i :: 0 <= i < |cs| ==> Plain(cfg, cs[i]) || Stray(cfg, cs[i])
  }

  /** One report for each letter, in their order. */
  ghost function Letters(cfg: Config, cs: string): (r: seq<Reported>)
  {
    if cs == "" then [] else [Reported(LetterCode(cfg, cs[0]), None)] + Letters(cfg, cs[1..])
  }

  lemma {:induction false} SimpleStep(cfg: Config, c: char, rest: string, more: seq<string>)
    requires Permuting(cfg) && (Plain(cfg, c) || Stray(cfg, c))
    ensures OptionStep(cfg, [c] + rest, false, more)
         == Step(LetterCode(cfg, c), None, rest, if rest == "" then 1 else 0)
  {
    var place := [c] + rest;
    assert place[0] == c && place[1..] == rest;
    if Plain(cfg, c) {
      var k: nat :| Listed(cfg, c, k) && !Followed(cfg, k + 1, ':')
               && !(c == 'W' && cfg.longs.Some? && Followed(cfg, k + 1, ';'));
      FindAt(cfg.options, c, k);
    }
  }

  lemma {:induction false} SimpleReads(cfg: Config, cs: string, words: seq<string>)
    requires Permuting(cfg) && cs != "" && Simple(cfg, cs) && words != []
    ensures Scan(cfg, cs, false, words)
         == Join(Letters(cfg, cs), words[..1], [], Scan(cfg, "", false, words[1..]))
    decreases |cs|
  {
    hide OptionStep, Lead, Plain, Stray;
    var c, rest := cs[0], cs[1..];
    assert cs == [c] + rest;
    SimpleStep(cfg, c, rest, words[1..]);
    ScanStep(cfg, cs, false, words);
    if rest == "" {
      assert Letters(cfg, rest) == [];
    } else {
      assert words[..0] == [] && words[0..] == words;
      hide Scan;
      SimpleReads(cfg, rest, words);
      JoinJoin([Reported(LetterCode(cfg, c), None)], [], [], Letters(cfg, rest), words[..1], [],
               Scan(cfg, "", false, words[1..]));
    }
  }

  /** A cluster of letters reports each of them. */
  lemma {:induction false} Cluster(cfg: Config, cs: string, more: seq<string>)
    requires Permuting(cfg) && cs != "" && Simple(cfg, cs)
    ensures Reads(cfg, ["-" + cs], Letters(cfg, cs), more)
  {
    hide Scan, Letters;
    var words := ["-" + cs] + more;
    assert words[0] == "-" + cs && words[1..] == more && words[..1] == ["-" + cs];
    assert cs[0] != '-' && words[0][1] == cs[0];
    Enters(cfg, words);
    assert words[0][1..] == cs;
    SimpleReads(cfg, cs, words);
  }

  /** Letters before the end of a word leave the end what it would be by itself. */
  lemma {:induction false} SimpleThen(cfg: Config, cs: string, t: string, words: seq<string>)
    requires Permuting(cfg) && Simple(cfg, cs) && t != "" && words != []
    ensures Scan(cfg, cs + t, false, words) == Join(Letters(cfg, cs), [], [], Scan(cfg, t, false, words))
    decreases |cs|
  {
    hide OptionStep, Lead, Plain, Stray;
    if cs == "" {
      assert cs + t == t;
      JoinNothing(Scan(cfg, t, false, words));
    } else {
      var c, rest := cs[0], cs[1..];
      assert cs + t == [c] + (rest + t);
      SimpleStep(cfg, c, rest + t, words[1..]);
      ScanStep(cfg, cs + t, false, words);
      assert words[..0] == [] && words[0..] == words;
      hide Scan;
      SimpleThen(cfg, rest, t, words);
      JoinJoin([Reported(LetterCode(cfg, c), None)], [], [], Letters(cfg, rest), [], [], Scan(cfg, t, false, words));
    }
  }

  lemma {:induction false} JoinNothing(s: Split)
    ensures Join([], [], [], s) == s
  {
  }

  ghost predicate WithArgument(cfg: Config, c: char, k: nat)
  {
    Listed(cfg, c, k) && Followed(cfg, k + 1, ':')
  }

  lemma {:induction false} ArgumentStep(cfg: Config, c: char, k: nat, rest: string, more: seq<string>)
    requires Permuting(cfg) && WithArgument(cfg, c, k)
    ensures OptionStep(cfg, [c] + rest, false, more) == ArgStep(cfg, c, Followed(cfg, k + 2, ':'), rest, more)
  {
    var place := [c] + rest;
    assert place[0] == c && place[1..] == rest;
    FindAt(cfg.options, c, k);
  }

  /** Letters, then an option whose argument is the rest of the word. */
  lemma {:induction false} Attached(cfg: Config, cs: string, c: char, k: nat, value: string, more: seq<string>)
    requires Permuting(cfg) && Simple(cfg, cs) && WithArgument(cfg, c, k) && value != ""
    ensures Reads(cfg, ["-" + cs + [c] + value], Letters(cfg, cs) + [Reported(c as int, Some(value))], more)
  {
    hide Scan, Letters, OptionStep;
    var w, t := "-" + cs + [c] + value, [c] + value;
    var words := [w] + more;
    ClusterEnters(cfg, cs, t, words);
    ArgumentStep(cfg, c, k, value, more);
    assert words[1..] == more && words[..1] == [w];
    StepReads(cfg, t, false, words);
    JoinJoin(Letters(cfg, cs), [], [], [Reported(c as int, Some(value))], [w], [], Scan(cfg, "", false, more));
  }

  lemma {:induction false} ClusterEnters(cfg: Config, cs: string, t: string, words: seq<string>)
    requires Permuting(cfg) && Simple(cfg, cs) && t != "" && t[0] != '-' && words != [] && words[0] == "-" + cs + t
    ensures Scan(cfg, "", false, words) == Join(Letters(cfg, cs), [], [], Scan(cfg, t, false, words))
  {
    hide Scan, Letters;
    assert words[0][1..] == cs + t && words[0][1] == (cs + t)[0];
    assert cs != "" ==> cs[0] != '-';
    Enters(cfg, words);
    SimpleThen(cfg, cs, t, words);
  }

  /** Letters, then an option whose required argument is the next word, whatever it is. */
  lemma {:induction false} Separate(cfg: Config, cs: string, c: char, k: nat, value: string, more: seq<string>)
    requires Permuting(cfg) && Simple(cfg, cs) && WithArgument(cfg, c, k) && !Followed(cfg, k + 2, ':')
    ensures Reads(cfg, ["-" + cs + [c], value], Letters(cfg, cs) + [Reported(c as int, Some(value))], more)
  {
    hide Scan, Letters, OptionStep;
    var w := "-" + cs + [c];
    var words := [w, value] + more;
    ClusterEnters(cfg, cs, [c], words);
    assert [c] + "" == [c];
    ArgumentStep(cfg, c, k, "", [value] + more);
    assert words[1..] == [value] + more && words[..2] == [w, value] && words[2..] == more;
    StepReads(cfg, [c], false, words);
    JoinJoin(Letters(cfg, cs), [], [], [Reported(c as int, Some(value))], [w, value], [], Scan(cfg, "", false, more));
  }

  /** Letters, then an option whose required argument is missing at the end. */
  lemma {:induction false} Missing(cfg: Config, cs: string, c: char, k: nat)
    requires Permuting(cfg) && Simple(cfg, cs) && WithArgument(cfg, c, k) && !Followed(cfg, k + 2, ':')
    ensures Reads(cfg, ["-" + cs + [c]], Letters(cfg, cs) + [Reported(BadArgument(cfg.options), None)], [])
  {
    hide Scan, Letters, OptionStep;
    var w := "-" + cs + [c];
    var words := [w] + [];
    ClusterEnters(cfg, cs, [c], words);
    assert [c] + "" == [c];
    ArgumentStep(cfg, c, k, "", []);
    assert words[1..] == [] && words[..1] == [w];
    StepReads(cfg, [c], false, words);
    JoinJoin(Letters(cfg, cs), [], [], [Reported(BadArgument(cfg.options), None)], [w], [], Scan(cfg, "", false, []));
  }

  /** Letters, then an option whose optional argument is left out: the next word is not taken. */
  lemma {:induction false} LeftOut(cfg: Config, cs: string, c: char, k: nat, more: seq<string>)
    requires Permuting(cfg) && Simple(cfg, cs) && WithArgument(cfg, c, k) && Followed(cfg, k + 2, ':')
    ensures Reads(cfg, ["-" + cs + [c]], Letters(cfg, cs) + [Reported(c as int, None)], more)
  {
    hide Scan, Letters, OptionStep;
    var w := "-" + cs + [c];
    var words := [w] + more;
    ClusterEnters(cfg, cs, [c], words);
    assert [c] + "" == [c];
    ArgumentStep(cfg, c, k, "", more);
    assert words[1..] == more && words[..1] == [w];
    StepReads(cfg, [c], false, words);
    JoinJoin(Letters(cfg, cs), [], [], [Reported(c as int, None)], [w], [], Scan(cfg, "", false, more));
  }

  // ---------- dashes inside words ----------

  /** A dash after letters, when there are long options: the rest of the word gives one. */
  lemma {:induction false} LongInside(cfg: Config, cs: string, t: string, more: seq<string>)
    requires Permuting(cfg) && cfg.longs.Some? && Simple(cfg, cs) && cs != "" && t != ""
    ensures Scan(cfg, "", false, ["-" + cs + "-" + t] + more).reports
         == Letters(cfg, cs) + Scan(cfg, "", false, ["--" + t] + more).reports
  {
    hide Scan, Letters, LongStep;
    var words := ["-" + cs + "-" + t] + more;
    assert words[0][1..] == cs + ("-" + t) && words[0][1] == cs[0] && cs[0] != '-';
    Enters(cfg, words);
    SimpleThen(cfg, cs, "-" + t, words);
    LongAdvances(cfg, t, more);
    assert words[1..] == more && ("-" + t)[1..] == t;
    StepReads(cfg, "-" + t, false, words);
    GivenLong(cfg, ["--" + t], t, more);
    var s := LongStep(cfg, t, more);
    assert words[s.adv..] == (["--" + t] + more)[s.adv..];
  }

  /** A dash inside a word, when there are none, is an unknown letter. */
  lemma {:induction false} DashInside(cfg: Config, cs: string, t: string, more: seq<string>)
    requires Permuting(cfg) && cfg.longs.None? && Simple(cfg, cs) && t != ""
    ensures var words := ["-" + cs + "-" + t] + more;
            Scan(cfg, "", false, words)
            == Join(Letters(cfg, cs) + [Reported(UNKNOWN, None)], [], [], Scan(cfg, t, false, words))
  {
    hide Letters, Lead;
    var words := ["-" + cs + "-" + t] + more;
    assert words[0][1..] == cs + ("-" + t) && words[0] != "--";
    Enters(cfg, words);
    SimpleThen(cfg, cs, "-" + t, words);
    assert ("-" + t)[1..] == t;
    assert OptionStep(cfg, "-" + t, false, words[1..]) == Step(UNKNOWN, None, t, 0);
    ScanStep(cfg, "-" + t, false, words);
    assert words[..0] == [] && words[0..] == words;
    hide Scan;
    JoinJoin(Letters(cfg, cs), [], [], [Reported(UNKNOWN, None)], [], [], Scan(cfg, t, false, words));
  }

  /** A single dash, when the dash is an option letter. */
  lemma {:induction false} DashWord(cfg: Config, k: nat, value: string, more: seq<string>)
    requires Permuting(cfg) && k < |cfg.options| && cfg.options[k] == '-' && '-' !in cfg.options[..k]
    ensures !Followed(cfg, k + 1, ':') ==> Reads(cfg, ["-"], [Reported('-' as int, None)], more)
    ensures Followed(cfg, k + 1, ':') && !Followed(cfg, k + 2, ':') ==>
              Reads(cfg, ["-", value], [Reported('-' as int, Some(value))], more)
  {
    FindAt(cfg.options, '-', k);
    var alone, with := ["-"] + more, ["-", value] + more;
    assert alone[1..] == more && with[1..] == [value] + more && with[2..] == more;
    assert alone[..1] == ["-"] && with[..2] == ["-", value] && "-"[1..] == "";
    var s, s' := OptionStep(cfg, "-", true, more), OptionStep(cfg, "-", true, [value] + more);
    assert !Followed(cfg, k + 1, ':') ==> s == Step('-' as int, None, "", 1);
    assert Followed(cfg, k + 1, ':') && !Followed(cfg, k + 2, ':') ==> s' == Step('-' as int, Some(value), "", 2);
    assert Scan(cfg, "", false, alone) == Scan(cfg, "-", true, alone);
    assert Scan(cfg, "", false, with) == Scan(cfg, "-", true, with);
    hide Scan, OptionStep;
    if !Followed(cfg, k + 1, ':') {
      StepReads(cfg, "-", true, alone);
    } else if !Followed(cfg, k + 2, ':') {
      StepReads(cfg, "-", true, with);
    }
  }

  // ---------- whole runs ----------

  /** Some words of a vector, with what they report; a skipped word reports nothing. */
  datatype Item = Taken(words: seq<string>, got: seq<Reported>) | Skipped(word: string)

  function WordsOf(items: seq<Item>): (r: seq<string>)
  {
    if items == [] then []
    else (match items[0] case Taken(w, _) => w case Skipped(w) => [w]) + WordsOf(items[1..])
  }

  function TakenOf(items: seq<Item>): (r: seq<string>)
  {
    if items == [] then []
    else (match items[0] case Taken(w, _) => w case Skipped(_) => []) + TakenOf(items[1..])
  }

  function SkippedOf(items: seq<Item>): (r: seq<string>)
  {
    if items == [] then []
    else (match items[0] case Taken(_, _) => [] case Skipped(w) => [w]) + SkippedOf(items[1..])
  }

  function GotOf(items: seq<Item>): (r: seq<Reported>)
  {
    if items == [] then []
    else (match items[0] case Taken(_, g) => g case Skipped(_) => []) + GotOf(items[1..])
  }

  /** Every item is read before the words that follow; a word is skipped if it does not begin with a
      dash, or is a dash that is no option letter. */
  ghost predicate Readable(cfg: Config, items: seq<Item>, after: seq<string>)
    requires Permuting(cfg)
  {
    items != [] ==>
      && Readable(cfg, items[1..], after)
      && match items[0]
         case Taken(w, g) => Reads(cfg, w, g, WordsOf(items[1..]) + after)
         case Skipped(w) => w == "" || w[0] != '-' || (w == "-" && '-' !in cfg.options)
  }

  lemma {:induction false} ScanItems(cfg: Config, items: seq<Item>, after: seq<string>)
    requires Permuting(cfg) && Readable(cfg, items, after)
    ensures Scan(cfg, "", false, WordsOf(items) + after)
         == Join(GotOf(items), TakenOf(items), SkippedOf(items), Scan(cfg, "", false, after))
  {
    hide Scan;
    var end := Scan(cfg, "", false, after);
    if items == [] {
      assert [] + after == after;
      JoinNothing(end);
    } else {
      ScanItems(cfg, items[1..], after);
      var rest, more := items[1..], WordsOf(items[1..]) + after;
      FirstItem(items);
      hide WordsOf, GotOf, TakenOf, SkippedOf, Join;
      match items[0] {
        case Taken(w, g) =>
          Associative(w, WordsOf(rest), after);
          JoinJoin(g, w, [], GotOf(rest), TakenOf(rest), SkippedOf(rest), end);
          assert [] + SkippedOf(rest) == SkippedOf(rest);
        case Skipped(w) =>
          Associative([w], WordsOf(rest), after);
          SkipsWord(cfg, w, more);
          JoinJoin([], [], [w], GotOf(rest), TakenOf(rest), SkippedOf(rest), end);
          assert [] + GotOf(rest) == GotOf(rest) && [] + TakenOf(rest) == TakenOf(rest);
      }
    }
  }

  lemma {:induction false} FirstItem(items: seq<Item>)
    requires items != []
    ensures var rest := items[1..];
            match items[0]
            case Taken(w, g) =>
              && WordsOf(items) == w + WordsOf(rest) && GotOf(items) == g + GotOf(rest)
              && TakenOf(items) == w + TakenOf(rest) && SkippedOf(items) == [] + SkippedOf(rest)
            case Skipped(w) =>
              && WordsOf(items) == [w] + WordsOf(rest) && GotOf(items) == [] + GotOf(rest)
              && TakenOf(items) == [] + TakenOf(rest) && SkippedOf(items) == [w] + SkippedOf(rest)
  {
  }

  lemma {:induction false} SkipsWord(cfg: Config, w: string, more: seq<string>)
    requires Permuting(cfg) && (w == "" || w[0] != '-' || (w == "-" && '-' !in cfg.options))
    ensures Scan(cfg, "", false, [w] + more) == Join([], [], [w], Scan(cfg, "", false, more))
  {
    hide Scan, Lead;
    assert ([w] + more)[1..] == more;
    ScanSkip(cfg, false, [w] + more);
  }

  /** After `--` nothing is looked at. */
  lemma {:induction false} Terminated(cfg: Config, rest: seq<string>)
    requires Permuting(cfg)
    ensures Scan(cfg, "", false, ["--"] + rest) == Split([], ["--"], [], rest, false)
    ensures Scan(cfg, "", false, []) == Split([], [], [], [], false)
  {
    assert (["--"] + rest)[1..] == rest;
  }

  /** A run over such words, after the program name and up to the end or to `--`: it reports what the
      items report, in their order, and leaves the words of all options before the skipped ones. */
  method RunItems(cfg: Config, argv: array<string>, ghost items: seq<Item>, ghost rest: Option<seq<string>>)
    returns (got: seq<Reported>, optind: nat)
    requires Permuting(cfg) && 1 <= argv.Length
    requires var after := if rest == None then [] else ["--"] + rest.value;
             Readable(cfg, items, after) && argv[1..] == WordsOf(items) + after
    modifies argv
    ensures got == GotOf(items)
    ensures var taken := TakenOf(items) + if rest == None then [] else ["--"];
            && argv[..] == old(argv[..1]) + taken + SkippedOf(items) + (if rest == None then [] else rest.value)
            && optind == 1 + |taken|
  {
    hide Scan, Lead, WordsOf, GotOf, TakenOf, SkippedOf, Readable;
    ghost var after := if rest == None then [] else ["--"] + rest.value;
    ScanItems(cfg, items, after);
    Terminated(cfg, if rest == None then [] else rest.value);
    ghost var s := Scan(cfg, "", false, WordsOf(items) + after);
    got, optind := ParseAll(cfg, argv);
    assert old(argv[..])[1..] == old(argv[1..]);
    assert s.reports == GotOf(items) && s.nonopts == SkippedOf(items) && !s.dash;
    assert old(argv[..1]) + (s.opts + s.nonopts + s.rest) == old(argv[..1]) + s.opts + s.nonopts + s.rest;
  }
}
