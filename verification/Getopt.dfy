/** The argument scanner of `src/win/getopt.c` in permuting mode (`getopt_long` with an
    option string that starts with neither '+' nor '-'). A reference scan of the
    original words says which words are options, which are skipped and what each call
    returns; the in-place scanner is proved to realise exactly that scan. */
module Getopt {
  import opened Wrappers
  import opened Rotation

  datatype ArgKind = NoArgument | RequiredArgument | OptionalArgument

  /** `flag` stands for the address of the variable to set, if any. */
  datatype LongOption = LongOption(name: string, hasArg: ArgKind, flag: Option<nat>, val: int)

  datatype Config = Config(options: string, longs: Option<seq<LongOption>>)

  /** Permuting mode, and no long option reports the end-of-options code. */
  ghost predicate Permuting(cfg: Config)
  {
    && (cfg.options != "" ==> cfg.options[0] != '+' && cfg.options[0] != '-')
    && (cfg.longs.Some? ==>
          forall i :: 0 <= i < |cfg.longs.value| ==> cfg.longs.value[i].flag.None? ==> cfg.longs.value[i].val != -1)
  }

  const END := -1

  function CharAt(s: string, i: nat): char
  {
    if i < |s| then s[i] else '\0'
  }

  function BadArg(cfg: Config): (code: int)
  {
    if CharAt(cfg.options, 0) == ':' then ':' as int else '?' as int
  }

  function Find(s: string, c: char): (i: nat)
    ensures i <= |s| && c !in s[..i]
    ensures i < |s| ==> s[i] == c
    ensures i == |s| <==> c !in s
  {
    if s == "" then 0 else if s[0] == c then 0 else 1 + Find(s[1..], c)
  }

  // ---------- long options ----------

  datatype Match = Unknown | Ambiguous | Found(index: nat)

  predicate Identical(a: LongOption, b: LongOption)
  {
    a.hasArg == b.hasArg && a.flag == b.flag && a.val == b.val
  }

  predicate Hit(o: LongOption, name: string, exact: bool)
  {
    if exact then o.name == name else name <= o.name
  }

  /** Index of the first entry that matches, or the table length. */
  function First(longs: seq<LongOption>, name: string, exact: bool): (i: nat)
    ensures i <= |longs|
    ensures i < |longs| ==> Hit(longs[i], name, exact)
    ensures forall j :: 0 <= j < i ==> !Hit(longs[j], name, exact)
  {
    if longs == [] then 0 else if Hit(longs[0], name, exact) then 0 else 1 + First(longs[1..], name, exact)
  }

  /** What a name selects: the first exact match, else the first abbreviation unless
      some other abbreviation is interpreted differently. */
  ghost function LongMatch(longs: seq<LongOption>, name: string): (m: Match)
    ensures m.Found? ==> m.index < |longs|
  {
    var e, f := First(longs, name, true), First(longs, name, false);
    if e < |longs| then Found(e)
    else if f == |longs| then Unknown
    else if exists j :: 0 <= j < |longs| && Hit(longs[j], name, false) && !Identical(longs[j], longs[f]) then Ambiguous
    else Found(f)
  }

  /** The table search of parse_long_options, src/win/getopt.c:208-243 (short_too is 0
      for getopt_long). */
  method FindLong(longs: seq<LongOption>, name: string) returns (m: Match)
    ensures m == LongMatch(longs, name)
  {
    var match_, ambiguous := -1, false;
    var i := 0;
    while i < |longs|
      invariant 0 <= i <= |longs|
      invariant -1 <= match_ < i
      invariant forall j :: 0 <= j < i ==> !Hit(longs[j], name, true)
      invariant match_ == -1 ==> !ambiguous && forall j :: 0 <= j < i ==> !Hit(longs[j], name, false)
      invariant match_ != -1 ==>
                  Hit(longs[match_], name, false) && forall j :: 0 <= j < match_ ==> !Hit(longs[j], name, false)
      invariant match_ != -1 ==> (ambiguous <==>
                  exists j :: 0 <= j < i && Hit(longs[j], name, false) && !Identical(longs[j], longs[match_]))
    {
      if name <= longs[i].name {
        if |longs[i].name| == |name| {
          assert Hit(longs[i], name, true);
          return Found(i);
        }
        if match_ == -1 {
          match_ := i;
        } else if !Identical(longs[i], longs[match_]) {
          ambiguous := true;
        }
      }
      i := i + 1;
    }
    if ambiguous {
      return Ambiguous;
    }
    return if match_ == -1 then Unknown else Found(match_);
  }

  // ---------- one option ----------

  /** What one call reports for an option: the code, the argument, what is left of
      the word in progress and by how many words optind moves. */
  datatype Step = Step(code: int, optarg: Option<string>, place: string, adv: nat)

  /** parse_long_options on `--place`; `more` are the words after the current one. */
  ghost function LongStep(cfg: Config, place: string, more: seq<string>): (s: Step)
    requires Permuting(cfg) && cfg.longs.Some?
    ensures s.place == "" && 1 <= s.adv <= 1 + |more| && s.code != END
  {
    var longs := cfg.longs.value;
    var eq := Find(place, '=');
    match LongMatch(longs, place[..eq])
    case Ambiguous => Step('?' as int, None, "", 1)
    case Unknown => Step('?' as int, None, "", 1)
    case Found(i) =>
      var o := longs[i];
      var code := if o.flag.Some? then 0 else o.val;
      if eq < |place| then
        if o.hasArg.NoArgument? then Step(BadArg(cfg), None, "", 1)
        else Step(code, Some(place[eq + 1..]), "", 1)
      else if o.hasArg.RequiredArgument? then
        if more == [] then Step(BadArg(cfg), None, "", 1)
        else Step(code, Some(more[0]), "", 2)
      else Step(code, None, "", 1)
  }

  /** `-W name`: a long option given through a short one. */
  ghost function WStep(cfg: Config, rest: string, more: seq<string>): (s: Step)
    requires Permuting(cfg) && cfg.longs.Some?
    ensures s.place == "" && 1 <= s.adv <= 1 + |more| && s.code != END
  {
    if rest != "" then LongStep(cfg, rest, more)
    else if more == [] then Step(BadArg(cfg), None, "", 1)
    else var s := LongStep(cfg, more[0], more[1..]); s.(adv := 1 + s.adv)
  }

  /** A short option that takes an argument: the rest of the word or the next word. */
  ghost function ArgStep(cfg: Config, c: char, optional: bool, rest: string, more: seq<string>): (s: Step)
    ensures s.place == "" && 1 <= s.adv <= 1 + |more| && s.code != END
  {
    if rest != "" then Step(c as int, Some(rest), "", 1)
    else if optional then Step(c as int, None, "", 1)
    else if more == [] then Step(BadArg(cfg), None, "", 1)
    else Step(c as int, Some(more[0]), "", 2)
  }

  /** The short-option half of getopt_internal. */
  ghost function ShortStep(cfg: Config, place: string, more: seq<string>): (s: Step)
    requires Permuting(cfg) && place != ""
    ensures s.adv <= 1 + |more| && |s.place| < |place|
    ensures s.code == END <==> place == "-" && '-' !in cfg.options
    ensures s.adv == 0 <==> s.code == END || s.place != ""
  {
    var c, rest := place[0], place[1..];
    var spent := if rest == "" then 1 else 0;
    var i := Find(cfg.options, c);
    if c == ':' || (c == '-' && rest != "") || i == |cfg.options| then
      if c == '-' && rest == "" then Step(END, None, "", 0)
      else Step('?' as int, None, rest, spent)
    else if cfg.longs.Some? && c == 'W' && CharAt(cfg.options, i + 1) == ';' then
      WStep(cfg, rest, more)
    else if CharAt(cfg.options, i + 1) != ':' then Step(c as int, None, rest, spent)
    else ArgStep(cfg, c, CharAt(cfg.options, i + 2) == ':', rest, more)
  }

  /** One reported option. `bare` says that the place still is the start of the word. */
  ghost function OptionStep(cfg: Config, place: string, bare: bool, more: seq<string>): (s: Step)
    requires Permuting(cfg) && place != ""
    ensures s.adv <= 1 + |more| && |s.place| < |place|
    ensures s.adv == 0 <==> s.code == END || s.place != ""
    ensures s.code == END <==> place == "-" && '-' !in cfg.options && (bare || cfg.longs.None?)
  {
    if cfg.longs.Some? && !bare && place[0] == '-' then LongStep(cfg, place[1..], more)
    else ShortStep(cfg, place, more)
  }

  // ---------- the reference scan ----------

  predicate IsNonOption(cfg: Config, w: string)
  {
    CharAt(w, 0) != '-' || (w == "-" && '-' !in cfg.options)
  }

  /** Where scanning starts inside an option word. */
  function Enter(w: string): (place: string)
  {
    if w == "-" then w else if w == "" then w else w[1..]
  }

  datatype Reported = Reported(code: int, optarg: Option<string>)

  /** The outcome of a whole scan: what the calls report, the words taken as options (with
      their arguments), the skipped words, the words never looked at, and whether
      the scan ended at a dash that closes a cluster of short options. */
  datatype Split = Split(reports: seq<Reported>, opts: seq<string>, nonopts: seq<string>, rest: seq<string>, dash: bool)

  function Join(reports: seq<Reported>, opts: seq<string>, nonopts: seq<string>, s: Split): (r: Split)
  {
    Split(reports + s.reports, opts + s.opts, nonopts + s.nonopts, s.rest, s.dash)
  }

  /** Scans `words` from left to right without moving any of them. A non-empty
      `place` is the unread part of the first word. */
  ghost function Scan(cfg: Config, place: string, bare: bool, words: seq<string>): (s: Split)
    requires Permuting(cfg)
    requires place != "" ==> words != []
    decreases |words|, if place != "" then |place| else if words != [] then |words[0]| + 1 else 0
  {
    if place == "" then
      if words == [] then Split([], [], [], [], false)
      else
        var w := words[0];
        if IsNonOption(cfg, w) then Join([], [], [w], Scan(cfg, "", false, words[1..]))
        else if w == "--" then Split([], [w], [], words[1..], false)
        else Scan(cfg, Enter(w), w == "-", words)
    else
      var s := OptionStep(cfg, place, bare, words[1..]);
      if s.code == END then Split([], [], [], words, true)
      else if s.adv == 0 then Join([Reported(s.code, s.optarg)], [], [], Scan(cfg, s.place, false, words))
      else Join([Reported(s.code, s.optarg)], words[..s.adv], [], Scan(cfg, "", false, words[s.adv..]))
  }

  /** How many option words the scan takes before it skips a word for the last time; all of
      them if it skips none. */
  ghost function Lead(cfg: Config, place: string, bare: bool, words: seq<string>): (k: nat)
    requires Permuting(cfg)
    requires place != "" ==> words != []
    decreases |words|, if place != "" then |place| else if words != [] then |words[0]| + 1 else 0
  {
    if place == "" then
      if words == [] then 0
      else
        var w := words[0];
        if IsNonOption(cfg, w) then
          if Scan(cfg, "", false, words[1..]).nonopts == [] then 0 else Lead(cfg, "", false, words[1..])
        else if w == "--" then 1
        else Lead(cfg, Enter(w), w == "-", words)
    else
      var s := OptionStep(cfg, place, bare, words[1..]);
      if s.code == END then 0
      else if s.adv == 0 then Lead(cfg, s.place, false, words)
      else s.adv + Lead(cfg, "", false, words[s.adv..])
  }

  // ---------- the scanner ----------

  /** argv during a scan: the words before the scan, the options taken before the
      skipped block, the block, the options taken since, the unread words. */
  ghost function Arrange<T>(prefix: seq<T>, opts1: seq<T>, nonopts: seq<T>, opts2: seq<T>, rest: seq<T>): (argv: seq<T>)
    ensures |argv| == |prefix| + |opts1| + |nonopts| + |opts2| + |rest|
  {
    prefix + opts1 + nonopts + opts2 + rest
  }

  lemma {:induction false} ArrangeExchanged<T>(p: seq<T>, o1: seq<T>, n: seq<T>, o2: seq<T>, r: seq<T>)
    ensures var a := |p| + |o1|;
            Exchanged(Arrange(p, o1, n, o2, r), a, a + |n|, a + |n| + |o2|) == Arrange(p, o1 + o2, n, [], r)
  {
    var s, a := p + o1 + n + o2 + r, |p| + |o1|;
    assert s[..a] == p + o1;
    assert s[a..a + |n|] == n;
    assert s[a + |n|..a + |n| + |o2|] == o2;
    assert s[a + |n| + |o2|..] == r;
    assert p + o1 + o2 == p + (o1 + o2);
  }

  lemma {:induction false} ArrangeSkip<T>(p: seq<T>, o: seq<T>, n: seq<T>, r: seq<T>)
    requires r != []
    ensures Arrange(p, o, n, [], r) == Arrange(p, o, n + [r[0]], [], r[1..])
  {
    assert r == [r[0]] + r[1..];
  }

  lemma {:induction false} ArrangeTake<T>(p: seq<T>, o1: seq<T>, n: seq<T>, o2: seq<T>, r: seq<T>, k: nat)
    requires k <= |r|
    ensures Arrange(p, o1, n, o2, r) == Arrange(p, o1, n, o2 + r[..k], r[k..])
    ensures n == [] && o2 == [] ==> Arrange(p, o1, n, o2, r) == Arrange(p, o1 + r[..k], n, o2, r[k..])
  {
    assert r == r[..k] + r[k..];
  }

  lemma {:induction false} ArrangeRest<T>(p: seq<T>, o1: seq<T>, n: seq<T>, o2: seq<T>, r: seq<T>)
    ensures Arrange(p, o1, n, o2, r)[|p| + |o1| + |n| + |o2|..] == r
  {
  }

  lemma {:induction false} ArrangeEnd<T>(p: seq<T>, o: seq<T>, n: seq<T>, r: seq<T>)
    ensures Arrange(p, o, n, [], r) == p + o + n + r
  {
  }

  /** The scan of all words from `base` on. */
  ghost function Whole(cfg: Config, orig: seq<string>, base: nat): (s: Split)
    requires Permuting(cfg) && base <= |orig|
  {
    Scan(cfg, "", false, orig[base..])
  }

  /** The scanning variables of getopt.c, with what was taken so far: the options before
      and after the skipped block, the block, and what the calls reported. */
  datatype State = State(optind: nat, start: int, end: int, place: string, bare: bool,
                         opts1: seq<string>, nonopts: seq<string>, opts2: seq<string>, reports: seq<Reported>)

  /** The two marks delimit the skipped block; options were taken after it exactly
      when its end is marked, unless the first of them is still being read. */
  ghost predicate Marks(v: State, base: nat)
  {
    && v.optind == base + |v.opts1| + |v.nonopts| + |v.opts2|
    && (v.start == -1 ==> v.end == -1 && v.nonopts == [])
    && (v.start != -1 ==> v.nonopts != [] && v.start == base + |v.opts1|)
    && (v.end == -1 ==> v.opts2 == [])
    && (v.end != -1 ==> v.start != -1 && v.end == base + |v.opts1| + |v.nonopts|)
    && (v.end != -1 ==> v.opts2 != [] || v.place != "")
    && (v.place != "" && v.start != -1 ==> v.end != -1)
  }

  ghost predicate Placed(v: State, argv: seq<string>, orig: seq<string>, base: nat)
  {
    && base <= v.optind <= |orig|
    && argv == Arrange(orig[..base], v.opts1, v.nonopts, v.opts2, orig[v.optind..])
  }

  /** What was taken together with a scan of the unread words is the whole scan. */
  ghost predicate Accounted(v: State, cfg: Config, orig: seq<string>, base: nat)
  {
    && Permuting(cfg) && base <= v.optind <= |orig|
    && (v.place != "" ==> v.optind < |orig| && !IsNonOption(cfg, orig[v.optind]))
    && Whole(cfg, orig, base)
       == Join(v.reports, v.opts1 + v.opts2, v.nonopts, Scan(cfg, v.place, v.bare, orig[v.optind..]))
    && Lead(cfg, "", false, orig[base..])
       == LeadFrom(v, Scan(cfg, v.place, v.bare, orig[v.optind..]), Lead(cfg, v.place, v.bare, orig[v.optind..]))
  }

  /** The option words before the last skipped one, when the unread words scan to `rest`. */
  ghost function LeadFrom(v: State, rest: Split, lead: nat): (k: nat)
  {
    if rest.nonopts == [] && v.nonopts != [] then |v.opts1| else |v.opts1| + |v.opts2| + lead
  }

  /** Holds between calls. */
  ghost predicate Inv(v: State, cfg: Config, argv: seq<string>, orig: seq<string>, base: nat)
  {
    && Permuting(cfg) && base <= v.optind <= |orig| && (v.place != "" ==> v.optind < |orig|)
    && Marks(v, base) && Placed(v, argv, orig, base) && Accounted(v, cfg, orig, base)
  }

  /** The scan has ended: options first, then the skipped words, then the unread ones. */
  ghost predicate Ended(v: State, cfg: Config, argv: seq<string>, orig: seq<string>, base: nat)
  {
    Permuting(cfg) && base <= |orig| &&
    var s := Whole(cfg, orig, base);
    && !s.dash
    && argv == orig[..base] + s.opts + s.nonopts + s.rest
    && v.optind == base + |s.opts|
    && v.start == v.end == -1 && v.place == ""
    && v.reports == s.reports
  }

  /** argv after the block exchange that state `v` asks for. */
  ghost function Settle(v: State, argv: seq<string>): (r: seq<string>)
    ensures |r| == |argv|
  {
    if v.end != -1 && 0 <= v.start <= v.end <= v.optind <= |argv| then Exchanged(argv, v.start, v.end, v.optind)
    else argv
  }

  ghost function Settled(v: State): (v': State)
  {
    v.(opts1 := v.opts1 + v.opts2, opts2 := [], end := -1)
  }

  lemma {:induction false} SettlePlaces(v: State, argv: seq<string>, orig: seq<string>, base: nat)
    requires Marks(v, base) && Placed(v, argv, orig, base)
    ensures v.end != -1 ==> 0 <= v.start < v.end <= v.optind <= |argv|
    ensures Placed(Settled(v), Settle(v, argv), orig, base)
  {
    hide Arrange, Exchanged;
    var p, r := orig[..base], orig[v.optind..];
    if v.end != -1 {
      ArrangeExchanged(p, v.opts1, v.nonopts, v.opts2, r);
      assert Settle(v, argv) == Exchanged(Arrange(p, v.opts1, v.nonopts, v.opts2, r), v.start, v.end, v.optind);
    } else {
      assert Settle(v, argv) == argv && v.opts1 + v.opts2 == v.opts1;
    }
  }

  lemma {:induction false} JoinJoin(r: seq<Reported>, o: seq<string>, n: seq<string>,
                                    r': seq<Reported>, o': seq<string>, n': seq<string>, s: Split)
    ensures Join(r, o, n, Join(r', o', n', s)) == Join(r + r', o + o', n + n', s)
  {
  }

  // a skipped word

  ghost function Skipped(v: State, base: nat, w: string): (v': State)
  {
    State(v.optind + 1, base + |v.opts1 + v.opts2|, -1, "", false,
          v.opts1 + v.opts2, v.nonopts + [w], [], v.reports)
  }

  lemma {:induction false} SkipPlaces(v: State, argv: seq<string>, orig: seq<string>, base: nat)
    requires Marks(v, base) && Placed(v, argv, orig, base) && v.optind < |orig|
    ensures Placed(Skipped(v, base, orig[v.optind]), Settle(v, argv), orig, base)
  {
    SettlePlaces(v, argv, orig, base);
    ArrangeSkip(orig[..base], v.opts1 + v.opts2, v.nonopts, orig[v.optind..]);
    assert orig[v.optind..][1..] == orig[v.optind + 1..];
  }

  lemma {:induction false} ScanSkip(cfg: Config, bare: bool, words: seq<string>)
    requires Permuting(cfg) && words != [] && IsNonOption(cfg, words[0])
    ensures var rest := Scan(cfg, "", false, words[1..]);
            && Scan(cfg, "", bare, words) == Join([], [], [words[0]], rest)
            && Lead(cfg, "", bare, words) == if rest.nonopts == [] then 0 else Lead(cfg, "", false, words[1..])
  {
    hide OptionStep;
  }

  lemma {:induction false} SkipAccounts(v: State, cfg: Config, orig: seq<string>, base: nat)
    requires Accounted(v, cfg, orig, base) && v.place == "" && v.optind < |orig|
    requires IsNonOption(cfg, orig[v.optind])
    ensures Accounted(Skipped(v, base, orig[v.optind]), cfg, orig, base)
  {
    hide Scan, Lead;
    var w, o := orig[v.optind], v.opts1 + v.opts2;
    ScanSkip(cfg, v.bare, orig[v.optind..]);
    assert orig[v.optind..][1..] == orig[v.optind + 1..];
    JoinJoin(v.reports, o, v.nonopts, [], [], [w], Scan(cfg, "", false, orig[v.optind + 1..]));
    assert o + [] == o && v.reports + [] == v.reports;
  }

  // the end of the vector

  lemma {:induction false} EndEnds(v: State, cfg: Config, argv: seq<string>, orig: seq<string>, base: nat)
    requires Inv(v, cfg, argv, orig, base) && v.place == "" && v.optind == |orig|
    ensures Ended(Settled(v).(optind := v.optind - |v.nonopts|, start := -1), cfg, Settle(v, argv), orig, base)
  {
    hide Arrange, Exchanged;
    SettlePlaces(v, argv, orig, base);
    assert orig[v.optind..] == [];
    ArrangeEnd(orig[..base], v.opts1 + v.opts2, v.nonopts, []);
    var s := Whole(cfg, orig, base);
    assert s.opts == v.opts1 + v.opts2 && s.nonopts == v.nonopts && s.rest == [] && !s.dash;
    assert s.reports == v.reports;
  }

  // words taken as options

  /** The end mark of the skipped block, set when an option word is met. */
  ghost function Marked(v: State): (v': State)
  {
    if v.start != -1 && v.end == -1 then v.(end := v.optind) else v
  }

  ghost function Take(v: State, words: seq<string>): (v': State)
  {
    var m := Marked(v).(optind := v.optind + |words|, place := "", bare := false);
    if v.start == -1 then m.(opts1 := v.opts1 + words) else m.(opts2 := v.opts2 + words)
  }

  lemma {:induction false} TakePlaces(v: State, argv: seq<string>, orig: seq<string>, base: nat, n: nat)
    requires Marks(v, base) && Placed(v, argv, orig, base) && 0 < n && v.optind + n <= |orig|
    ensures Marks(Take(v, orig[v.optind..][..n]), base)
    ensures Placed(Take(v, orig[v.optind..][..n]), argv, orig, base)
  {
    ArrangeTake(orig[..base], v.opts1, v.nonopts, v.opts2, orig[v.optind..], n);
    assert orig[v.optind..][n..] == orig[v.optind + n..];
  }

  lemma {:induction false} TakeOpts(v: State, words: seq<string>, base: nat)
    requires Marks(v, base)
    ensures Take(v, words).opts1 + Take(v, words).opts2 == v.opts1 + v.opts2 + words
  {
  }

  lemma {:induction false} TerminateEnds(v: State, cfg: Config, argv: seq<string>, orig: seq<string>, base: nat)
    requires Inv(v, cfg, argv, orig, base) && v.place == "" && v.optind < |orig| && orig[v.optind] == "--"
    ensures var t := Take(v, ["--"]);
            && (t.end != -1 ==> 0 <= t.start < t.end < t.optind <= |argv| && t.end - t.start == |t.nonopts|)
            && (t.end == -1 ==> t.nonopts == [])
            && Ended(Settled(t).(optind := t.optind - |v.nonopts|, start := -1), cfg, Settle(t, argv), orig, base)
  {
    hide Arrange, Exchanged, Scan;
    var t := Take(v, ["--"]);
    assert orig[v.optind..][..1] == ["--"];
    TakePlaces(v, argv, orig, base, 1);
    SettlePlaces(t, argv, orig, base);
    TakeOpts(v, ["--"], base);
    TerminateScan(v, cfg, orig, base);
    ArrangeEnd(orig[..base], t.opts1 + t.opts2, t.nonopts, orig[t.optind..]);
  }

  lemma {:induction false} TerminateScan(v: State, cfg: Config, orig: seq<string>, base: nat)
    requires Accounted(v, cfg, orig, base) && v.place == "" && v.optind < |orig| && orig[v.optind] == "--"
    ensures Whole(cfg, orig, base)
         == Split(v.reports, v.opts1 + v.opts2 + ["--"], v.nonopts, orig[v.optind + 1..], false)
  {
    assert orig[v.optind..][1..] == orig[v.optind + 1..];
    assert v.reports + [] == v.reports && v.nonopts + [] == v.nonopts;
  }

  /** Reading starts inside the option word at optind. */
  ghost function Entered(v: State, w: string): (v': State)
  {
    Marked(v).(place := Enter(w), bare := w == "-")
  }

  lemma {:induction false} EnterKeeps(v: State, cfg: Config, argv: seq<string>, orig: seq<string>, base: nat)
    requires Inv(v, cfg, argv, orig, base) && v.place == "" && v.optind < |orig|
    requires !IsNonOption(cfg, orig[v.optind]) && orig[v.optind] != "--"
    ensures Inv(Entered(v, orig[v.optind]), cfg, argv, orig, base) && Entered(v, orig[v.optind]).place != ""
  {
  }

  /** One reported option. */
  ghost function Stepped(v: State, orig: seq<string>, s: Step): (v': State)
    requires v.optind + s.adv <= |orig|
  {
    var w := if s.adv == 0 then v.(place := s.place, bare := false) else Take(v, orig[v.optind..][..s.adv]);
    w.(reports := v.reports + [Reported(s.code, s.optarg)])
  }

  lemma {:induction false} StepPlaces(v: State, cfg: Config, argv: seq<string>, orig: seq<string>, base: nat)
    requires Marks(v, base) && Placed(v, argv, orig, base)
    requires Permuting(cfg) && v.place != "" && v.optind < |orig|
    ensures var s := OptionStep(cfg, v.place, v.bare, orig[v.optind + 1..]);
            s.code != END ==>
              Marks(Stepped(v, orig, s), base) && Placed(Stepped(v, orig, s), argv, orig, base)
  {
    var s := OptionStep(cfg, v.place, v.bare, orig[v.optind + 1..]);
    if s.adv > 0 {
      TakePlaces(v, argv, orig, base, s.adv);
    }
  }

  lemma {:induction false} StepAccounts(v: State, cfg: Config, orig: seq<string>, base: nat)
    requires Marks(v, base) && Accounted(v, cfg, orig, base) && v.place != ""
    ensures var s := OptionStep(cfg, v.place, v.bare, orig[v.optind + 1..]);
            s.code != END ==> Accounted(Stepped(v, orig, s), cfg, orig, base)
  {
    hide Scan, Lead, OptionStep;
    var words := orig[v.optind..];
    assert words[1..] == orig[v.optind + 1..];
    var s := OptionStep(cfg, v.place, v.bare, words[1..]);
    var o, rep := v.opts1 + v.opts2, [Reported(s.code, s.optarg)];
    if s.code != END {
      ScanStep(cfg, v.place, v.bare, words);
      assert words[s.adv..] == orig[v.optind + s.adv..];
      var taken := words[..s.adv];
      var rest := Scan(cfg, s.place, false, words[s.adv..]);
      JoinJoin(v.reports, o, v.nonopts, rep, taken, [], rest);
      assert v.nonopts + [] == v.nonopts;
      TakeOpts(v, taken, base);
      assert s.adv == 0 ==> o + taken == o;
    }
  }

  lemma {:induction false} ScanStep(cfg: Config, place: string, bare: bool, words: seq<string>)
    requires Permuting(cfg) && place != "" && words != []
    ensures var s := OptionStep(cfg, place, bare, words[1..]);
            s.code != END ==>
              && (s.adv > 0 ==> s.place == "")
              && Scan(cfg, place, bare, words)
                 == Join([Reported(s.code, s.optarg)], words[..s.adv], [], Scan(cfg, s.place, false, words[s.adv..]))
              && Lead(cfg, place, bare, words) == s.adv + Lead(cfg, s.place, false, words[s.adv..])
  {
  }

  /** The static variables of getopt.c and one call of getopt_long on them. */
  class Scanner {
    var optind: nat
    var nonoptStart: int
    var nonoptEnd: int
    var place: string
    var bare: bool
    var optarg: Option<string>

    ghost var opts1: seq<string>
    ghost var nonopts: seq<string>
    ghost var opts2: seq<string>
    ghost var reports: seq<Reported>

    ghost function View(): (v: State)
      reads this
    {
      State(optind, nonoptStart, nonoptEnd, place, bare, opts1, nonopts, opts2, reports)
    }

    constructor (cfg: Config, ghost argv: seq<string>)
      requires Permuting(cfg) && 1 <= |argv|
      ensures Inv(View(), cfg, argv, argv, 1) && reports == []
    {
      optind, nonoptStart, nonoptEnd, place, bare, optarg := 1, -1, -1, "", false, None;
      opts1, nonopts, opts2, reports := [], [], [], [];
      new;
      assert argv == argv[..1] + argv[1..];
    }

    /** End of the vector, src/win/getopt.c:362-378. */
    method AtEnd(cfg: Config, argv: array<string>, ghost orig: seq<string>, ghost base: nat)
      requires Inv(View(), cfg, argv[..], orig, base) && place == "" && optind == argv.Length == |orig|
      modifies this, argv
      ensures Ended(View(), cfg, argv[..], orig, base)
      ensures reports == old(reports) && optarg == old(optarg)
    {
      hide Accounted, Arrange, Exchanged, Whole, Join;
      EndEnds(View(), cfg, argv[..], orig, base);
      if nonoptEnd != -1 {
        PermuteArgs(argv, nonoptStart, nonoptEnd, optind);
        optind := optind - (nonoptEnd - nonoptStart);
      } else if nonoptStart != -1 {
        optind := nonoptStart;
      }
      opts1, opts2 := opts1 + opts2, [];
      nonoptStart, nonoptEnd := -1, -1;
    }

    /** A non-option word, src/win/getopt.c:399-408. */
    method SkipWord(cfg: Config, argv: array<string>, ghost orig: seq<string>, ghost base: nat)
      requires Inv(View(), cfg, argv[..], orig, base) && place == "" && optind < argv.Length == |orig|
      requires IsNonOption(cfg, argv[optind])
      modifies this, argv
      ensures Inv(View(), cfg, argv[..], orig, base)
      ensures place == "" && optind == old(optind) + 1 && reports == old(reports) && optarg == old(optarg)
    {
      hide Accounted, Arrange, Exchanged;
      ghost var w := orig[optind];
      Unread(View(), argv[..], orig, base);
      SkipPlaces(View(), argv[..], orig, base);
      SkipAccounts(View(), cfg, orig, base);
      if nonoptStart == -1 {
        nonoptStart := optind;
      } else if nonoptEnd != -1 {
        PermuteArgs(argv, nonoptStart, nonoptEnd, optind);
        nonoptStart := optind - (nonoptEnd - nonoptStart);
        nonoptEnd := -1;
      }
      optind := optind + 1;
      bare := false;
      opts1, nonopts, opts2 := opts1 + opts2, nonopts + [w], [];
    }

    /** The word `--`, src/win/getopt.c:419-431. */
    method Terminate(cfg: Config, argv: array<string>, ghost orig: seq<string>, ghost base: nat)
      requires Inv(View(), cfg, argv[..], orig, base) && place == "" && optind < argv.Length == |orig|
      requires argv[optind] == "--"
      modifies this, argv
      ensures Ended(View(), cfg, argv[..], orig, base)
      ensures reports == old(reports) && optarg == old(optarg)
    {
      hide Inv, Exchanged, Ended;
      InvUnread(View(), cfg, argv[..], orig, base);
      TerminateEnds(View(), cfg, argv[..], orig, base);
      ghost var t := Take(View(), ["--"]);
      if nonoptStart != -1 && nonoptEnd == -1 {
        nonoptEnd := optind;
      }
      optind := optind + 1;
      if nonoptEnd != -1 {
        PermuteArgs(argv, nonoptStart, nonoptEnd, optind);
        optind := optind - (nonoptEnd - nonoptStart);
      }
      opts1, opts2 := t.opts1 + t.opts2, [];
      nonoptStart, nonoptEnd, bare := -1, -1, false;
      assert View() == Settled(t).(optind := t.optind - |nonopts|, start := -1);
    }

    /** Updating the scanning pointer, src/win/getopt.c:359-433. */
    method Seek(cfg: Config, argv: array<string>, ghost orig: seq<string>, ghost base: nat) returns (done: bool)
      requires Inv(View(), cfg, argv[..], orig, base) && place == "" && argv.Length == |orig|
      modifies this, argv
      ensures done ==> Ended(View(), cfg, argv[..], orig, base)
      ensures !done ==> Inv(View(), cfg, argv[..], orig, base) && place != "" && optind >= old(optind)
      ensures reports == old(reports) && optarg == old(optarg)
    {
      hide Accounted, Arrange, Exchanged, Whole, Join;
      while true
        invariant Inv(View(), cfg, argv[..], orig, base) && place == ""
        invariant optind >= old(optind) && reports == old(reports) && optarg == old(optarg)
        decreases |orig| - optind
      {
        if optind >= argv.Length {
          AtEnd(cfg, argv, orig, base);
          return true;
        }
        if IsNonOption(cfg, argv[optind]) {
          SkipWord(cfg, argv, orig, base);
        } else if argv[optind] == "--" {
          Terminate(cfg, argv, orig, base);
          return true;
        } else {
          Unread(View(), argv[..], orig, base);
          EnterKeeps(View(), cfg, argv[..], orig, base);
          place := argv[optind];
          if nonoptStart != -1 && nonoptEnd == -1 {
            nonoptEnd := optind;
          }
          bare := |place| == 1;
          if |place| > 1 {
            place := place[1..];
          }
          return false;
        }
      }
    }

    /** parse_long_options, src/win/getopt.c:194-316, on a word at optind. */
    method ParseLong(cfg: Config, argv: array<string>, word: string) returns (code: int)
      requires Permuting(cfg) && cfg.longs.Some? && optind < argv.Length && optarg.None?
      modifies this`optind, this`optarg
      ensures var s := LongStep(cfg, word, old(argv[optind + 1..]));
              code == s.code && optarg == s.optarg && optind == old(optind) + s.adv
    {
      var longs := cfg.longs.value;
      var eq := Find(word, '=');
      optind := optind + 1;
      var m := FindLong(longs, word[..eq]);
      if !m.Found? {
        return '?' as int;
      }
      var o := longs[m.index];
      if o.hasArg.NoArgument? && eq < |word| {
        return BadArg(cfg);
      }
      if o.hasArg.RequiredArgument? || o.hasArg.OptionalArgument? {
        if eq < |word| {
          optarg := Some(word[eq + 1..]);
        } else if o.hasArg.RequiredArgument? {
          optarg := if optind < argv.Length then Some(argv[optind]) else None;
          optind := optind + 1;
        }
      }
      if o.hasArg.RequiredArgument? && optarg.None? {
        optind := optind - 1;
        return BadArg(cfg);
      }
      return if o.flag.Some? then 0 else o.val;
    }

    /** `-W`, src/win/getopt.c:474-490; `place` is the rest of the word. */
    method ParseW(cfg: Config, argv: array<string>) returns (code: int)
      requires Permuting(cfg) && cfg.longs.Some? && optind < argv.Length && optarg.None?
      modifies this`optind, this`optarg, this`place
      ensures var s := WStep(cfg, old(place), old(argv[optind + 1..]));
              code == s.code && optarg == s.optarg && optind == old(optind) + s.adv && place == s.place
    {
      hide LongStep;
      if place == "" {
        optind := optind + 1;
        if optind >= argv.Length {
          return BadArg(cfg);
        }
        place := argv[optind];
        assert old(argv[optind + 1..])[1..] == argv[optind + 1..];
      }
      code := ParseLong(cfg, argv, place);
      place := "";
    }

    /** An option with an argument, src/win/getopt.c:495-509. */
    method ParseArg(cfg: Config, argv: array<string>, c: char, optional: bool) returns (code: int)
      requires optind < argv.Length && optarg.None?
      modifies this`optind, this`optarg, this`place
      ensures var s := ArgStep(cfg, c, optional, old(place), old(argv[optind + 1..]));
              code == s.code && optarg == s.optarg && optind == old(optind) + s.adv && place == s.place
    {
      if place != "" {
        optarg := Some(place);
      } else if !optional {
        optind := optind + 1;
        if optind >= argv.Length {
          place := "";
          return BadArg(cfg);
        }
        optarg := Some(argv[optind]);
      }
      place := "";
      optind := optind + 1;
      return c as int;
    }

    /** A short option, src/win/getopt.c:457-512. */
    method ParseShort(cfg: Config, argv: array<string>) returns (code: int)
      requires Permuting(cfg) && place != "" && optind < argv.Length && optarg.None?
      modifies this`optind, this`optarg, this`place
      ensures var s := ShortStep(cfg, old(place), old(argv[optind + 1..]));
              code == s.code && optarg == s.optarg && optind == old(optind) + s.adv && place == s.place
    {
      hide WStep, ArgStep;
      var c := place[0];
      place := place[1..];
      var i := Find(cfg.options, c);
      if c == ':' || (c == '-' && place != "") || i == |cfg.options| {
        if c == '-' && place == "" {
          return END;
        }
        if place == "" {
          optind := optind + 1;
        }
        return '?' as int;
      }
      if cfg.longs.Some? && c == 'W' && CharAt(cfg.options, i + 1) == ';' {
        code := ParseW(cfg, argv);
      } else if CharAt(cfg.options, i + 1) != ':' {
        if place == "" {
          optind := optind + 1;
        }
        code := c as int;
      } else {
        code := ParseArg(cfg, argv, c, CharAt(cfg.options, i + 2) == ':');
      }
    }

    /** One call of getopt_long, src/win/getopt.c:356-513. A call either reports the next
        option of the scan, or ends: at the end of the vector or at `--` with argv
        rearranged, or at a closing dash with argv left as it was. */
    method Call(cfg: Config, argv: array<string>, ghost orig: seq<string>, ghost base: nat) returns (code: int)
      requires Inv(View(), cfg, argv[..], orig, base) && argv.Length == |orig|
      modifies this, argv
      ensures code != END ==>
                && Inv(View(), cfg, argv[..], orig, base)
                && reports == old(reports) + [Reported(code, optarg)]
                && Further(View(), old(View()))
      ensures code == END ==>
                && Permuting(cfg) && base <= |orig|
                && (if Whole(cfg, orig, base).dash then Stuck(View(), cfg, argv[..], orig, base)
                    else Ended(View(), cfg, argv[..], orig, base))
                && reports == old(reports) == Whole(cfg, orig, base).reports
    {
      hide Inv, Ended, Stuck, Whole;
      optarg := None;
      if place == "" {
        var done := Seek(cfg, argv, orig, base);
        if done {
          EndedReports(View(), cfg, argv[..], orig, base);
          return END;
        }
      }
      code := Report(cfg, argv, orig, base);
    }

    /** A call once the scanning pointer is inside an option word. */
    method Report(cfg: Config, argv: array<string>, ghost orig: seq<string>, ghost base: nat) returns (code: int)
      requires Inv(View(), cfg, argv[..], orig, base) && argv.Length == |orig| && place != "" && optarg.None?
      modifies this
      ensures code != END ==>
                && Inv(View(), cfg, argv[..], orig, base)
                && reports == old(reports) + [Reported(code, optarg)]
                && Further(View(), old(View()))
      ensures code == END ==>
                && Permuting(cfg) && base <= |orig| && Whole(cfg, orig, base).dash
                && Stuck(View(), cfg, argv[..], orig, base)
                && reports == old(reports) == Whole(cfg, orig, base).reports
    {
      hide Inv, OptionStep, Stuck, Whole, Further;
      InvUnread(View(), cfg, argv[..], orig, base);
      ghost var v := View();
      code := ParseOption(cfg, argv, orig, base);
      ghost var s := OptionStep(cfg, v.place, v.bare, orig[v.optind + 1..]);
      StepKeeps(v, cfg, argv[..], orig, base);
      if code == END {
        DashSticks(v, cfg, argv[..], orig, base);
        return;
      }
      ghost var w := Stepped(v, orig, s);
      opts1, opts2, reports := w.opts1, w.opts2, w.reports;
      assert View() == w;
    }

    /** The body of a call once the scanning pointer is inside an option word,
        src/win/getopt.c:441-512. */
    method ParseOption(cfg: Config, argv: array<string>, ghost orig: seq<string>, ghost base: nat) returns (code: int)
      requires Inv(View(), cfg, argv[..], orig, base) && place != "" && argv.Length == |orig| && optarg.None?
      modifies this`optind, this`optarg, this`place, this`bare
      ensures old(optind) < |orig|
      ensures var s := OptionStep(cfg, old(place), old(bare), orig[old(optind) + 1..]);
              code == s.code && optarg == s.optarg && optind == old(optind) + s.adv && place == s.place && !bare
    {
      hide Inv, LongStep, ShortStep;
      InvUnread(View(), cfg, argv[..], orig, base);
      assert argv[optind + 1..] == argv[optind..][1..] == orig[optind..][1..] == orig[optind + 1..];
      if cfg.longs.Some? && !bare && place[0] == '-' {
        code := ParseLong(cfg, argv, place[1..]);
        place := "";
      } else {
        code := ParseShort(cfg, argv);
      }
      bare := false;
    }
  }

  lemma {:induction false} InvUnread(v: State, cfg: Config, argv: seq<string>, orig: seq<string>, base: nat)
    requires Inv(v, cfg, argv, orig, base)
    ensures Permuting(cfg) && base <= v.optind <= |argv| == |orig| && argv[v.optind..] == orig[v.optind..]
    ensures v.optind < |orig| ==> argv[v.optind] == orig[v.optind]
    ensures v.place != "" ==> v.optind < |orig|
  {
    hide Arrange, Accounted;
    Unread(v, argv, orig, base);
  }

  lemma {:induction false} StepKeeps(v: State, cfg: Config, argv: seq<string>, orig: seq<string>, base: nat)
    requires Inv(v, cfg, argv, orig, base) && v.place != ""
    ensures var s := OptionStep(cfg, v.place, v.bare, orig[v.optind + 1..]);
            s.code != END ==> Inv(Stepped(v, orig, s), cfg, argv, orig, base) && Further(Stepped(v, orig, s), v)
    ensures Marked(v) == v
  {
    hide Scan, Arrange, ShortStep, LongStep, Join;
    StepPlaces(v, cfg, argv, orig, base);
    StepAccounts(v, cfg, orig, base);
  }

  /** A scan that reported an option is further along. */
  ghost predicate Further(v: State, was: State)
  {
    v.optind > was.optind || (v.optind == was.optind && v.place != "" && (was.place == "" || |v.place| < |was.place|))
  }

  /** The scan ended at a closing dash: argv was not rearranged, so the skipped block still
      precedes options taken after it, and optind is left at an option word. */
  ghost predicate Stuck(v: State, cfg: Config, argv: seq<string>, orig: seq<string>, base: nat)
  {
    Permuting(cfg) && base <= |orig| &&
    var s := Whole(cfg, orig, base);
    && base <= v.optind < |orig| == |argv|
    && argv == Arrange(orig[..base], v.opts1, v.nonopts, v.opts2, s.rest)
    && s.opts == v.opts1 + v.opts2 && s.nonopts == v.nonopts && s.rest == orig[v.optind..]
    && Lead(cfg, "", false, orig[base..]) == |v.opts1|
    && !IsNonOption(cfg, argv[v.optind])
  }

  lemma {:induction false} EndedReports(v: State, cfg: Config, argv: seq<string>, orig: seq<string>, base: nat)
    requires Ended(v, cfg, argv, orig, base)
    ensures Permuting(cfg) && base <= |orig|
    ensures !Whole(cfg, orig, base).dash && v.reports == Whole(cfg, orig, base).reports
  {
    hide Whole;
  }

  lemma {:induction false} DashSticks(v: State, cfg: Config, argv: seq<string>, orig: seq<string>, base: nat)
    requires Inv(v, cfg, argv, orig, base) && v.place != ""
    requires OptionStep(cfg, v.place, v.bare, orig[v.optind + 1..]).code == END
    ensures Whole(cfg, orig, base).dash && v.reports == Whole(cfg, orig, base).reports
    ensures Stuck(v.(place := "", bare := false), cfg, argv, orig, base)
  {
    hide OptionStep, Arrange;
    Unread(v, argv, orig, base);
    assert orig[v.optind..][1..] == orig[v.optind + 1..];
    var s := Whole(cfg, orig, base);
    assert s.opts == v.opts1 + v.opts2 && s.nonopts == v.nonopts && s.reports == v.reports;
  }

  lemma {:induction false} Unread(v: State, argv: seq<string>, orig: seq<string>, base: nat)
    requires Marks(v, base) && Placed(v, argv, orig, base)
    ensures |argv| == |orig| && argv[v.optind..] == orig[v.optind..]
    ensures v.optind < |orig| ==> argv[v.optind] == orig[v.optind]
  {
    ArrangeRest(orig[..base], v.opts1, v.nonopts, v.opts2, orig[v.optind..]);
    if v.optind < |orig| {
      assert argv[v.optind] == argv[v.optind..][0] == orig[v.optind..][0];
    }
  }

  lemma {:induction false} EndedFinal(v: State, cfg: Config, argv: seq<string>, orig: seq<string>, base: nat)
    requires Ended(v, cfg, argv, orig, base)
    ensures Permuting(cfg) && base <= |orig| && v.optind == base + FinalInd(cfg, orig[base..])
    ensures argv == orig[..base] + Final(cfg, orig[base..])
  {
    hide Scan, Lead;
    var s := Whole(cfg, orig, base);
    assert orig[..base] + s.opts + s.nonopts + s.rest == orig[..base] + (s.opts + s.nonopts + s.rest);
  }

  lemma {:induction false} StuckArranged(v: State, cfg: Config, argv: seq<string>, orig: seq<string>, base: nat)
    requires Stuck(v, cfg, argv, orig, base) && Whole(cfg, orig, base).dash
    ensures Permuting(cfg) && base <= |orig| && v.optind == base + FinalInd(cfg, orig[base..])
    ensures argv == orig[..base] + Final(cfg, orig[base..])
  {
    hide Scan, Lead;
    var s, k := Whole(cfg, orig, base), |v.opts1|;
    assert s.opts[..k] == v.opts1 && s.opts[k..] == v.opts2;
    ArrangeFinal(orig[..base], v.opts1, v.nonopts, v.opts2, s.rest);
  }

  lemma {:induction false} ArrangeFinal<T>(p: seq<T>, o1: seq<T>, n: seq<T>, o2: seq<T>, r: seq<T>)
    ensures Arrange(p, o1, n, o2, r) == p + (o1 + n + o2 + r)
  {
  }

  // ---------- whole runs ----------

  /** The words as a run leaves them: options, skipped words, unread words. A run that ends at a
      closing dash leaves the options taken after the last skipped word behind the skipped ones. */
  ghost function Final(cfg: Config, words: seq<string>): (r: seq<string>)
    requires Permuting(cfg)
  {
    var s, k := Scan(cfg, "", false, words), Lead(cfg, "", false, words);
    LeadBound(cfg, words);
    if s.dash then s.opts[..k] + s.nonopts + s.opts[k..] + s.rest
    else s.opts + s.nonopts + s.rest
  }

  /** How far optind has moved when a run ends. */
  ghost function FinalInd(cfg: Config, words: seq<string>): (n: nat)
    requires Permuting(cfg)
  {
    var s := Scan(cfg, "", false, words);
    if s.dash then |s.opts| + |s.nonopts| else |s.opts|
  }

  /** What a run promises: all options first, and optind behind them. */
  ghost predicate InOrder(cfg: Config, words: seq<string>)
    requires Permuting(cfg)
  {
    var s := Scan(cfg, "", false, words);
    Final(cfg, words) == s.opts + s.nonopts + s.rest && FinalInd(cfg, words) == |s.opts|
  }

  /** Calls until -1, as the option loop of src/ss_local.cpp does. */
  method ParseAll(cfg: Config, argv: array<string>) returns (got: seq<Reported>, optind: nat)
    requires Permuting(cfg) && 1 <= argv.Length
    modifies argv
    ensures var s := Whole(cfg, old(argv[..]), 1);
            && got == s.reports
            && argv[..] == old(argv[..1]) + Final(cfg, old(argv[1..])) && optind == 1 + FinalInd(cfg, old(argv[1..]))
            && (s.dash ==> optind < argv.Length && !IsNonOption(cfg, argv[optind]))
  {
    hide Inv;
    ghost var orig := argv[..];
    var sc := new Scanner(cfg, argv[..]);
    got := [];
    while true
      invariant fresh(sc)
      invariant Inv(sc.View(), cfg, argv[..], orig, 1) && got == sc.reports
      decreases |orig| - sc.optind, if sc.place == "" then 1 else 0, |sc.place|
    {
      InvUnread(sc.View(), cfg, argv[..], orig, 1);
      var code := sc.Call(cfg, argv, orig, 1);
      if code == END {
        assert orig[1..] == old(argv[1..]) && orig[..1] == old(argv[..1]);
        if Whole(cfg, orig, 1).dash {
          StuckArranged(sc.View(), cfg, argv[..], orig, 1);
        } else {
          EndedFinal(sc.View(), cfg, argv[..], orig, 1);
        }
        return got, sc.optind;
      }
      got := got + [Reported(code, sc.optarg)];
      InvUnread(sc.View(), cfg, argv[..], orig, 1);
    }
  }

  /** The words whose label is `which`, in order. */
  function Pick(words: seq<string>, labels: seq<bool>, which: bool): (r: seq<string>)
    requires |labels| <= |words|
  {
    if labels == [] then []
    else (if labels[0] == which then [words[0]] else []) + Pick(words[1..], labels[1..], which)
  }

  function Trues(n: nat): (r: seq<bool>)
    ensures |r| == n && forall i :: 0 <= i < n ==> r[i]
  {
    seq(n, _ => true)
  }

  lemma {:induction false} PickStep(words: seq<string>, labels: seq<bool>, which: bool)
    requires 0 < |labels| <= |words|
    ensures Pick(words, labels, which)
         == (if labels[0] == which then [words[0]] else []) + Pick(words[1..], labels[1..], which)
  {
  }

  lemma {:induction false} PickRun(words: seq<string>, n: nat, labels: seq<bool>, which: bool)
    requires n + |labels| <= |words|
    ensures Pick(words, Trues(n) + labels, which)
         == (if which then words[..n] else []) + Pick(words[n..], labels, which)
  {
    var run := Trues(n);
    if n == 0 {
      assert run + labels == labels && words[0..] == words;
    } else {
      PickRun(words[1..], n - 1, labels, which);
      assert (run + labels)[1..] == Trues(n - 1) + labels;
      PickStep(words, run + labels, which);
      hide Pick;
      assert words[1..][n - 1..] == words[n..] && [words[0]] + words[1..][..n - 1] == words[..n];
    }
  }

  /** `s` is a stable partition of `words`: labelling each word that was looked at as
      option or not, the options and the skipped words are the labelled words in their
      original order, every skipped word is a non-option, the rest is the unread
      suffix, and words are left unread only after `--` or a closing dash. */
  ghost predicate Stable(cfg: Config, words: seq<string>, s: Split, labels: seq<bool>)
  {
    && |labels| <= |words| && s.rest == words[|labels|..]
    && s.opts == Pick(words, labels, true) && s.nonopts == Pick(words, labels, false)
    && (forall i :: 0 <= i < |labels| && !labels[i] ==> IsNonOption(cfg, words[i]))
    && (s.rest != [] && !s.dash ==> s.opts != [] && s.opts[|s.opts| - 1] == "--")
  }

  lemma {:induction false} StableSkip(cfg: Config, words: seq<string>, s: Split, labels: seq<bool>)
    requires words != [] && IsNonOption(cfg, words[0]) && Stable(cfg, words[1..], s, labels)
    ensures Stable(cfg, words, Join([], [], [words[0]], s), [false] + labels)
  {
    var l := [false] + labels;
    assert l[1..] == labels;
    assert words[|l|..] == words[1..][|labels|..];
    assert [] + s.opts == s.opts;
    forall i | 0 <= i < |l| && !l[i] ensures IsNonOption(cfg, words[i]) {
      assert i > 0 ==> words[i] == words[1..][i - 1] && !labels[i - 1];
    }
  }

  lemma {:induction false} StableTake(cfg: Config, words: seq<string>, n: nat, r: seq<Reported>, s: Split,
                                      labels: seq<bool>)
    requires n <= |words| && Stable(cfg, words[n..], s, labels)
    ensures Stable(cfg, words, Join(r, words[..n], [], s), Trues(n) + labels)
  {
    var l := Trues(n) + labels;
    PickRun(words, n, labels, true);
    PickRun(words, n, labels, false);
    assert words[|l|..] == words[n..][|labels|..];
    forall i | 0 <= i < |l| && !l[i] ensures IsNonOption(cfg, words[i]) {
      assert words[i] == words[n..][i - n] && !labels[i - n];
    }
  }

  /** How many labels of options stand before the last label of a skipped word, or at all if there
      is no such label. */
  function Before(labels: seq<bool>): (k: nat)
  {
    if labels == [] then 0
    else if labels[0] then 1 + Before(labels[1..])
    else if false in labels[1..] then Before(labels[1..]) else 0
  }

  lemma {:induction false} BeforeRun(n: nat, labels: seq<bool>)
    ensures Before(Trues(n) + labels) == n + Before(labels)
  {
    if n == 0 {
      assert Trues(0) + labels == labels;
    } else {
      BeforeRun(n - 1, labels);
      assert (Trues(n) + labels)[1..] == Trues(n - 1) + labels;
    }
  }

  lemma {:induction false} BeforeBound(words: seq<string>, labels: seq<bool>)
    requires |labels| <= |words|
    ensures Before(labels) <= |Pick(words, labels, true)|
    ensures Pick(words, labels, false) == [] <==> false !in labels
  {
    if labels != [] {
      BeforeBound(words[1..], labels[1..]);
      assert labels == [labels[0]] + labels[1..];
    }
  }

  lemma {:induction false} SkippedLabel(cfg: Config, words: seq<string>, s: Split, labels: seq<bool>)
    requires Stable(cfg, words, s, labels)
    ensures Before([false] + labels) == if s.nonopts == [] then 0 else Before(labels)
  {
    BeforeBound(words, labels);
    assert ([false] + labels)[1..] == labels;
  }

  lemma {:induction false} LeadBound(cfg: Config, words: seq<string>)
    requires Permuting(cfg)
    ensures Lead(cfg, "", false, words) <= |Scan(cfg, "", false, words).opts|
  {
    hide Scan, Lead;
    var labels := ScanStable(cfg, "", false, words);
    BeforeBound(words, labels);
  }

  lemma {:induction false} ScanStable(cfg: Config, place: string, bare: bool, words: seq<string>)
    returns (labels: seq<bool>)
    requires Permuting(cfg)
    requires place != "" ==> words != []
    ensures Stable(cfg, words, Scan(cfg, place, bare, words), labels)
    ensures Lead(cfg, place, bare, words) == Before(labels)
    decreases |words|, if place != "" then |place| else if words != [] then |words[0]| + 1 else 0
  {
    hide OptionStep, Stable;
    assert words[..0] == [] && words[0..] == words;
    if place == "" {
      if words == [] {
        labels := [];
        StableLeaf(cfg, words, 0, false);
      } else if IsNonOption(cfg, words[0]) {
        labels := ScanStable(cfg, "", false, words[1..]);
        StableSkip(cfg, words, Scan(cfg, "", false, words[1..]), labels);
        SkippedLabel(cfg, words[1..], Scan(cfg, "", false, words[1..]), labels);
        labels := [false] + labels;
      } else if words[0] == "--" {
        labels := [true];
        assert words[..1] == ["--"];
        StableLeaf(cfg, words, 1, false);
      } else {
        labels := ScanStable(cfg, Enter(words[0]), words[0] == "-", words);
      }
    } else {
      var s := OptionStep(cfg, place, bare, words[1..]);
      if s.code == END {
        labels := [];
        StableLeaf(cfg, words, 0, true);
      } else {
        ScanStep(cfg, place, bare, words);
        labels := ScanStable(cfg, s.place, false, words[s.adv..]);
        var rest := Scan(cfg, s.place, false, words[s.adv..]);
        StableTake(cfg, words, s.adv, [Reported(s.code, s.optarg)], rest, labels);
        BeforeRun(s.adv, labels);
        labels := Trues(s.adv) + labels;
      }
    }
  }

  lemma {:induction false} StableLeaf(cfg: Config, words: seq<string>, n: nat, dash: bool)
    requires n <= 1 && n <= |words| && (n == 1 ==> words[0] == "--") && (n == 0 ==> words == [] || dash)
    ensures Stable(cfg, words, Split([], words[..n], [], words[n..], dash), if n == 0 then [] else [true])
  {
    var labels := if n == 0 then [] else [true];
    assert labels != [] ==> labels[1..] == [];
    assert Pick(words, labels, false) == [];
    assert Pick(words, labels, true) == words[..n];
    assert words[|labels|..] == words[n..];
  }

  /** Every run keeps its promise, and no scan stops at a closing dash, exactly when long options
      are given or the dash itself is an option letter. */
  lemma {:induction false} DashFree(cfg: Config)
    requires Permuting(cfg)
    ensures (forall words :: InOrder(cfg, words)) <==> cfg.longs.Some? || '-' in cfg.options
    ensures (forall words :: !Scan(cfg, "", false, words).dash) <==> cfg.longs.Some? || '-' in cfg.options
  {
    hide Scan, Lead;
    if cfg.longs.Some? || '-' in cfg.options {
      forall words ensures !Scan(cfg, "", false, words).dash && InOrder(cfg, words) {
        NoDash(cfg, "", false, words);
      }
    } else {
      ClosingDash(cfg);
    }
  }

  /** On `x -: -:-` the run takes `-:` and then stops in `-:-`, where `:` is reported as unknown
      and the dash returns -1: `x` stays in front of `-:`, and optind is behind both. */
  lemma {:induction false} ClosingDash(cfg: Config)
    requires Permuting(cfg) && cfg.longs.None? && '-' !in cfg.options
    ensures var words, r := ["x", "-:", "-:-"], Reported('?' as int, None);
            && Scan(cfg, "", false, words) == Split([r, r], ["-:"], ["x"], ["-:-"], true)
            && Final(cfg, words) == words && FinalInd(cfg, words) == 2 && !InOrder(cfg, words)
  {
    var words := ["x", "-:", "-:-"];
    StopsInside(cfg);
    UnknownOption(cfg);
    assert words[1..] == ["-:", "-:-"];
    assert IsNonOption(cfg, "x");
    ScanSkip(cfg, false, words);
    hide Scan, Lead;
    var s := Scan(cfg, "", false, words);
    assert s.opts == ["-:"] && s.nonopts == ["x"] && s.rest == ["-:-"];
    assert s.opts[..0] == [] && s.opts[0..] == ["-:"];
    assert Final(cfg, words) == [] + ["x"] + ["-:"] + ["-:-"];
    assert (s.opts + s.nonopts + s.rest)[0] == "-:" && Final(cfg, words)[0] == "x";
  }

  lemma {:induction false} UnknownOption(cfg: Config)
    requires Permuting(cfg) && cfg.longs.None? && '-' !in cfg.options
    ensures var words, rest := ["-:", "-:-"], Scan(cfg, "", false, ["-:-"]);
            && Scan(cfg, "", false, words) == Join([Reported('?' as int, None)], ["-:"], [], rest)
            && Lead(cfg, "", false, words) == 1 + Lead(cfg, "", false, ["-:-"])
  {
    var words := ["-:", "-:-"];
    assert words[1..] == ["-:-"] && words[..1] == ["-:"] && Enter("-:") == ":" && ":"[1..] == "";
    assert OptionStep(cfg, ":", false, ["-:-"]) == Step('?' as int, None, "", 1);
    ScanStep(cfg, ":", false, words);
  }

  lemma {:induction false} StopsInside(cfg: Config)
    requires Permuting(cfg) && cfg.longs.None? && '-' !in cfg.options
    ensures Scan(cfg, "", false, ["-:-"]) == Split([Reported('?' as int, None)], [], [], ["-:-"], true)
    ensures Lead(cfg, "", false, ["-:-"]) == 0
  {
    var words := ["-:-"];
    assert words[1..] == [] && Enter("-:-") == ":-" && ":-"[1..] == "-" && "-"[1..] == "";
    var s := OptionStep(cfg, ":-", false, []);
    assert s == Step('?' as int, None, "-", 0);
    assert OptionStep(cfg, "-", false, []).code == END;
    hide OptionStep;
    assert Scan(cfg, "-", false, words) == Split([], [], [], words, true);
    assert Scan(cfg, ":-", false, words) == Split([Reported('?' as int, None)], [], [], words, true);
    assert Scan(cfg, "", false, words) == Scan(cfg, ":-", false, words);
    assert Lead(cfg, "", false, words) == Lead(cfg, ":-", false, words) == Lead(cfg, "-", false, words);
  }

  lemma {:induction false} NoDash(cfg: Config, place: string, bare: bool, words: seq<string>)
    requires Permuting(cfg) && (cfg.longs.Some? || '-' in cfg.options)
    requires place != "" ==> words != []
    requires bare && place == "-" ==> '-' in cfg.options
    ensures !Scan(cfg, place, bare, words).dash
    decreases |words|, if place != "" then |place| else if words != [] then |words[0]| + 1 else 0
  {
    hide ShortStep, LongStep;
    if place == "" {
      if words != [] {
        if IsNonOption(cfg, words[0]) {
          NoDash(cfg, "", false, words[1..]);
        } else if words[0] != "--" {
          NoDash(cfg, Enter(words[0]), words[0] == "-", words);
        }
      }
    } else {
      var s := OptionStep(cfg, place, bare, words[1..]);
      if s.adv == 0 {
        NoDash(cfg, s.place, false, words);
      } else {
        NoDash(cfg, "", false, words[s.adv..]);
      }
    }
  }
}
