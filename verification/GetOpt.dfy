/** The portable getopt of cprt.c and the loop that consumes it.  Strings hold no NUL characters. */
module GetOpt {

  datatype Option<+T> = None | Some(value: T)

  /** What one call returns: EOF, or a character, which is '?' after an error. */
  datatype Ret = Eof | Char(c: char)

  /** A call's result and what it leaves in cprt_optind, cprt_optarg and cprt_optopt. */
  datatype Scan = Scan(ret: Ret, optind: nat, optarg: Option<string>, optopt: Option<char>)

  /** isgraph() in the C locale. */
  predicate IsGraph(c: char) {
    '!' <= c <= '~'
  }

  predicate Legal(c: char) {
    IsGraph(c) && c != '-' && c != ':' && c != ';'
  }

  /** strchr: the first occurrence, or the length when there is none. */
  function IndexOf(s: string, c: char): (i: nat)
    ensures i <= |s| && (i < |s| <==> c in s) && (i < |s| ==> s[i] == c)
    ensures forall j :: 0 <= j < i ==> s[j] != c
  {
    if s == "" || s[0] == c then 0 else 1 + IndexOf(s[1..], c)
  }

  /** Whether the first mention of c in the option string is followed by a colon. */
  predicate TakesValue(optstring: string, c: char) {
    var i := IndexOf(optstring, c);
    i + 1 < |optstring| && optstring[i + 1] == ':'
  }

  predicate LooksLikeOption(word: string) {
    |word| >= 2 && word[0] == '-'
  }

  /** The words of a command line, case by case. */
  function Next(argv: seq<string>, optstring: string, i: nat): Scan {
    if i >= |argv| || !LooksLikeOption(argv[i]) then Scan(Eof, i, None, None)
    else if argv[i] == "--" then Scan(Eof, i + 1, None, None)
    else
      var c := argv[i][1];
      if !Legal(c) || c !in optstring then Scan(Char('?'), i, None, Some(c))
      else if !TakesValue(optstring, c) then
        if |argv[i]| > 2 then Scan(Char('?'), i, None, Some(c)) else Scan(Char(c), i + 1, None, Some(c))
      else if |argv[i]| > 2 then Scan(Char(c), i + 1, Some(argv[i][2..]), Some(c))
      else if i + 1 >= |argv| then Scan(Char('?'), i + 1, None, Some(c))
      else Scan(Char(c), i + 2, Some(argv[i + 1]), Some(c))
  }

  /** An option as the consumer sees it. */
  datatype Opt = Opt(name: char, value: Option<string>)

  /** All of a command line: the options before EOF and where the positional arguments start, or a
      rejection by the consumer's default branch. */
  datatype Parse = Parsed(opts: seq<Opt>, optind: nat) | Rejected(optind: nat)

  function ParseFrom(argv: seq<string>, optstring: string, i: nat): Parse
    decreases |argv| - i
  {
    var scan := Next(argv, optstring, i);
    match scan.ret
    case Eof => Parsed([], scan.optind)
    case Char(c) =>
      if c == '?' then Rejected(scan.optind)
      else Prefixed([Opt(c, scan.optarg)], ParseFrom(argv, optstring, scan.optind))
  }

  /** Options already collected, before what the rest of the line gives. */
  function Prefixed(before: seq<Opt>, rest: Parse): Parse {
    match rest
    case Parsed(opts, k) => Parsed(before + opts, k)
    case Rejected(k) => rest
  }

  lemma PrefixedTwice(before: seq<Opt>, o: Opt, rest: Parse)
    ensures Prefixed(before, Prefixed([o], rest)) == Prefixed(before + [o], rest)
  {
  }

  /** The globals of cprt_getopt. */
  class Scanner {
    var optarg: Option<string>
    var optopt: Option<char>
    var optind: nat

    constructor ()
      ensures optind == 1
    {
      optarg, optopt, optind := None, None, 1;
    }

    /** cprt_getopt */
    method GetOpt(argv: seq<string>, optstring: string) returns (r: Ret)
      modifies this
      ensures Scan(r, optind, optarg, optopt) == Next(argv, optstring, old(optind))
    {
      optarg, optopt := None, None;
      if optind >= |argv| {
        return Eof;
      }
      var word := argv[optind];
      if |word| < 2 {
        return Eof;
      }
      if word[0] != '-' {
        return Eof;
      }
      if word == "--" {
        optind := optind + 1;
        return Eof;
      }
      optopt := Some(word[1]);
      if !IsGraph(word[1]) {
        return Char('?');
      }
      if IndexOf("-:;", word[1]) < 3 {
        return Char('?');
      }
      var spec := IndexOf(optstring, word[1]);
      if spec == |optstring| {
        return Char('?');
      }
      if spec + 1 < |optstring| && optstring[spec + 1] == ':' {
        if |word| > 2 {
          optarg := Some(word[2..]);
          optind := optind + 1;
          return Char(word[1]);
        }
        optind := optind + 1;
        if optind >= |argv| {
          return Char('?');
        }
        optarg := Some(argv[optind]);
        optind := optind + 1;
        return Char(word[1]);
      } else {
        if |word| > 2 {
          return Char('?');
        }
        optind := optind + 1;
        return Char(word[1]);
      }
    }

    /** The consumer loop: collects options until EOF, giving up on the first '?'.  What the switch then does
        with an option is not modelled: -h prints help and exits, and -L, which the option string allows but
        no case handles, exits as an unrecognized option. */
    method ReadOptions(argv: seq<string>, optstring: string) returns (r: Parse)
      modifies this
      ensures r == ParseFrom(argv, optstring, old(optind)) && r.optind == optind
    {
      var opts := [];
      ghost var start := ParseFrom(argv, optstring, optind);
      while true
        invariant start == Prefixed(opts, ParseFrom(argv, optstring, optind))
        decreases |argv| - optind
      {
        var c := GetOpt(argv, optstring);
        if c == Eof {
          return Parsed(opts, optind);
        }
        if c == Char('?') {
          return Rejected(optind);
        }
        PrefixedTwice(opts, Opt(c.c, optarg), ParseFrom(argv, optstring, optind));
        opts := opts + [Opt(c.c, optarg)];
      }
    }
  }

  /** A call that returns an option moves the cursor by one or two words, within the command line. */
  lemma OptionAdvances(argv: seq<string>, optstring: string, i: nat)
    requires Next(argv, optstring, i).ret.Char? && Next(argv, optstring, i).ret.c != '?'
    ensures var k := Next(argv, optstring, i).optind; (k == i + 1 || k == i + 2) && k <= |argv|
  {
  }

  /** So the loop makes no more calls than there are words. */
  lemma {:induction false} LoopBounded(argv: seq<string>, optstring: string, i: nat)
    requires i <= |argv| && ParseFrom(argv, optstring, i).Parsed?
    ensures i + |ParseFrom(argv, optstring, i).opts| <= ParseFrom(argv, optstring, i).optind <= |argv|
    decreases |argv| - i
  {
    var scan := Next(argv, optstring, i);
    if scan.ret.Eof? {
    } else {
      LoopBounded(argv, optstring, scan.optind);
    }
  }

  /** Options an option string allows, '?' being indistinguishable from an error. */
  predicate Allowed(o: Opt, optstring: string) {
    && Legal(o.name) && o.name != '?' && o.name in optstring
    && (o.value.Some? <==> TakesValue(optstring, o.name))
  }

  /** One option as words, its value attached or in a word of its own. */
  function Words(o: Opt, attached: bool): seq<string> {
    if o.value.None? then [['-', o.name]]
    else if attached then [['-', o.name] + o.value.value]
    else [['-', o.name], o.value.value]
  }

  /** Choices of form that exist: only a nonempty value can be attached. */
  predicate Choices(opts: seq<Opt>, attached: seq<bool>) {
    && |attached| == |opts|
    && forall k :: 0 <= k < |opts| && attached[k] ==> opts[k].value.Some? && opts[k].value.value != ""
  }

  function Render(opts: seq<Opt>, attached: seq<bool>): seq<string>
    requires |attached| == |opts|
  {
    if opts == [] then [] else Words(opts[0], attached[0]) + Render(opts[1..], attached[1..])
  }

  /** What may follow the options: "--" and anything, or nothing that looks like an option. */
  predicate EndsOptions(tail: seq<string>, dashes: bool) {
    if dashes then tail != [] && tail[0] == "--" else tail == [] || !LooksLikeOption(tail[0])
  }

  lemma NextOnOption(pre: seq<string>, o: Opt, attached: bool, rest: seq<string>, optstring: string)
    requires Allowed(o, optstring) && (attached ==> o.value.Some? && o.value.value != "")
    ensures var words := Words(o, attached);
      Next(pre + (words + rest), optstring, |pre|) == Scan(Char(o.name), |pre| + |words|, o.value, Some(o.name))
  {
  }

  lemma ParseOne(pre: seq<string>, o: Opt, attached: bool, rest: seq<string>, optstring: string)
    requires Allowed(o, optstring) && (attached ==> o.value.Some? && o.value.value != "")
    ensures var pre' := pre + Words(o, attached);
      ParseFrom(pre + (Words(o, attached) + rest), optstring, |pre|)
        == Prefixed([o], ParseFrom(pre' + rest, optstring, |pre'|))
  {
    NextOnOption(pre, o, attached, rest, optstring);
    assert pre + (Words(o, attached) + rest) == (pre + Words(o, attached)) + rest;
  }

  lemma {:induction false} ParseRendered(pre: seq<string>, opts: seq<Opt>, attached: seq<bool>, tail: seq<string>,
                                         dashes: bool, optstring: string)
    requires Choices(opts, attached) && EndsOptions(tail, dashes)
    requires forall k :: 0 <= k < |opts| ==> Allowed(opts[k], optstring)
    ensures ParseFrom(pre + (Render(opts, attached) + tail), optstring, |pre|)
      == Parsed(opts, |pre| + |Render(opts, attached)| + if dashes then 1 else 0)
    decreases |opts|
  {
    if opts == [] {
      assert pre + (Render(opts, attached) + tail) == pre + tail;
    } else {
      var words, rest := Words(opts[0], attached[0]), Render(opts[1..], attached[1..]);
      assert Render(opts, attached) + tail == words + (rest + tail);
      ParseOne(pre, opts[0], attached[0], rest + tail, optstring);
      ParseRendered(pre + words, opts[1..], attached[1..], tail, dashes, optstring);
      assert opts == [opts[0]] + opts[1..];
    }
  }

  /** Printing and parsing: any option record, rendered with any choice of forms and an optional "--",
      comes back option for option, with the cursor on the first positional argument. */
  lemma RoundTrip(program: string, opts: seq<Opt>, attached: seq<bool>, dashes: bool, positional: seq<string>,
                  optstring: string)
    requires Choices(opts, attached) && forall k :: 0 <= k < |opts| ==> Allowed(opts[k], optstring)
    requires !dashes && positional != [] ==> !LooksLikeOption(positional[0])
    ensures var words := [program] + Render(opts, attached) + (if dashes then ["--"] else []);
      ParseFrom(words + positional, optstring, 1) == Parsed(opts, |words|)
  {
    var tail := (if dashes then ["--"] else []) + positional;
    ParseRendered([program], opts, attached, tail, dashes, optstring);
    assert [program] + Render(opts, attached) + (if dashes then ["--"] else []) + positional
        == [program] + (Render(opts, attached) + tail);
  }

  lemma OneWord(argv: seq<string>, i: nat)
    requires i < |argv|
    ensures argv[i..i + 1] == [argv[i]]
  {
  }

  lemma SplitWord(word: string)
    requires LooksLikeOption(word)
    ensures word == ['-', word[1]] + word[2..]
    ensures |word| == 2 ==> word == ['-', word[1]]
  {
  }

  /** The words consumed by a call that returned an option. */
  lemma NextConsumes(argv: seq<string>, optstring: string, i: nat)
    requires Next(argv, optstring, i).ret.Char? && Next(argv, optstring, i).ret.c != '?'
    ensures var scan := Next(argv, optstring, i);
      var o, attached := Opt(scan.ret.c, scan.optarg), scan.optarg.Some? && scan.optind == i + 1;
      && i < scan.optind <= |argv| && argv[i..scan.optind] == Words(o, attached)
      && Allowed(o, optstring) && (attached ==> o.value.value != "")
  {
    var scan := Next(argv, optstring, i);
    var word := argv[i];
    SplitWord(word);
    OneWord(argv, i);
    if scan.optind == i + 2 {
      OneWord(argv, i + 1);
      assert argv[i..i + 2] == argv[i..i + 1] + argv[i + 1..i + 2];
    }
  }

  lemma ChoicesCons(o: Opt, attached: bool, opts: seq<Opt>, more: seq<bool>)
    requires Choices(opts, more) && (attached ==> o.value.Some? && o.value.value != "")
    ensures Choices([o] + opts, [attached] + more)
    ensures Render([o] + opts, [attached] + more) == Words(o, attached) + Render(opts, more)
  {
  }

  lemma EofConsumes(argv: seq<string>, optstring: string, i: nat)
    requires i <= |argv| && Next(argv, optstring, i).ret.Eof?
    ensures var k := Next(argv, optstring, i).optind;
      if k == i + 1 then k <= |argv| && argv[i..k] == ["--"] else k == i && EndsOptions(argv[k..], false)
  {
  }

  /** How an accepted command line is put together from position i on. */
  ghost predicate IsRendering(argv: seq<string>, optstring: string, i: nat, p: Parse, attached: seq<bool>, dashes: bool) {
    && p.Parsed? && i <= p.optind <= |argv|
    && Choices(p.opts, attached) && (forall j :: 0 <= j < |p.opts| ==> Allowed(p.opts[j], optstring))
    && argv[i..p.optind] == Render(p.opts, attached) + (if dashes then ["--"] else [])
    && (!dashes ==> EndsOptions(argv[p.optind..], false))
  }

  lemma RenderingCons(argv: seq<string>, optstring: string, i: nat, k: nat, o: Opt, first: bool, p: Parse,
                      more: seq<bool>, dashes: bool)
    requires i <= k <= |argv| && IsRendering(argv, optstring, k, p, more, dashes)
    requires argv[i..k] == Words(o, first) && Allowed(o, optstring)
    requires first ==> o.value.Some? && o.value.value != ""
    ensures IsRendering(argv, optstring, i, Prefixed([o], p), [first] + more, dashes)
  {
    ChoicesCons(o, first, p.opts, more);
    assert argv[i..p.optind] == argv[i..k] + argv[k..p.optind];
  }

  /** Parsing and printing: whatever is accepted is a rendering of the options reported, followed by "--"
      or by nothing that looks like an option. */
  lemma {:induction false} AcceptedIsRendering(argv: seq<string>, optstring: string, i: nat)
    returns (attached: seq<bool>, dashes: bool)
    requires i <= |argv| && ParseFrom(argv, optstring, i).Parsed?
    ensures IsRendering(argv, optstring, i, ParseFrom(argv, optstring, i), attached, dashes)
    decreases |argv| - i
  {
    var scan := Next(argv, optstring, i);
    if scan.ret.Eof? {
      EofConsumes(argv, optstring, i);
      attached, dashes := [], scan.optind == i + 1;
    } else {
      NextConsumes(argv, optstring, i);
      var more;
      more, dashes := AcceptedIsRendering(argv, optstring, scan.optind);
      var first := scan.optarg.Some? && scan.optind == i + 1;
      RenderingCons(argv, optstring, i, scan.optind, Opt(scan.ret.c, scan.optarg), first,
        ParseFrom(argv, optstring, scan.optind), more, dashes);
      attached := [first] + more;
    }
  }

  lemma FirstMention(optstring: string, pre: string, c: char, post: string)
    requires optstring == pre + [c] + post && c !in pre
    ensures IndexOf(optstring, c) == |pre| && optstring[|pre|] == c && optstring[|pre| + 1..] == post
  {
    assert optstring[|pre|] == c;
    assert forall j :: 0 <= j < |pre| ==> optstring[j] == pre[j];
  }

  /** A word that names a listed option.  A colon behind the first mention of the option is what makes it
      take a value: the rest of the word, or else the next word, which must exist; otherwise the word must
      end there. */
  lemma NextListed(argv: seq<string>, i: nat, optstring: string, pre: string, c: char, post: string)
    requires optstring == pre + [c] + post && c !in pre && '!' <= c <= '~' && c !in "-:;"
    requires i < |argv| && |argv[i]| >= 2 && argv[i][0] == '-' && argv[i][1] == c
    ensures var colon, more := post != "" && post[0] == ':', |argv[i]| > 2;
      Next(argv, optstring, i) ==
        if colon && more then Scan(Char(c), i + 1, Some(argv[i][2..]), Some(c))
        else if colon && i + 1 < |argv| then Scan(Char(c), i + 2, Some(argv[i + 1]), Some(c))
        else if colon then Scan(Char('?'), i + 1, None, Some(c))
        else if more then Scan(Char('?'), i, None, Some(c))
        else Scan(Char(c), i + 1, None, Some(c))
  {
    FirstMention(optstring, pre, c, post);
    assert post != "" ==> optstring[|pre| + 1] == post[0];
  }

  /** A word that names anything else is an error, and stays. */
  lemma NextUnlisted(argv: seq<string>, i: nat, optstring: string, c: char)
    requires c !in optstring || !('!' <= c <= '~') || c in "-:;"
    requires i < |argv| && |argv[i]| >= 2 && argv[i][0] == '-' && argv[i][1] == c && argv[i] != "--"
    ensures Next(argv, optstring, i) == Scan(Char('?'), i, None, Some(c))
  {
  }

  /** A word that names nothing ends the options, and only "--" is consumed. */
  lemma NextEnds(argv: seq<string>, i: nat, optstring: string)
    requires i >= |argv| || |argv[i]| < 2 || argv[i][0] != '-' || argv[i] == "--"
    ensures Next(argv, optstring, i) == Scan(Eof, if i < |argv| && argv[i] == "--" then i + 1 else i, None, None)
  {
  }

  /** Which options the round trip is about, by the option string. */
  lemma AllowedIff(o: Opt, optstring: string, pre: string, post: string)
    requires optstring == pre + [o.name] + post && o.name !in pre
    ensures Allowed(o, optstring) <==>
      '!' <= o.name <= '~' && o.name !in "-:;?" && (o.value.Some? <==> post != "" && post[0] == ':')
  {
    FirstMention(optstring, pre, o.name, post);
    assert o.name in optstring;
    assert post != "" ==> optstring[|pre| + 1] == post[0];
  }
}
