/**
 * The stream configuration of an engine pair (`VpcmProperties`): parsed from the words of a
 * `create` command and printed back as options.
 *
 * Options are `--name=value` or `--flag`; any other word names the engine pair. Parsing starts
 * from the defaults, applies the words in order and then validates the result.
 */
module Properties {
  import opened Common
  import opened CString

  datatype Mode = Playback | Record
  datatype SampleFormat = Int16Samples | Float32Samples
  datatype OverflowPolicy = Zeros | Discard | Noise

  /** The enumerators of the configuration structure, as stored in its `int` fields. */
  function ModeCode(m: Mode): int { match m case Playback => 1 case Record => 2 }
  function FormatCode(f: SampleFormat): int { match f case Int16Samples => 0 case Float32Samples => 1 }
  function OverflowCode(o: OverflowPolicy): int { match o case Zeros => 0 case Discard => 1 case Noise => 2 }

  /** The fields of the configuration; `name` is absent until a word names the pair. */
  datatype Props = Props(
    name: Option<string>,
    mode: Mode,
    rate: int,
    channels: int,
    format: SampleFormat,
    byteWidth: int,
    raw: bool,
    bufferFrames: int,
    latencyFrames: int,
    eofOnIdle: bool,
    posixPipe: bool,
    overflow: OverflowPolicy)

  /** Bytes per sample of a format. */
  function Width(f: SampleFormat): int
  {
    if f == Float32Samples then 4 else 2
  }

  /** What a successful parse guarantees. */
  predicate Valid(p: Props)
  {
    && p.name.Some? && p.name.value != []
    && p.rate >= 1 && p.channels >= 1 && p.bufferFrames >= 2
    && p.byteWidth == Width(p.format)
    && p.latencyFrames >= 0
    && (p.posixPipe ==> p.eofOnIdle)
  }

  /** The parser's state: the configuration so far and the latency in milliseconds. */
  datatype Parsing = Parsing(props: Props, latencyMs: int)

  /** The defaults, on the zero-initialised configuration the engine-creation command parses into. */
  function Start(): Parsing
  {
    Parsing(Props(None, Playback, 44100, 2, Float32Samples, 4, false, 16384, 0, true, false, Zeros), 0)
  }

  /**
   * `parseOpt`: a word starting with "--" is an option; its name runs up to the first '=' and its
   * value, if there is an '=', follows it.
   */
  function SplitOpt(arg: string): Option<(string, Option<string>)>
  {
    if |arg| < 2 || arg[0] != '-' || arg[1] != '-' then None
    else
      var r := arg[2..];
      var k := IndexOf(r, '=');
      if k < |r| then Some((r[..k], Some(r[k + 1..]))) else Some((r, None))
  }

  /** A word is an option exactly when it starts with "--"; it is "--name" or "--name=value". */
  lemma SplitOptSpec(arg: string)
    ensures SplitOpt(arg).None? <==> !(|arg| >= 2 && arg[..2] == "--")
    ensures SplitOpt(arg).Some? ==>
      var (o, v) := SplitOpt(arg).value;
      '=' !in o && arg == "--" + o + (if v.Some? then "=" + v.value else [])
  {
    if |arg| >= 2 && arg[..2] == "--" {
      var r := arg[2..];
      var k := IndexOf(r, '=');
      assert arg == "--" + r;
      if k < |r| {
        assert r == r[..k] + "=" + r[k + 1..];
      }
    }
  }

  /** `--name=value` splits at its first '='. */
  lemma SplitOptValue(o: string, v: string)
    requires '=' !in o
    ensures SplitOpt("--" + o + "=" + v) == Some((o, Some(v)))
  {
    var arg := "--" + o + "=" + v;
    assert arg[2..] == o + "=" + v;
    IndexOfFirst(o, v, '=');
    assert arg[2..][..|o|] == o && arg[2..][|o| + 1..] == v;
  }

  /** `--name` without '=' is a flag. */
  lemma SplitOptFlag(o: string)
    requires '=' !in o
    ensures SplitOpt("--" + o) == Some((o, None))
  {
    assert ("--" + o)[2..] == o;
    NotInIndexOf(o, '=');
  }

  lemma NotInIndexOf(s: string, c: char)
    requires c !in s
    ensures IndexOf(s, c) == |s|
  {
  }

  lemma {:induction false} IndexOfFirst(x: string, y: string, c: char)
    requires c !in x
    ensures IndexOf(x + [c] + y, c) == |x|
  {
    if x != [] {
      assert (x + [c] + y)[1..] == x[1..] + [c] + y;
      IndexOfFirst(x[1..], y, c);
    }
  }

  /** A word that is not an option names the engine pair. */
  function SetName(st: Parsing, arg: string): Parsing
  {
    st.(props := st.props.(name := Some(arg)))
  }

  /** `--option=value`: integer options take the `%d` reading of the value (0 if none). */
  function ApplyValue(st: Parsing, option: string, value: string): Result<Parsing>
  {
    var d := ScanInt(value);
    var p := st.props;
    if option == "rate" then Ok(st.(props := p.(rate := d)))
    else if option == "channels" then Ok(st.(props := p.(channels := d)))
    else if option == "latency-msec" then Ok(st.(latencyMs := d))
    else if option == "buffer-frames" then Ok(st.(props := p.(bufferFrames := d)))
    else if option == "format" then
      if value == "s16" || value == "s16le" || value == "s16ne" then Ok(st.(props := p.(format := Int16Samples)))
      else if value == "float32" || value == "float32le" || value == "float32ne" then Ok(st.(props := p.(format := Float32Samples)))
      else Err(EINVAL)
    else if option == "overflow" then
      if value == "zeros" then Ok(st.(props := p.(overflow := Zeros)))
      else if value == "noise" then Ok(st.(props := p.(overflow := Noise)))
      else if value == "discard" then Ok(st.(props := p.(overflow := Discard)))
      else Err(EINVAL)
    else if option == "raw" then Ok(st.(props := p.(raw := d != 0)))
    else if option == "eof-on-idle" then Ok(st.(props := p.(eofOnIdle := d != 0)))
    else Err(EINVAL)
  }

  /** `--flag` without a value. */
  function ApplyFlag(st: Parsing, option: string): Result<Parsing>
  {
    var p := st.props;
    if option == "playback" then Ok(st.(props := p.(mode := Playback)))
    else if option == "record" then Ok(st.(props := p.(mode := Record)))
    else if option == "raw" then Ok(st.(props := p.(raw := true)))
    else if option == "eof-on-idle" then Ok(st.(props := p.(eofOnIdle := true)))
    else if option == "no-eof-on-idle" then Ok(st.(props := p.(eofOnIdle := false)))
    else if option == "posix-pipe" then Ok(st.(props := p.(posixPipe := true)))
    else Err(EINVAL)
  }

  function ApplyOption(st: Parsing, option: string, value: Option<string>): Result<Parsing>
  {
    if value.Some? then ApplyValue(st, option, value.value) else ApplyFlag(st, option)
  }

  /** One word of the argument vector. */
  function Step(st: Parsing, arg: string): Result<Parsing>
  {
    match SplitOpt(arg)
    case None => Ok(SetName(st, arg))
    case Some((option, value)) => ApplyOption(st, option, value)
  }

  /** The words in order, stopping at the first error. */
  function Fold(st: Parsing, args: seq<string>): Result<Parsing>
    decreases |args|
  {
    if args == [] then Ok(st)
    else match Step(st, args[0])
      case Err(e) => Err(e)
      case Ok(next) => Fold(next, args[1..])
  }

  /** C's `( latencyMs * rate + 1 ) / 1000`. */
  function LatencyFrames(latencyMs: int, rate: int): int
  {
    CDiv(latencyMs * rate + 1, 1000)
  }

  /** The checks after the last word, the sample width and the frame latency. */
  function Validate(st: Parsing): Result<Props>
  {
    var p := st.props;
    if p.name.None? || p.name.value == [] then Err(EINVAL)
    else if p.rate < 1 then Err(EINVAL)
    else if p.channels < 1 then Err(EINVAL)
    else if p.bufferFrames < 2 then Err(EINVAL)
    else
      var frames := LatencyFrames(st.latencyMs, p.rate);
      if frames < 0 then Err(EINVAL)
      else Ok(p.(byteWidth := Width(p.format), latencyFrames := frames, eofOnIdle := p.eofOnIdle || p.posixPipe))
  }

  /** `VpcmProperties::parse` of the words after `argv[0]`. */
  function ParseArgs(args: seq<string>): Result<Props>
  {
    match Fold(Start(), args)
    case Err(e) => Err(e)
    case Ok(st) => Validate(st)
  }

  // ---------------------------------------------------------------------------------------------
  // Properties of the parser

  /** Validation succeeds exactly when the checks pass, and then fixes width and latency. */
  lemma ValidateSpec(st: Parsing)
    ensures Validate(st).Ok? <==>
      && st.props.name.Some? && st.props.name.value != []
      && st.props.rate >= 1 && st.props.channels >= 1 && st.props.bufferFrames >= 2
      && LatencyFrames(st.latencyMs, st.props.rate) >= 0
    ensures Validate(st).Err? ==> Validate(st).code == EINVAL
    ensures Validate(st).Ok? ==>
      var p := Validate(st).value;
      && Valid(p)
      && p.latencyFrames == LatencyFrames(st.latencyMs, st.props.rate)
      && p == st.props.(byteWidth := Width(st.props.format), latencyFrames := p.latencyFrames,
                        eofOnIdle := st.props.eofOnIdle || st.props.posixPipe)
  {
  }

  /** Every error a word can cause is EINVAL. */
  lemma {:induction false} FoldErrors(st: Parsing, args: seq<string>)
    ensures Fold(st, args).Err? ==> Fold(st, args).code == EINVAL
    decreases |args|
  {
    if args != [] && Step(st, args[0]).Ok? {
      FoldErrors(Step(st, args[0]).value, args[1..]);
    }
  }

  /** A parse either yields a configuration with all guarantees or fails with EINVAL. */
  lemma ParseOutcome(args: seq<string>)
    ensures ParseArgs(args).Ok? ==> Valid(ParseArgs(args).value)
    ensures ParseArgs(args).Err? ==> ParseArgs(args).code == EINVAL
  {
    FoldErrors(Start(), args);
    if Fold(Start(), args).Ok? {
      ValidateSpec(Fold(Start(), args).value);
    }
  }

  /** Folding over two parts folds over the first and then the second. */
  lemma {:induction false} FoldAppend(st: Parsing, a: seq<string>, b: seq<string>)
    ensures Fold(st, a + b) == match Fold(st, a) case Err(e) => Err(e) case Ok(mid) => Fold(mid, b)
    decreases |a|
  {
    if a == [] {
      assert a + b == b;
    } else {
      assert (a + b)[0] == a[0] && (a + b)[1..] == a[1..] + b;
      if Step(st, a[0]).Ok? {
        FoldAppend(Step(st, a[0]).value, a[1..], b);
      }
    }
  }

  /** A name alone gives the defaults under that name. */
  lemma Defaults(name: string)
    requires name != [] && SplitOpt(name).None?
    ensures ParseArgs([name]) == Ok(Props(Some(name), Playback, 44100, 2, Float32Samples, 4, false, 16384, 0, true, false, Zeros))
  {
    assert [name][1..] == [];
    assert Fold(Start(), [name]) == Ok(SetName(Start(), name));
    assert LatencyFrames(0, 44100) == 0;
  }

  /** Options never change the name. */
  lemma StepKeepsName(st: Parsing, arg: string)
    requires SplitOpt(arg).Some? && Step(st, arg).Ok?
    ensures Step(st, arg).value.props.name == st.props.name
  {
    var (option, value) := SplitOpt(arg).value;
    if value.Some? {
      ValueKeepsName(st, option, value.value);
    } else {
      FlagKeepsName(st, option);
    }
  }

  lemma ValueKeepsName(st: Parsing, option: string, value: string)
    ensures ApplyValue(st, option, value).Ok? ==> ApplyValue(st, option, value).value.props.name == st.props.name
  {
  }

  lemma FlagKeepsName(st: Parsing, option: string)
    ensures ApplyFlag(st, option).Ok? ==> ApplyFlag(st, option).value.props.name == st.props.name
  {
  }

  /** The last word that is not an option names the pair. */
  lemma {:induction false} LastNameWins(st: Parsing, pre: seq<string>, name: string, opts: seq<string>)
    requires SplitOpt(name).None?
    requires forall i :: 0 <= i < |opts| ==> SplitOpt(opts[i]).Some?
    requires Fold(st, pre).Ok?
    ensures Fold(st, pre + [name] + opts).Ok? ==> Fold(st, pre + [name] + opts).value.props.name == Some(name)
  {
    FoldAppend(st, pre, [name] + opts);
    assert pre + [name] + opts == pre + ([name] + opts);
    var mid := Fold(st, pre).value;
    assert ([name] + opts)[0] == name && ([name] + opts)[1..] == opts;
    OptionsKeepName(SetName(mid, name), opts);
  }

  lemma {:induction false} OptionsKeepName(st: Parsing, opts: seq<string>)
    requires forall i :: 0 <= i < |opts| ==> SplitOpt(opts[i]).Some?
    ensures Fold(st, opts).Ok? ==> Fold(st, opts).value.props.name == st.props.name
    decreases |opts|
  {
    if opts != [] && Step(st, opts[0]).Ok? {
      StepKeepsName(st, opts[0]);
      OptionsKeepName(Step(st, opts[0]).value, opts[1..]);
    }
  }

  /** One bad word makes the whole parse fail with EINVAL, whatever follows it. */
  lemma {:induction false} BadWordFails(pre: seq<string>, bad: string, post: seq<string>)
    requires Fold(Start(), pre).Ok? && Step(Fold(Start(), pre).value, bad).Err?
    ensures ParseArgs(pre + [bad] + post) == Err(EINVAL)
  {
    FoldAppend(Start(), pre, [bad] + post);
    assert pre + [bad] + post == pre + ([bad] + post);
    assert ([bad] + post)[0] == bad;
    FoldErrors(Start(), pre + [bad] + post);
  }

  /** An option name outside the value options rejects `--name=value`. */
  lemma UnknownValueOption(st: Parsing, o: string, v: string)
    requires '=' !in o && !IsValueOption(o)
    ensures Step(st, "--" + o + "=" + v) == Err(EINVAL)
  {
    SplitOptValue(o, v);
  }

  /** An option name outside the flags rejects `--name`; so a value option needs its value. */
  lemma UnknownFlag(st: Parsing, o: string)
    requires '=' !in o && !IsFlagOption(o)
    ensures Step(st, "--" + o) == Err(EINVAL)
  {
    SplitOptFlag(o);
  }

  /** Sample formats outside the listed names are rejected. */
  lemma UnknownFormat(st: Parsing, v: string)
    requires v !in {"s16", "s16le", "s16ne", "float32", "float32le", "float32ne"}
    ensures Step(st, "--format=" + v) == Err(EINVAL)
  {
    assert "--format=" + v == "--" + "format" + "=" + v;
    SplitOptValue("format", v);
  }

  /** Overflow policies outside the listed names are rejected. */
  lemma UnknownPolicy(st: Parsing, v: string)
    requires v !in {"zeros", "noise", "discard"}
    ensures Step(st, "--overflow=" + v) == Err(EINVAL)
  {
    assert "--overflow=" + v == "--" + "overflow" + "=" + v;
    SplitOptValue("overflow", v);
  }

  predicate IsValueOption(o: string)
  {
    o in {"rate", "channels", "latency-msec", "buffer-frames", "format", "overflow", "raw", "eof-on-idle"}
  }

  predicate IsFlagOption(o: string)
  {
    o in {"playback", "record", "raw", "eof-on-idle", "no-eof-on-idle", "posix-pipe"}
  }

  // ---------------------------------------------------------------------------------------------
  // The printer

  /** One rendered option: a flag or `name=value`. */
  datatype Item = Flag(option: string) | Assign(option: string, value: string)

  function ItemText(it: Item): string
  {
    match it
    case Flag(o) => o
    case Assign(o, v) => o + "=" + v
  }

  function ModeName(m: Mode): string { match m case Playback => "playback" case Record => "record" }
  function FormatName(f: SampleFormat): string { match f case Int16Samples => "s16le" case Float32Samples => "float32le" }
  function OverflowName(o: OverflowPolicy): string { match o case Zeros => "zeros" case Noise => "noise" case Discard => "discard" }

  /** The latency printed back in milliseconds; 0 when the rate is 0. */
  function LatencyMsec(p: Props): int
  {
    if p.rate == 0 then 0 else CQuot(p.latencyFrames * 1000, p.rate)
  }

  /** The options `print` renders, in its fixed order. */
  function Items(p: Props): seq<Item>
  {
    Settings(p) + Trailer(p)
  }

  /** The options always printed. */
  function Settings(p: Props): seq<Item>
  {
    [ Flag(ModeName(p.mode)),
      Assign("rate", FormatInt(p.rate)),
      Assign("channels", FormatInt(p.channels)),
      Assign("buffer-frames", FormatInt(p.bufferFrames)),
      Assign("latency-msec", FormatInt(LatencyMsec(p))),
      Assign("format", FormatName(p.format)),
      Assign("overflow", OverflowName(p.overflow)) ]
  }

  /** The flags printed only when they differ from the defaults. */
  function Trailer(p: Props): seq<Item>
  {
    (if p.raw then [Flag("raw")] else [])
    + (if p.posixPipe then [Flag("posix-pipe")] else if !p.eofOnIdle then [Flag("no-eof-on-idle")] else [])
  }

  function Render(sep: string, items: seq<Item>): string
  {
    if items == [] then [] else sep + ItemText(items[0]) + Render(sep, items[1..])
  }

  /** `VpcmProperties::print`: every option preceded by the separator, " --" when none is given. */
  function Print(p: Props, sep: Option<string>): string
  {
    Render(if sep.None? then " --" else sep.value, Items(p))
  }

  /** The printed options as words of a command line. */
  function Words(p: Props): seq<string>
  {
    WordsOf(Items(p))
  }

  function WordsOf(items: seq<Item>): seq<string>
  {
    if items == [] then [] else ["--" + ItemText(items[0])] + WordsOf(items[1..])
  }

  /** With the default separator the output is the option words, each after a space. */
  lemma {:induction false} RenderDefault(items: seq<Item>)
    ensures Render(" --", items) == Spaced(WordsOf(items))
    decreases |items|
  {
    if items != [] {
      RenderDefault(items[1..]);
      assert " --" + ItemText(items[0]) == " " + ("--" + ItemText(items[0]));
      assert WordsOf(items)[0] == "--" + ItemText(items[0]) && WordsOf(items)[1..] == WordsOf(items[1..]);
    }
  }

  /** Applying the rendered options one by one. */
  function ApplyItems(st: Parsing, items: seq<Item>): Result<Parsing>
    decreases |items|
  {
    if items == [] then Ok(st)
    else match ApplyOption(st, items[0].option, if items[0].Assign? then Some(items[0].value) else None)
      case Err(e) => Err(e)
      case Ok(next) => ApplyItems(next, items[1..])
  }

  /** Parsing a printed option word applies that option. */
  lemma {:induction false} FoldWords(st: Parsing, items: seq<Item>)
    requires forall i :: 0 <= i < |items| ==> '=' !in items[i].option
    ensures Fold(st, WordsOf(items)) == ApplyItems(st, items)
    decreases |items|
  {
    if items != [] {
      var it := items[0];
      var w := "--" + ItemText(it);
      if it.Assign? {
        assert w == "--" + it.option + "=" + it.value;
        SplitOptValue(it.option, it.value);
      } else {
        SplitOptFlag(it.option);
      }
      assert WordsOf(items)[0] == w && WordsOf(items)[1..] == WordsOf(items[1..]);
      var r := ApplyOption(st, it.option, if it.Assign? then Some(it.value) else None);
      assert Step(st, w) == r;
      if r.Ok? {
        FoldWords(r.value, items[1..]);
      }
    }
  }

  /** One successfully applied item, then the rest. */
  lemma ApplyCons(st: Parsing, it: Item, rest: seq<Item>, next: Parsing)
    requires ApplyOption(st, it.option, if it.Assign? then Some(it.value) else None) == Ok(next)
    ensures ApplyItems(st, [it] + rest) == ApplyItems(next, rest)
  {
    assert ([it] + rest)[0] == it && ([it] + rest)[1..] == rest;
  }

  /** An integer printed with `%d` and read back as an option value. */
  lemma ApplyInt(st: Parsing, option: string, n: int)
    ensures option == "rate" ==> ApplyValue(st, option, FormatInt(n)) == Ok(st.(props := st.props.(rate := n)))
    ensures option == "channels" ==> ApplyValue(st, option, FormatInt(n)) == Ok(st.(props := st.props.(channels := n)))
    ensures option == "buffer-frames" ==> ApplyValue(st, option, FormatInt(n)) == Ok(st.(props := st.props.(bufferFrames := n)))
    ensures option == "latency-msec" ==> ApplyValue(st, option, FormatInt(n)) == Ok(st.(latencyMs := n))
  {
    ScanFormatInt(n);
  }

  /** The printed names of mode, format and policy are read back as the same values. */
  lemma ApplyNames(st: Parsing, p: Props)
    ensures ApplyFlag(st, ModeName(p.mode)) == Ok(st.(props := st.props.(mode := p.mode)))
    ensures ApplyValue(st, "format", FormatName(p.format)) == Ok(st.(props := st.props.(format := p.format)))
    ensures ApplyValue(st, "overflow", OverflowName(p.overflow)) == Ok(st.(props := st.props.(overflow := p.overflow)))
  {
  }

  /** Applying two runs of items applies the first and then the second. */
  lemma {:induction false} ApplyAppend(st: Parsing, a: seq<Item>, b: seq<Item>)
    ensures ApplyItems(st, a + b) == match ApplyItems(st, a) case Err(e) => Err(e) case Ok(mid) => ApplyItems(mid, b)
    decreases |a|
  {
    if a == [] {
      assert a + b == b;
    } else {
      assert (a + b)[0] == a[0] && (a + b)[1..] == a[1..] + b;
      var r := ApplyOption(st, a[0].option, if a[0].Assign? then Some(a[0].value) else None);
      if r.Ok? {
        ApplyAppend(r.value, a[1..], b);
      }
    }
  }

  /** The trailing flags: `raw`, then `posix-pipe` or `no-eof-on-idle`. */
  lemma ApplyTrailer(st: Parsing, p: Props)
    ensures ApplyItems(st, Trailer(p)) == Ok(st.(props := st.props.(
      raw := p.raw || st.props.raw,
      posixPipe := p.posixPipe || st.props.posixPipe,
      eofOnIdle := if p.posixPipe || p.eofOnIdle then st.props.eofOnIdle else false)))
  {
    var extra := if p.posixPipe then [Flag("posix-pipe")] else if !p.eofOnIdle then [Flag("no-eof-on-idle")] else [];
    var s8 := if p.raw then st.(props := st.props.(raw := true)) else st;
    if p.raw {
      ApplyCons(st, Flag("raw"), extra, s8);
    } else {
      assert Trailer(p) == extra;
    }
    if extra != [] {
      assert extra == [extra[0]] + [];
      assert ApplyItems(s8, extra) == ApplyItems(s8, [extra[0]] + []);
    }
  }

  /** The first four options always printed: the mode, the rate, the channels and the buffer frames. */
  lemma ApplySettingsHead(st: Parsing, p: Props)
    ensures ApplyItems(st, Settings(p)[..4]) == Ok(st.(props := st.props.(
      mode := p.mode, rate := p.rate, channels := p.channels, bufferFrames := p.bufferFrames)))
  {
    var items := [Flag(ModeName(p.mode)), Assign("rate", FormatInt(p.rate)), Assign("channels", FormatInt(p.channels)),
                  Assign("buffer-frames", FormatInt(p.bufferFrames))];
    assert Settings(p)[..4] == items;
    var s1 := st.(props := st.props.(mode := p.mode));
    var s2 := s1.(props := s1.props.(rate := p.rate));
    var s3 := s2.(props := s2.props.(channels := p.channels));
    var s4 := s3.(props := s3.props.(bufferFrames := p.bufferFrames));
    ApplyNames(st, p);
    ApplyInt(s1, "rate", p.rate);
    ApplyInt(s2, "channels", p.channels);
    ApplyInt(s3, "buffer-frames", p.bufferFrames);
    ApplyCons(st, items[0], items[1..], s1);
    assert items[1..] == [items[1]] + items[2..];
    ApplyCons(s1, items[1], items[2..], s2);
    assert items[2..] == [items[2]] + items[3..];
    ApplyCons(s2, items[2], items[3..], s3);
    assert items[3..] == [items[3]] + [];
    ApplyCons(s3, items[3], [], s4);
  }

  /** The last three options always printed: the latency, the format and the overflow policy. */
  lemma ApplySettingsTail(st: Parsing, p: Props)
    ensures ApplyItems(st, Settings(p)[4..]) == Ok(Parsing(st.props.(
      format := p.format, overflow := p.overflow), LatencyMsec(p)))
  {
    var items := Settings(p)[4..];
    var s5 := st.(latencyMs := LatencyMsec(p));
    var s6 := s5.(props := s5.props.(format := p.format));
    var s7 := s6.(props := s6.props.(overflow := p.overflow));
    ApplyInt(st, "latency-msec", LatencyMsec(p));
    ApplyNames(s5, p);
    ApplyNames(s6, p);
    ApplyCons(st, items[0], items[1..], s5);
    ApplyCons(s5, items[1], items[2..], s6);
    ApplyCons(s6, items[2], [], s7);
  }

  /** The options always printed set the fields they name. */
  lemma ApplySettings(st: Parsing, p: Props)
    ensures ApplyItems(st, Settings(p)) == Ok(Parsing(st.props.(
      mode := p.mode, rate := p.rate, channels := p.channels, bufferFrames := p.bufferFrames,
      format := p.format, overflow := p.overflow), LatencyMsec(p)))
  {
    var items := Settings(p);
    assert items == items[..4] + items[4..];
    ApplyAppend(st, items[..4], items[4..]);
    ApplySettingsHead(st, p);
    ApplySettingsTail(st.(props := st.props.(
      mode := p.mode, rate := p.rate, channels := p.channels, bufferFrames := p.bufferFrames)), p);
  }

  /** Reading back what was printed. */
  lemma ApplyPrinted(st: Parsing, p: Props)
    ensures ApplyItems(st, Items(p)) == Ok(Parsing(st.props.(
      mode := p.mode, rate := p.rate, channels := p.channels, bufferFrames := p.bufferFrames,
      format := p.format, overflow := p.overflow, raw := p.raw || st.props.raw,
      posixPipe := p.posixPipe || st.props.posixPipe,
      eofOnIdle := if p.posixPipe || p.eofOnIdle then st.props.eofOnIdle else false),
      LatencyMsec(p)))
  {
    ApplyAppend(st, Settings(p), Trailer(p));
    ApplySettings(st, p);
    var mid := Parsing(st.props.(
      mode := p.mode, rate := p.rate, channels := p.channels, bufferFrames := p.bufferFrames,
      format := p.format, overflow := p.overflow), LatencyMsec(p));
    ApplyTrailer(mid, p);
  }

  /** The option names that are printed hold no '='. */
  lemma OptionNamesPlain()
    ensures '=' !in "playback" && '=' !in "record" && '=' !in "rate" && '=' !in "channels"
    ensures '=' !in "buffer-frames" && '=' !in "latency-msec" && '=' !in "format" && '=' !in "overflow"
    ensures '=' !in "raw" && '=' !in "posix-pipe" && '=' !in "no-eof-on-idle"
  {
  }

  lemma SettingsOptionsPlain(p: Props)
    ensures forall i :: 0 <= i < |Settings(p)| ==> '=' !in Settings(p)[i].option
  {
    OptionNamesPlain();
    var a := Settings(p);
    assert a[0].option == ModeName(p.mode);
  }

  lemma TrailerOptionsPlain(p: Props)
    ensures forall i :: 0 <= i < |Trailer(p)| ==> '=' !in Trailer(p)[i].option
  {
    OptionNamesPlain();
  }

  /** No printed option name contains '='. */
  lemma ItemOptionsPlain(p: Props)
    ensures forall i :: 0 <= i < |Items(p)| ==> '=' !in Items(p)[i].option
  {
    var a, b := Settings(p), Trailer(p);
    SettingsOptionsPlain(p);
    TrailerOptionsPlain(p);
    assert forall i :: 0 <= i < |a + b| ==> (a + b)[i] == if i < |a| then a[i] else b[i - |a|];
  }

  /** Only the frame latency can change between a configuration and the parse of its printout. */
  lemma ParsePrinted(p: Props)
    requires Valid(p) && SplitOpt(p.name.value).None?
    ensures var r := ParseArgs([p.name.value] + Words(p));
      && r.Ok?
      && r.value == p.(latencyFrames := r.value.latencyFrames)
      && r.value.latencyFrames == LatencyFrames(LatencyMsec(p), p.rate)
  {
    var name := p.name.value;
    var st := SetName(Start(), name);
    FoldAppend(Start(), [name], Words(p));
    assert [name][1..] == [];
    assert Fold(Start(), [name]) == Ok(st);
    ItemOptionsPlain(p);
    var mid := Parsing(st.props.(
      mode := p.mode, rate := p.rate, channels := p.channels, bufferFrames := p.bufferFrames,
      format := p.format, overflow := p.overflow, raw := p.raw, posixPipe := p.posixPipe,
      eofOnIdle := p.eofOnIdle), LatencyMsec(p));
    assert Fold(Start(), [name] + Words(p)) == Ok(mid) by {
      FoldWords(st, Items(p));
      ApplyPrinted(st, p);
    }
    LatencyNotIncreased(p);
    ValidateSpec(mid);
  }

  /** The latency read back is never more than the latency printed, and equal when it is exact. */
  lemma LatencyNotIncreased(p: Props)
    requires p.rate >= 1 && p.latencyFrames >= 0
    ensures 0 <= LatencyFrames(LatencyMsec(p), p.rate) <= p.latencyFrames
    ensures (p.latencyFrames * 1000) % p.rate == 0 ==> LatencyFrames(LatencyMsec(p), p.rate) == p.latencyFrames
  {
    var l, r := p.latencyFrames, p.rate;
    var ms := (l * 1000) / r;
    assert LatencyMsec(p) == ms;
    assert ms * r <= l * 1000 by {
      assert l * 1000 == r * ms + (l * 1000) % r;
    }
    assert ms * r + 1 <= l * 1000 + 1;
    DivMonotone(ms * r + 1, l * 1000 + 1, 1000);
    DivUnique(l * 1000 + 1, 1000, l, 1);
    if (l * 1000) % r == 0 {
      assert ms * r == l * 1000;
    }
  }

  lemma DivMonotone(a: nat, b: nat, d: nat)
    requires a <= b && d > 0
    ensures a / d <= b / d
  {
    var qa, qb := a / d, b / d;
    assert a == d * qa + a % d && b == d * qb + b % d;
    if qa > qb {
      MulMonotone(d, qb + 1, qa);
    }
  }

  // ---------------------------------------------------------------------------------------------
  // Parsing the words of a packed argument vector in place

  /**
   * `parseOpt` on the word `t` held at `buf[at]`: an option's name starts after "--"; the first '='
   * is overwritten with NUL so that the name ends there, and the value starts after it.
   */
  method ParseOpt(buf: array<char>, at: nat, ghost t: string)
    returns (isOpt: bool, option: nat, hasValue: bool, value: nat, ghost o: string, ghost v: string)
    requires HoldsAt(buf[..], at, t + [NUL]) && NUL !in t
    modifies buf
    ensures isOpt <==> SplitOpt(t).Some?
    ensures isOpt ==> SplitOpt(t) == Some((o, if hasValue then Some(v) else None))
    ensures isOpt ==> option == at + 2 && HoldsAt(buf[..], option, o + [NUL]) && NUL !in o
    ensures isOpt && hasValue ==>
      && value == option + |o| + 1 && HoldsAt(buf[..], value, v + [NUL]) && NUL !in v
      && value <= at + |t| && old(buf[value - 1]) == '=' && buf[..] == old(buf[..])[value - 1 := NUL]
    ensures !(isOpt && hasValue) ==> unchanged(buf)
  {
    OptPrefix(buf[..], at, t);
    if buf[at] != '-' {
      return false, 0, false, 0, [], [];
    }
    if buf[at + 1] != '-' {
      return false, 0, false, 0, [], [];
    }
    OptRest(buf[..], at, t);
    var p := FindEquals(buf, at + 2, t[2..]);
    if buf[p] == NUL {
      OptFlag(buf[..], at, t);
      return true, at + 2, false, 0, t[2..], [];
    }
    ghost var k := p - at - 2;
    EndName(buf, at, t, p);
    return true, at + 2, true, p + 1, t[2..][..k], t[2..][k + 1..];
  }

  /** `*p++ = 0`: the '=' after an option's name becomes its terminator. */
  method EndName(buf: array<char>, at: nat, ghost t: string, p: nat)
    requires |t| >= 2 && HoldsAt(buf[..], at + 2, t[2..] + [NUL]) && NUL !in t[2..]
    requires SplitOpt(t).Some? && IndexOf(t[2..], '=') < |t| - 2 && p == at + 2 + IndexOf(t[2..], '=')
    modifies buf
    ensures p < buf.Length && old(buf[p]) == '=' && buf[..] == old(buf[..])[p := NUL]
    ensures var r := t[2..]; var k := p - at - 2;
      && SplitOpt(t) == Some((r[..k], Some(r[k + 1..])))
      && HoldsAt(buf[..], at + 2, r[..k] + [NUL]) && HoldsAt(buf[..], p + 1, r[k + 1..] + [NUL])
  {
    HoldsHead(buf[..], at + 2, t[2..], []);
    buf[p] := NUL;
    OptValue(old(buf[..]), at, t, buf[..]);
  }

  /** Whether the word starts with "--", read from the buffer without passing its NUL. */
  lemma OptPrefix(s: seq<char>, at: nat, t: string)
    requires HoldsAt(s, at, t + [NUL]) && NUL !in t
    ensures at < |s| && (s[at] == '-' ==> at + 1 < |s|)
    ensures (s[at] == '-' && s[at + 1] == '-') <==> SplitOpt(t).Some?
  {
    HoldsHead(s, at, t, []);
  }

  /** What follows "--" is held right after it. */
  lemma OptRest(s: seq<char>, at: nat, t: string)
    requires HoldsAt(s, at, t + [NUL]) && NUL !in t && |t| >= 2
    ensures HoldsAt(s, at + 2, t[2..] + [NUL]) && NUL !in t[2..]
  {
    assert (t + [NUL])[2..] == t[2..] + [NUL];
    assert s[at + 2..at + 2 + |t[2..] + [NUL]|] == s[at..at + |t + [NUL]|][2..];
  }

  /** A flag's name is the whole rest of the word. */
  lemma OptFlag(s: seq<char>, at: nat, t: string)
    requires |t| >= 2 && SplitOpt(t).Some? && IndexOf(t[2..], '=') == |t| - 2
    ensures SplitOpt(t) == Some((t[2..], None))
  {
  }

  /** Ending the name at the first '=' splits the rest into name and value. */
  lemma OptValue(s: seq<char>, at: nat, t: string, s': seq<char>)
    requires |t| >= 2 && HoldsAt(s, at + 2, t[2..] + [NUL]) && NUL !in t[2..]
    requires SplitOpt(t).Some? && IndexOf(t[2..], '=') < |t| - 2
    requires s' == s[at + 2 + IndexOf(t[2..], '=') := NUL]
    ensures var r := t[2..]; var k := IndexOf(r, '=');
      && SplitOpt(t) == Some((r[..k], Some(r[k + 1..])))
      && HoldsAt(s', at + 2, r[..k] + [NUL]) && HoldsAt(s', at + 3 + k, r[k + 1..] + [NUL])
  {
    HoldsCut(s, at + 2, t[2..], IndexOf(t[2..], '='), s');
  }

  /** Writing a NUL at position k of a terminated string held in the buffer cuts it into two terminated strings. */
  lemma HoldsCut(s: seq<char>, at: nat, r: string, k: nat, s': seq<char>)
    requires HoldsAt(s, at, r + [NUL]) && k < |r| && s' == s[at + k := NUL]
    ensures HoldsAt(s', at, r[..k] + [NUL]) && HoldsAt(s', at + k + 1, r[k + 1..] + [NUL])
  {
    var w := r + [NUL];
    var a, b := r[..k], r[k + 1..];
    assert a + [NUL] + b + [NUL] == w[k := NUL];
    SliceUpdate(s, at, at + |w|, at + k, NUL);
    assert HoldsAt(s', at, a + [NUL] + b + [NUL]);
    assert a + [NUL] + b + [NUL] == (a + [NUL]) + (b + [NUL]);
    HoldsPrefix(s', at, a + [NUL], b + [NUL]);
    HoldsSuffix(s', at, a + [NUL], b + [NUL]);
  }

  lemma HoldsPrefix(s: seq<char>, at: nat, x: seq<char>, y: seq<char>)
    requires HoldsAt(s, at, x + y)
    ensures HoldsAt(s, at, x)
  {
    assert s[at..at + |x|] == s[at..at + |x| + |y|][..|x|];
  }

  lemma SliceUpdate(s: seq<char>, a: nat, b: nat, j: nat, c: char)
    requires a <= j < b <= |s|
    ensures s[j := c][a..b] == s[a..b][j - a := c]
  {
  }

  /** `while( *p && *p != '=' ) ++p`: the index of the first '=' or of the terminating NUL. */
  method FindEquals(buf: array<char>, from: nat, ghost r: string) returns (p: nat)
    requires HoldsAt(buf[..], from, r + [NUL]) && NUL !in r
    ensures p == from + IndexOf(r, '=') && p < buf.Length
    ensures buf[p] == NUL <==> p == from + |r|
    ensures buf[..] == old(buf[..])
  {
    HoldsHead(buf[..], from, r, []);
    p := from;
    while buf[p] != NUL && buf[p] != '='
      invariant from <= p <= from + |r|
      invariant '=' !in r[..p - from]
      decreases from + |r| - p
    {
      assert r[..p + 1 - from] == r[..p - from] + [r[p - from]];
      p := p + 1;
    }
    IndexOfAt(r, '=', p - from);
  }

  /** The first '=' is at k when none comes before it and `s[k]` is one. */
  lemma {:induction false} IndexOfAt(s: string, c: char, k: nat)
    requires k <= |s| && c !in s[..k] && (k < |s| ==> s[k] == c)
    ensures IndexOf(s, c) == k
  {
    if k > 0 {
      assert s[0] == s[..k][0];
      assert s[1..][..k - 1] == s[..k][1..];
      IndexOfAt(s[1..], c, k - 1);
    }
  }

  /** A write before a region leaves the region in place. */
  lemma HoldsAfterWrite(s: seq<char>, j: nat, c: char, at: nat, region: seq<char>)
    requires HoldsAt(s, at, region) && j < at
    ensures HoldsAt(s[j := c], at, region)
  {
    assert s[j := c][at..at + |region|] == s[at..at + |region|];
  }

  /**
   * `VpcmProperties::parse` of a packed argument vector: `argv[0]` is skipped and the other words are
   * applied in order; an option's '=' is overwritten in the buffer as `ParseOpt` does.
   */
  method Parse(buf: array<char>, argc: nat, argv: array<nat>, ghost toks: seq<string>) returns (r: Result<Props>)
    requires argc == argv.Length && Packed(buf[..], argv[..], toks)
    modifies buf
    ensures argc >= 1 ==> r == ParseArgs(toks[1..])
    ensures argc == 0 ==> r == ParseArgs([])
    ensures EqualsCleared(old(buf[..]), buf[..])
  {
    ghost var args: seq<string> := if argc >= 1 then toks[1..] else [];
    var st := Start();
    var k := 1;
    if argc >= 1 {
      HoldsRest(buf[..], toks, 1);
    } else {
      k := 0;
    }
    while k < argc
      invariant (argc >= 1 ==> 1 <= k) && k <= argc
      invariant HoldsAt(buf[..], Offset(toks, k), Flatten(toks[k..]))
      invariant Fold(st, toks[k..]) == Fold(Start(), args)
      invariant EqualsCleared(old(buf[..]), buf[..])
      decreases argc - k
    {
      assert argv[k] == Offset(toks, k) && NUL !in toks[k] by {
        assert Packed(old(buf[..]), argv[..], toks);
      }
      ghost var before := buf[..];
      var word := ParseNext(buf, argv[k], toks, k, st);
      EqualsClearedTrans(old(buf[..]), before, buf[..]);
      if word.Err? {
        return Err(word.code);
      }
      st := word.value;
      k := k + 1;
    }
    assert toks[k..] == [];
    r := Validate(st);
  }

  /** The fold over words takes one word's step first. */
  lemma FoldFirst(st: Parsing, args: seq<string>, step: Result<Parsing>)
    requires args != [] && step == Step(st, args[0])
    ensures step.Err? ==> Fold(st, args) == Err(step.code)
    ensures step.Ok? ==> Fold(st, args) == Fold(step.value, args[1..])
  {
  }

  /** The k-th word of the vector parsed from the buffer: the fold over the words takes its step. */
  method ParseNext(buf: array<char>, at: nat, ghost toks: seq<string>, k: nat, st: Parsing) returns (word: Result<Parsing>)
    requires k < |toks| && at == Offset(toks, k) && NUL !in toks[k]
    requires HoldsAt(buf[..], at, Flatten(toks[k..]))
    modifies buf
    ensures word.Err? ==> Fold(st, toks[k..]) == Err(word.code)
    ensures word.Ok? ==> Fold(st, toks[k..]) == Fold(word.value, toks[k + 1..])
    ensures HoldsAt(buf[..], Offset(toks, k + 1), Flatten(toks[k + 1..]))
    ensures EqualsCleared(old(buf[..]), buf[..])
  {
    FlattenAt(toks, k);
    word := ParseWord(buf, at, toks[k], st, Flatten(toks[k + 1..]));
    assert toks[k..][0] == toks[k] && toks[k..][1..] == toks[k + 1..];
    FoldFirst(st, toks[k..], word);
  }

  /** One pass of the loop in `parse`: the word `t` at `buf[at]`, followed in the buffer by `next`. */
  method ParseWord(buf: array<char>, at: nat, ghost t: string, st: Parsing, ghost next: seq<char>) returns (word: Result<Parsing>)
    requires HoldsAt(buf[..], at, t + [NUL] + next) && NUL !in t
    modifies buf
    ensures word == Step(st, t)
    ensures HoldsAt(buf[..], at + |t| + 1, next)
    ensures EqualsCleared(old(buf[..]), buf[..])
  {
    ghost var before := buf[..];
    ghost var after := at + |t| + 1;
    HoldsPrefix(before, at, t + [NUL], next);
    HoldsSuffix(before, at, t + [NUL], next);
    assert HoldsAt(before, after, next);
    var isOpt, option, hasValue, value, o, v := ParseOpt(buf, at, t);
    if isOpt && hasValue {
      HoldsAfterWrite(before, value - 1, NUL, after, next);
      ClearOne(before, value - 1);
      assert buf[..] == before[value - 1 := NUL];
    } else {
      assert buf[..] == before;
    }
    if !isOpt {
      assert HoldsAt(buf[..], at, t + [NUL]);
    }
    word := ApplyWord(buf, at, t, st, isOpt, option, hasValue, value, o, v);
  }

  /** The `if` chain in `parse` on what `parseOpt` found: a name, a flag or an option with its value. */
  method ApplyWord(buf: array<char>, at: nat, ghost t: string, st: Parsing,
                   isOpt: bool, option: nat, hasValue: bool, value: nat, ghost o: string, ghost v: string)
    returns (word: Result<Parsing>)
    requires !isOpt ==> HoldsAt(buf[..], at, t + [NUL]) && NUL !in t && SplitOpt(t).None?
    requires isOpt ==> SplitOpt(t) == Some((o, if hasValue then Some(v) else None))
    requires isOpt ==> HoldsAt(buf[..], option, o + [NUL]) && NUL !in o
    requires isOpt && hasValue ==> HoldsAt(buf[..], value, v + [NUL]) && NUL !in v
    ensures word == Step(st, t)
  {
    if !isOpt {
      StrAtOfHolds(buf[..], at, t);
      word := Ok(SetName(st, StrAt(buf[..], at)));
    } else {
      StrAtOfHolds(buf[..], option, o);
      var name := StrAt(buf[..], option);
      if hasValue {
        StrAtOfHolds(buf[..], value, v);
        word := ApplyOption(st, name, Some(StrAt(buf[..], value)));
        StepOption(st, t, o, Some(v));
      } else {
        word := ApplyOption(st, name, None);
        StepOption(st, t, o, None);
      }
    }
  }

  /** Each character is kept, or it was an '=' and became a NUL. */
  predicate EqualsCleared(s0: seq<char>, s1: seq<char>)
  {
    |s0| == |s1| && forall i :: 0 <= i < |s0| ==> s1[i] == s0[i] || (s0[i] == '=' && s1[i] == NUL)
  }

  lemma ClearOne(s: seq<char>, j: nat)
    requires j < |s| && s[j] == '='
    ensures EqualsCleared(s, s[j := NUL])
  {
  }

  lemma EqualsClearedTrans(s0: seq<char>, s1: seq<char>, s2: seq<char>)
    requires EqualsCleared(s0, s1) && EqualsCleared(s1, s2)
    ensures EqualsCleared(s0, s2)
  {
  }

  lemma StepOption(st: Parsing, t: string, o: string, v: Option<string>)
    requires SplitOpt(t) == Some((o, v))
    ensures Step(st, t) == ApplyOption(st, o, v)
  {
  }

  lemma StrAtOfHolds(s: seq<char>, at: nat, t: string)
    requires HoldsAt(s, at, t + [NUL]) && NUL !in t
    ensures StrAt(s, at) == t
  {
    HoldsString(s, at, t, []);
  }
}
