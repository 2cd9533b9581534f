/**
 * The control node `/dev/vpcmctl` of the audio device (`VpcmAudioDevice`): one opener at a time,
 * commands written to it as lines of words, and the answer of the last command read back from its
 * output buffer. The first word of a command selects `info`, `create`, `delete`, `name` or
 * `describe`, which list, add, remove or look up engine pairs in the device's list of engines.
 */
module Device {
  import opened Common
  import opened CString
  import opened Tokenizer
  import Properties
  import Devfs

  /** `cCommandBufferSize`: the size of the command and output buffers, terminating NUL included. */
  const CommandBufferSize: nat := 2048

  /** `DEVICE_GUI_NAME`, the first words of the `info` listing. */
  const DeviceName: string := "vpcm Virtual Audio Device"

  /** What the device node of an engine pair holds: its name under /dev, owner, group and mode. */
  datatype NodeInfo = NodeInfo(devName: string, uid: int, gid: int, mode: Devfs.FileMode)

  /** What the status listing reports of a pair besides its configuration. */
  datatype Activity = Activity(hasStream: bool, clients: int, ioFlags: Flags)

  /**
   * An entry of the device's list of audio engines: an engine pair of this driver, or an object of
   * another class, which the `OSDynamicCast` in each scan of the list skips.
   */
  datatype Engine = Pair(props: Properties.Props, node: NodeInfo, activity: Activity) | Foreign

  /** Every pair in the list was created from a configuration that parsed. */
  predicate Registered(engines: seq<Engine>)
  {
    forall k :: 0 <= k < |engines| && engines[k].Pair? ==> Properties.Valid(engines[k].props)
  }

  /** No two pairs in the list have the same name. */
  predicate Distinct(engines: seq<Engine>)
  {
    forall i, j :: 0 <= i < j < |engines| && engines[i].Pair? && engines[j].Pair? ==>
      engines[i].props.name != engines[j].props.name
  }

  // ---------------------------------------------------------------------------------------------
  // Looking up a pair

  /** The entries `findEngine` stops at: pairs whose name or device name is `name`. */
  predicate Named(e: Engine, name: string)
  {
    e.Pair? && (e.props.name == Some(name) || e.node.devName == name)
  }

  /** The index of the first entry named `name`, or -1 when there is none. */
  function Find(engines: seq<Engine>, name: string): (k: int)
    ensures -1 <= k < |engines|
    ensures k >= 0 ==> Named(engines[k], name) && forall j :: 0 <= j < k ==> !Named(engines[j], name)
    ensures k == -1 <==> forall j :: 0 <= j < |engines| ==> !Named(engines[j], name)
    decreases |engines|
  {
    if engines == [] then -1
    else if Named(engines[0], name) then 0
    else
      var r := Find(engines[1..], name);
      if r < 0 then -1 else r + 1
  }

  /** `findEngine`: the scan over the list, stopping at the first entry named `name`. */
  method FindEngine(engines: seq<Engine>, name: string) returns (idx: int)
    ensures idx == Find(engines, name)
  {
    var i := -1;
    var found := false;
    while !found && i + 1 < |engines|
      invariant -1 <= i < |engines|
      invariant found ==> i >= 0 && Named(engines[i], name)
      invariant forall j :: 0 <= j <= i && !(found && j == i) ==> !Named(engines[j], name)
      decreases |engines| - i, !found
    {
      i := i + 1;
      found := Named(engines[i], name);
    }
    idx := if found then i else -1;
  }

  /** `devAccess` on the node of a pair, with the caller's credentials. */
  function PairAccess(e: Engine, cred: Devfs.Cred, req: Devfs.FileMode): int
    requires e.Pair?
  {
    Devfs.Access(e.node.mode, e.node.uid, e.node.gid, cred, req)
  }

  // ---------------------------------------------------------------------------------------------
  // The status listing of `info`

  function DirectionText(m: Properties.Mode): string
  {
    match m
    case Playback => "->"
    case Record => "<-"
  }

  function StateText(ioFlags: Flags): string
  {
    if ioFlags & FREAD != 0 then "open for reading"
    else if ioFlags & FWRITE != 0 then "open for writing"
    else "closed"
  }

  /** `printEngineStatus`: the lines about one pair, none for a pair without a stream. */
  function Status(e: Engine): string
    requires e.Pair? && e.props.name.Some?
  {
    if !e.activity.hasStream then ""
    else
      "\"" + e.props.name.value + "\" " + DirectionText(e.props.mode) + " /dev/" + e.node.devName + "\n"
      + "  CoreAudio clients: " + FormatInt(e.activity.clients) + "\n"
      + "  Device node state: " + StateText(e.activity.ioFlags) + "\n"
      + "  Configuration:" + Properties.Print(e.props, Some("\n\t--")) + "\n"
  }

  /** Whether a pair is listed to the caller: the caller may read its node. */
  predicate Visible(e: Engine, cred: Devfs.Cred)
  {
    e.Pair? && PairAccess(e, cred, Devfs.S_IREAD) == 0
  }

  /** The pairs the caller may read, in list order. */
  function Shown(engines: seq<Engine>, cred: Devfs.Cred): (r: seq<Engine>)
    ensures |r| <= |engines|
    decreases |engines|
  {
    if engines == [] then []
    else
      var n := |engines| - 1;
      Shown(engines[..n], cred) + if Visible(engines[n], cred) then [engines[n]] else []
  }

  /** The status lines of the given pairs one after the other (a registered pair always has a name). */
  function Statuses(es: seq<Engine>): string
    decreases |es|
  {
    if es == [] then ""
    else
      var n := |es| - 1;
      Statuses(es[..n]) + if es[n].Pair? && es[n].props.name.Some? then Status(es[n]) else ""
  }

  /** How many pairs the caller may not read. */
  function Hidden(engines: seq<Engine>, cred: Devfs.Cred): nat
    decreases |engines|
  {
    if engines == [] then 0
    else
      var n := |engines| - 1;
      Hidden(engines[..n], cred) + if engines[n].Pair? && !Visible(engines[n], cred) then 1 else 0
  }

  /** The number of pairs in the list. */
  function PairCount(engines: seq<Engine>): nat
    decreases |engines|
  {
    if engines == [] then 0
    else
      var n := |engines| - 1;
      PairCount(engines[..n]) + if engines[n].Pair? then 1 else 0
  }

  /** The number of entries as the second line tells it. */
  function CountLine(count: nat): string
  {
    if count == 0 then "No device pairs.\n" else "Number of device pairs: " + FormatInt(count) + "\n"
  }

  function HiddenLine(hidden: nat): string
  {
    if hidden > 0 then "Some device pairs hidden due to insufficient permissions.\n" else ""
  }

  /** `printInfo`: the banner with the build date, the count, the visible pairs and a note on the rest. */
  function Info(engines: seq<Engine>, cred: Devfs.Cred, built: string): string
  {
    DeviceName + ", built " + built + "\n" + CountLine(|engines|) + Statuses(Shown(engines, cred))
    + HiddenLine(Hidden(engines, cred))
  }

  /** The list without its k-th entry. */
  function Without(engines: seq<Engine>, k: nat): (r: seq<Engine>)
    requires k < |engines|
    ensures |r| == |engines| - 1
    ensures forall j :: 0 <= j < |r| ==> r[j] == engines[if j < k then j else j + 1]
  {
    engines[..k] + engines[k + 1..]
  }

  /** Removing an entry before the last one and then the last one, or the other way round. */
  lemma {:induction false} WithoutInit(engines: seq<Engine>, k: nat)
    requires k < |engines| - 1
    ensures var n := |engines| - 1; Without(engines, k)[..n - 1] == Without(engines[..n], k)
    ensures Without(engines, k)[|engines| - 2] == engines[|engines| - 1]
  {
  }

  lemma {:induction false} RegisteredWithout(engines: seq<Engine>, k: nat)
    requires Registered(engines) && k < |engines|
    ensures Registered(Without(engines, k))
  {
  }

  /** A pair the caller may not read is not shown, and counts once as hidden. */
  lemma {:induction false} HiddenPairOmitted(engines: seq<Engine>, k: nat, cred: Devfs.Cred)
    requires k < |engines| && engines[k].Pair? && !Visible(engines[k], cred)
    ensures Shown(engines, cred) == Shown(Without(engines, k), cred)
    ensures Hidden(engines, cred) == Hidden(Without(engines, k), cred) + 1
    decreases |engines|
  {
    var n := |engines| - 1;
    var rest := Without(engines, k);
    if k == n {
      assert rest == engines[..n];
    } else {
      var init := engines[..n];
      HiddenPairOmitted(init, k, cred);
      WithoutInit(engines, k);
    }
  }

  /** Every pair is either shown or counted as hidden, and the superuser is shown all of them. */
  lemma {:induction false} ShownOrHidden(engines: seq<Engine>, cred: Devfs.Cred)
    ensures |Shown(engines, cred)| + Hidden(engines, cred) == PairCount(engines)
    ensures cred.superuser ==> Hidden(engines, cred) == 0
    ensures Hidden(engines, cred) == 0 <==>
      forall k :: 0 <= k < |engines| && engines[k].Pair? ==> Visible(engines[k], cred)
    decreases |engines|
  {
    if engines != [] {
      var n := |engines| - 1;
      var init := engines[..n];
      ShownOrHidden(init, cred);
      assert forall j :: 0 <= j < n ==> init[j] == engines[j];
    }
  }

  /** One more entry of the list: the shown pairs and the hidden count grow by what it adds. */
  lemma {:induction false} ListingStep(engines: seq<Engine>, i: nat, cred: Devfs.Cred)
    requires i < |engines|
    ensures var e := engines[i]; var before := engines[..i]; var after := engines[..i + 1];
      && Shown(after, cred) == Shown(before, cred) + (if Visible(e, cred) then [e] else [])
      && Hidden(after, cred) == Hidden(before, cred) + if e.Pair? && !Visible(e, cred) then 1 else 0
  {
    var before, after := engines[..i], engines[..i + 1];
    assert after[..i] == before && after[i] == engines[i];
  }

  /** The status lines of one more pair follow the others'. */
  lemma {:induction false} StatusesAppend(es: seq<Engine>, e: Engine)
    requires e.Pair? && e.props.name.Some?
    ensures Statuses(es + [e]) == Statuses(es) + Status(e)
  {
    assert (es + [e])[..|es|] == es && (es + [e])[|es|] == e;
  }

  /** One entry of `printInfo`'s loop: a pair the caller may read adds its lines, any other pair counts as hidden. */
  method ListEntry(engines: seq<Engine>, i: nat, cred: Devfs.Cred, ghost shown: seq<Engine>, listing: string, hidden: nat)
    returns (ghost shown': seq<Engine>, listing': string, hidden': nat)
    requires Registered(engines) && i < |engines|
    requires shown == Shown(engines[..i], cred) && listing == Statuses(shown) && hidden == Hidden(engines[..i], cred)
    ensures shown' == Shown(engines[..i + 1], cred) && listing' == Statuses(shown')
    ensures hidden' == Hidden(engines[..i + 1], cred)
  {
    var e := engines[i];
    ListingStep(engines, i, cred);
    shown', listing', hidden' := shown, listing, hidden;
    if e.Pair? {
      if PairAccess(e, cred, Devfs.S_IREAD) == 0 {
        StatusesAppend(shown, e);
        listing' := listing + Status(e);
        shown' := shown + [e];
      } else {
        hidden' := hidden + 1;
        assert shown + [] == shown;
      }
    } else {
      assert shown + [] == shown;
    }
  }

  /** `printInfo` with its loop over the list. */
  method PrintInfo(engines: seq<Engine>, cred: Devfs.Cred, built: string) returns (text: string)
    requires Registered(engines)
    ensures text == Info(engines, cred, built)
  {
    var listing := "";
    var hidden := 0;
    var i := 0;
    ghost var shown: seq<Engine> := [];
    while i < |engines|
      invariant i <= |engines|
      invariant shown == Shown(engines[..i], cred) && listing == Statuses(shown)
      invariant hidden == Hidden(engines[..i], cred)
    {
      shown, listing, hidden := ListEntry(engines, i, cred, shown, listing, hidden);
      i := i + 1;
    }
    assert engines[..i] == engines;
    text := DeviceName + ", built " + built + "\n" + CountLine(|engines|) + listing + HiddenLine(hidden);
  }

  // ---------------------------------------------------------------------------------------------
  // Commands

  /** What a command returns, the list after it, and the text it leaves in the output buffer if any. */
  datatype Outcome = Outcome(err: int, engines: seq<Engine>, output: Option<string>)

  /** A failed command: the list and the output buffer are left as they were. */
  function Refused(err: int, engines: seq<Engine>): Outcome
  {
    Outcome(err, engines, None)
  }

  /**
   * `createEngine`: the words after the command are parsed into a configuration; its name must not
   * name an entry yet. `node` is the device node the activated pair gets, or None when activating
   * it fails.
   */
  function CreateCommand(engines: seq<Engine>, toks: seq<string>, node: Option<NodeInfo>): Outcome
  {
    if |toks| < 2 then Refused(EINVAL, engines)
    else match Properties.ParseArgs(toks[1..])
      case Err(e) => Refused(e, engines)
      case Ok(p) =>
        if p.name.None? then Refused(EINVAL, engines)
        else if Find(engines, p.name.value) >= 0 then Refused(EEXIST, engines)
        else if node.None? then Refused(EDEVERR, engines)
        else Outcome(0, engines + [Pair(p, node.value, Activity(true, 0, 0))], None)
  }

  /** `deleteEngine`: the first entry named by the second word, if the caller may write its node. */
  function DeleteCommand(engines: seq<Engine>, toks: seq<string>, cred: Devfs.Cred): Outcome
  {
    if |toks| < 2 then Refused(EINVAL, engines)
    else
      var k := Find(engines, toks[1]);
      if k < 0 then Refused(ENOENT, engines)
      else
        var err := PairAccess(engines[k], cred, Devfs.S_IWRITE);
        if err != 0 then Refused(err, engines)
        else Outcome(0, Without(engines, k), None)
  }

  /** `nameEngine`: the path of the node of the first entry named by the second word. */
  function NameCommand(engines: seq<Engine>, toks: seq<string>, cred: Devfs.Cred): Outcome
  {
    if |toks| < 2 then Refused(EINVAL, engines)
    else
      var k := Find(engines, toks[1]);
      if k < 0 then Refused(ENOENT, engines)
      else
        var err := PairAccess(engines[k], cred, Devfs.S_IREAD);
        if err != 0 then Refused(err, engines)
        else Outcome(0, engines, Some("/dev/" + engines[k].node.devName + "\n"))
  }

  /** The line `describeEngine` writes: the name followed by the printed options. */
  function Description(p: Properties.Props): string
    requires p.name.Some?
  {
    p.name.value + Properties.Print(p, None) + "\n"
  }

  /** `describeEngine`: the description of the first entry named by the second word. */
  function DescribeCommand(engines: seq<Engine>, toks: seq<string>, cred: Devfs.Cred): Outcome
    requires Registered(engines)
  {
    if |toks| < 2 then Refused(EINVAL, engines)
    else
      var k := Find(engines, toks[1]);
      if k < 0 then Refused(ENOENT, engines)
      else
        var err := PairAccess(engines[k], cred, Devfs.S_IREAD);
        if err != 0 then Refused(err, engines)
        else Outcome(0, engines, Some(Description(engines[k].props)))
  }

  /** `executeCommand`: the first word selects the command; no word is no command. */
  function Command(engines: seq<Engine>, toks: seq<string>, cred: Devfs.Cred, built: string,
                   node: Option<NodeInfo>): Outcome
    requires Registered(engines)
  {
    if |toks| < 1 then Outcome(0, engines, None)
    else if toks[0] == "info" then Outcome(0, engines, Some(Info(engines, cred, built)))
    else if toks[0] == "create" then CreateCommand(engines, toks, node)
    else if toks[0] == "delete" then DeleteCommand(engines, toks, cred)
    else if toks[0] == "name" then NameCommand(engines, toks, cred)
    else if toks[0] == "describe" then DescribeCommand(engines, toks, cred)
    else Refused(ENOTSUP, engines)
  }

  /** The dispatch: an empty line does nothing, and an unknown first word or a missing second one fails. */
  lemma {:induction false} Dispatch(engines: seq<Engine>, toks: seq<string>, cred: Devfs.Cred, built: string, node: Option<NodeInfo>)
    requires Registered(engines)
    ensures toks == [] ==> Command(engines, toks, cred, built, node) == Outcome(0, engines, None)
    ensures |toks| >= 1 && toks[0] !in {"info", "create", "delete", "name", "describe"} ==>
      Command(engines, toks, cred, built, node) == Outcome(ENOTSUP, engines, None)
    ensures |toks| == 1 && toks[0] in {"create", "delete", "name", "describe"} ==>
      Command(engines, toks, cred, built, node) == Outcome(EINVAL, engines, None)
    ensures |toks| >= 1 && toks[0] == "info" ==>
      Command(engines, toks, cred, built, node) == Outcome(0, engines, Some(Info(engines, cred, built)))
  {
  }

  /** Every command either succeeds or leaves the list and the output buffer as they were. */
  lemma {:induction false} FailureChangesNothing(engines: seq<Engine>, toks: seq<string>, cred: Devfs.Cred, built: string,
                              node: Option<NodeInfo>)
    requires Registered(engines)
    ensures var o := Command(engines, toks, cred, built, node);
      o.err != 0 ==> o.engines == engines && o.output.None?
  {
  }

  /**
   * Creating: the error cases in order, and on success the list grows by exactly one pair, with the
   * parsed configuration, which the name now finds.
   */
  lemma {:induction false} CreateRules(engines: seq<Engine>, toks: seq<string>, node: Option<NodeInfo>)
    requires |toks| >= 2
    ensures var o := CreateCommand(engines, toks, node);
      var r := Properties.ParseArgs(toks[1..]);
      && (r.Err? ==> o.err == EINVAL)
      && (r.Ok? && Find(engines, r.value.name.value) >= 0 ==> o.err == EEXIST)
      && (o.err == 0 <==> r.Ok? && Find(engines, r.value.name.value) == -1 && node.Some?)
      && (o.err == 0 ==>
        && o.engines == engines + [Pair(r.value, node.value, Activity(true, 0, 0))]
        && Properties.Valid(r.value)
        && Find(o.engines, r.value.name.value) == |engines|)
  {
    var r := Properties.ParseArgs(toks[1..]);
    Properties.ParseOutcome(toks[1..]);
    if r.Ok? && Find(engines, r.value.name.value) == -1 && node.Some? {
      var name := r.value.name.value;
      var grown := engines + [Pair(r.value, node.value, Activity(true, 0, 0))];
      assert Named(grown[|engines|], name);
      assert forall j :: 0 <= j < |engines| ==> grown[j] == engines[j];
    }
  }

  /** Deleting removes exactly the entry found, and only when the caller may write its node. */
  lemma {:induction false} DeleteRules(engines: seq<Engine>, toks: seq<string>, cred: Devfs.Cred)
    requires |toks| >= 2 && Distinct(engines)
    ensures var o := DeleteCommand(engines, toks, cred);
      var k := Find(engines, toks[1]);
      && (k == -1 ==> o.err == ENOENT)
      && (o.err == 0 <==> k >= 0 && PairAccess(engines[k], cred, Devfs.S_IWRITE) == 0)
      && (o.err == 0 ==>
        && o.engines == Without(engines, k)
        && forall j :: 0 <= j < |o.engines| && o.engines[j].Pair? ==>
             o.engines[j].props.name != engines[k].props.name)
  {
  }

  /** `name` and `describe` answer only a caller who may read the pair's node. */
  lemma {:induction false} LookupNeedsRead(engines: seq<Engine>, toks: seq<string>, cred: Devfs.Cred)
    requires Registered(engines) && |toks| >= 2
    ensures var k := Find(engines, toks[1]);
      var a := NameCommand(engines, toks, cred);
      var b := DescribeCommand(engines, toks, cred);
      && a.err == b.err
      && (a.err == 0 <==> k >= 0 && Visible(engines[k], cred))
      && (k >= 0 && !Visible(engines[k], cred) ==> a.err == EACCES)
      && (a.err == 0 ==>
        a.output == Some("/dev/" + engines[k].node.devName + "\n") && b.output == Some(Description(engines[k].props)))
  {
  }

  /** A command keeps every pair's configuration valid and the names distinct. */
  lemma {:induction false} CommandKeepsRegistry(engines: seq<Engine>, toks: seq<string>, cred: Devfs.Cred, built: string,
                             node: Option<NodeInfo>)
    requires Registered(engines) && Distinct(engines)
    ensures var o := Command(engines, toks, cred, built, node); Registered(o.engines) && Distinct(o.engines)
  {
    if |toks| >= 2 && toks[0] == "create" {
      CreateKeepsRegistry(engines, toks, node);
    } else if |toks| >= 2 && toks[0] == "delete" {
      var k := Find(engines, toks[1]);
      if k >= 0 {
        RegisteredWithout(engines, k);
      }
    }
  }

  lemma {:induction false} CreateKeepsRegistry(engines: seq<Engine>, toks: seq<string>, node: Option<NodeInfo>)
    requires Registered(engines) && Distinct(engines) && |toks| >= 2
    ensures var o := CreateCommand(engines, toks, node); Registered(o.engines) && Distinct(o.engines)
  {
    var o := CreateCommand(engines, toks, node);
    if o.err == 0 {
      CreateRules(engines, toks, node);
      var p := Properties.ParseArgs(toks[1..]).value;
      assert forall j :: 0 <= j < |engines| ==> !Named(engines[j], p.name.value);
      assert forall j :: 0 <= j < |engines| ==> o.engines[j] == engines[j];
    }
  }

  // ---------------------------------------------------------------------------------------------
  // `describe` output is a `create` command

  /** Numbers are printed with plain characters. */
  lemma {:induction false} FormatIntPlain(n: int)
    ensures forall i :: 0 <= i < |FormatInt(n)| ==> Plain(FormatInt(n)[i])
  {
    if n < 0 {
      var d := Decimal(-n);
      assert forall i :: 1 <= i < |FormatInt(n)| ==> FormatInt(n)[i] == d[i - 1];
    }
  }

  predicate PlainText(s: string)
  {
    forall i :: 0 <= i < |s| ==> Plain(s[i])
  }

  lemma {:induction false} PlainConcat(a: string, b: string)
    requires PlainText(a) && PlainText(b)
    ensures PlainText(a + b)
  {
    assert forall i :: |a| <= i < |a + b| ==> (a + b)[i] == b[i - |a|];
  }

  lemma {:induction false} WordsOfPlain(items: seq<Properties.Item>)
    requires forall k :: 0 <= k < |items| ==> PlainText(Properties.ItemText(items[k]))
    ensures forall k :: 0 <= k < |Properties.WordsOf(items)| ==> PlainWord(Properties.WordsOf(items)[k])
    decreases |items|
  {
    if items != [] {
      WordsOfPlain(items[1..]);
      PlainConcat("--", Properties.ItemText(items[0]));
    }
  }

  lemma {:induction false} AssignPlain(o: string, v: string)
    requires PlainText(o) && PlainText(v)
    ensures PlainText(Properties.ItemText(Properties.Assign(o, v)))
  {
    PlainConcat(o, "=");
    PlainConcat(o + "=", v);
  }

  /** The option names and keyword values `print` writes are plain. */
  lemma {:induction false} KeywordsPlain()
    ensures PlainText("rate") && PlainText("channels") && PlainText("buffer-frames") && PlainText("latency-msec")
    ensures PlainText("format") && PlainText("overflow")
    ensures PlainText("playback") && PlainText("record") && PlainText("raw") && PlainText("posix-pipe")
    ensures PlainText("no-eof-on-idle")
    ensures PlainText("s16le") && PlainText("float32le") && PlainText("zeros") && PlainText("noise") && PlainText("discard")
  {
    SettingNamesPlain();
    FlagNamesPlain();
    ValueNamesPlain();
  }

  lemma {:induction false} SettingNamesPlain()
    ensures PlainText("rate") && PlainText("channels") && PlainText("buffer-frames") && PlainText("latency-msec")
    ensures PlainText("format") && PlainText("overflow")
  {
  }

  lemma {:induction false} FlagNamesPlain()
    ensures PlainText("playback") && PlainText("record") && PlainText("raw") && PlainText("posix-pipe")
    ensures PlainText("no-eof-on-idle")
  {
  }

  lemma {:induction false} ValueNamesPlain()
    ensures PlainText("s16le") && PlainText("float32le") && PlainText("zeros") && PlainText("noise") && PlainText("discard")
  {
  }

  lemma {:induction false} SettingsPlain(p: Properties.Props)
    ensures forall k :: 0 <= k < |Properties.Settings(p)| ==> PlainText(Properties.ItemText(Properties.Settings(p)[k]))
  {
    KeywordsPlain();
    FormatIntPlain(p.rate);
    FormatIntPlain(p.channels);
    FormatIntPlain(p.bufferFrames);
    FormatIntPlain(Properties.LatencyMsec(p));
    AssignPlain("rate", FormatInt(p.rate));
    AssignPlain("channels", FormatInt(p.channels));
    AssignPlain("buffer-frames", FormatInt(p.bufferFrames));
    AssignPlain("latency-msec", FormatInt(Properties.LatencyMsec(p)));
    AssignPlain("format", Properties.FormatName(p.format));
    AssignPlain("overflow", Properties.OverflowName(p.overflow));
  }

  lemma {:induction false} TrailerPlain(p: Properties.Props)
    ensures forall k :: 0 <= k < |Properties.Trailer(p)| ==> PlainText(Properties.ItemText(Properties.Trailer(p)[k]))
  {
    KeywordsPlain();
  }

  /** Every printed option is a plain word, which the command-line splitter keeps whole. */
  lemma {:induction false} WordsPlain(p: Properties.Props)
    ensures forall k :: 0 <= k < |Properties.Words(p)| ==> PlainWord(Properties.Words(p)[k])
  {
    var items := Properties.Items(p);
    SettingsPlain(p);
    TrailerPlain(p);
    var a, b := Properties.Settings(p), Properties.Trailer(p);
    assert forall k :: 0 <= k < |items| ==> items[k] == if k < |a| then a[k] else b[k - |a|];
    WordsOfPlain(items);
  }

  lemma {:induction false} SpaceAfterCommand(name: string, rest: string)
    ensures "create " + (name + rest + "\n") == "create" + (" " + name + rest + "\n")
  {
  }

  /** "create " followed by a description is the command word, the name and the printed options. */
  lemma {:induction false} CreateLineWords(p: Properties.Props)
    requires p.name.Some? && PlainWord(p.name.value)
    ensures Tokens("create " + Description(p)) == ["create", p.name.value] + Properties.Words(p)
  {
    var name, ws := p.name.value, Properties.Words(p);
    var all := [name] + ws;
    DescriptionLine(p);
    SpaceAfterCommand(name, Spaced(ws));
    NamedWordsPlain(p);
    CommandPlain();
    LineRoundTrip("create", all);
  }

  /** The description is the pair's name and the option words, each after a space, then a newline. */
  lemma DescriptionLine(p: Properties.Props)
    requires p.name.Some?
    ensures Description(p) == p.name.value + Spaced(Properties.Words(p)) + "\n"
    ensures Spaced([p.name.value] + Properties.Words(p)) == " " + p.name.value + Spaced(Properties.Words(p))
  {
    var name, ws := p.name.value, Properties.Words(p);
    var all := [name] + ws;
    assert Properties.Print(p, None) == Spaced(ws) by {
      Properties.RenderDefault(Properties.Items(p));
    }
    assert Spaced(all) == " " + name + Spaced(ws) by {
      assert all[0] == name && all[1..] == ws;
    }
  }

  /** The name and every printed option are plain words. */
  lemma NamedWordsPlain(p: Properties.Props)
    requires p.name.Some? && PlainWord(p.name.value)
    ensures var all := [p.name.value] + Properties.Words(p);
      forall k :: 0 <= k < |all| ==> PlainWord(all[k])
  {
    var ws := Properties.Words(p);
    var all := [p.name.value] + ws;
    WordsPlain(p);
    assert forall k :: 1 <= k < |all| ==> all[k] == ws[k - 1];
  }

  lemma CommandPlain()
    ensures PlainWord("create")
  {
  }

  /**
   * The round trip between `describe` and `create`: writing "create " and the description of a pair
   * to a list where its name is free creates a pair with the same configuration, up to the frame
   * latency, which comes back rounded through milliseconds.
   */
  lemma {:induction false} DescribeThenCreate(p: Properties.Props, engines: seq<Engine>, cred: Devfs.Cred, built: string, nd: NodeInfo)
    requires Properties.Valid(p) && PlainWord(p.name.value) && Properties.SplitOpt(p.name.value).None?
    requires Registered(engines) && Find(engines, p.name.value) == -1
    ensures var o := Command(engines, Tokens("create " + Description(p)), cred, built, Some(nd));
      && o.err == 0 && |o.engines| == |engines| + 1 && o.engines[..|engines|] == engines
      && var q := o.engines[|engines|].props;
      && q == p.(latencyFrames := q.latencyFrames)
      && q.latencyFrames == Properties.LatencyFrames(Properties.LatencyMsec(p), p.rate)
  {
    var name := p.name.value;
    CreateLineWords(p);
    var toks := ["create", name] + Properties.Words(p);
    assert toks[1..] == [name] + Properties.Words(p);
    Properties.ParsePrinted(p);
  }

  // ---------------------------------------------------------------------------------------------
  // The commands on the packed argument vector

  /** The word at `argv[k]`; `strcmp` against a literal compares exactly these characters. */
  method Word(buf: array<char>, argv: array<nat>, k: nat, ghost toks: seq<string>) returns (w: string)
    requires Packed(buf[..], argv[..], toks) && k < |toks|
    ensures w == toks[k]
  {
    PackedReads(buf[..], argv[..], toks, k);
    w := StrAt(buf[..], argv[k]);
  }

  method CreateEngine(engines: seq<Engine>, buf: array<char>, argc: nat, argv: array<nat>, ghost toks: seq<string>,
                      node: Option<NodeInfo>) returns (o: Outcome)
    requires argc == argv.Length && Packed(buf[..], argv[..], toks)
    modifies buf
    ensures o == CreateCommand(engines, toks, node)
  {
    if argc < 2 {
      return Refused(EINVAL, engines);
    }
    var r := Properties.Parse(buf, argc, argv, toks);
    if r.Err? {
      return Refused(r.code, engines);
    }
    var p := r.value;
    if p.name.None? {
      return Refused(EINVAL, engines);
    }
    var idx := FindEngine(engines, p.name.value);
    if idx >= 0 {
      return Refused(EEXIST, engines);
    }
    if node.None? {
      return Refused(EDEVERR, engines);
    }
    o := Outcome(0, engines + [Pair(p, node.value, Activity(true, 0, 0))], None);
  }

  method DeleteEngine(engines: seq<Engine>, buf: array<char>, argc: nat, argv: array<nat>, ghost toks: seq<string>,
                      cred: Devfs.Cred) returns (o: Outcome)
    requires argc == argv.Length && Packed(buf[..], argv[..], toks)
    ensures o == DeleteCommand(engines, toks, cred)
  {
    if argc < 2 {
      return Refused(EINVAL, engines);
    }
    var name := Word(buf, argv, 1, toks);
    var idx := FindEngine(engines, name);
    if idx < 0 {
      return Refused(ENOENT, engines);
    }
    var err := PairAccess(engines[idx], cred, Devfs.S_IWRITE);
    if err != 0 {
      return Refused(err, engines);
    }
    o := Outcome(0, Without(engines, idx), None);
  }

  method NameEngine(engines: seq<Engine>, buf: array<char>, argc: nat, argv: array<nat>, ghost toks: seq<string>,
                    cred: Devfs.Cred) returns (o: Outcome)
    requires argc == argv.Length && Packed(buf[..], argv[..], toks)
    ensures o == NameCommand(engines, toks, cred)
  {
    if argc < 2 {
      return Refused(EINVAL, engines);
    }
    var name := Word(buf, argv, 1, toks);
    var idx := FindEngine(engines, name);
    if idx < 0 {
      return Refused(ENOENT, engines);
    }
    var err := PairAccess(engines[idx], cred, Devfs.S_IREAD);
    if err != 0 {
      return Refused(err, engines);
    }
    o := Outcome(0, engines, Some("/dev/" + engines[idx].node.devName + "\n"));
  }

  method DescribeEngine(engines: seq<Engine>, buf: array<char>, argc: nat, argv: array<nat>, ghost toks: seq<string>,
                        cred: Devfs.Cred) returns (o: Outcome)
    requires Registered(engines) && argc == argv.Length && Packed(buf[..], argv[..], toks)
    ensures o == DescribeCommand(engines, toks, cred)
  {
    if argc < 2 {
      return Refused(EINVAL, engines);
    }
    var name := Word(buf, argv, 1, toks);
    var idx := FindEngine(engines, name);
    if idx < 0 {
      return Refused(ENOENT, engines);
    }
    var err := PairAccess(engines[idx], cred, Devfs.S_IREAD);
    if err != 0 {
      return Refused(err, engines);
    }
    o := Outcome(0, engines, Some(Description(engines[idx].props)));
  }

  /** `executeCommand` on the vector `buildArgv` made. */
  method ExecuteCommand(engines: seq<Engine>, buf: array<char>, argc: nat, argv: array<nat>, ghost toks: seq<string>,
                        cred: Devfs.Cred, built: string, node: Option<NodeInfo>) returns (o: Outcome)
    requires Registered(engines) && argc == argv.Length && Packed(buf[..], argv[..], toks)
    modifies buf
    ensures o == Command(engines, toks, cred, built, node)
  {
    if argc < 1 {
      return Outcome(0, engines, None);
    }
    var word := Word(buf, argv, 0, toks);
    if word == "info" {
      var text := PrintInfo(engines, cred, built);
      o := Outcome(0, engines, Some(text));
    } else if word == "create" {
      o := CreateEngine(engines, buf, argc, argv, toks, node);
    } else if word == "delete" {
      o := DeleteEngine(engines, buf, argc, argv, toks, cred);
    } else if word == "name" {
      o := NameEngine(engines, buf, argc, argv, toks, cred);
    } else if word == "describe" {
      o := DescribeEngine(engines, buf, argc, argv, toks, cred);
    } else {
      o := Refused(ENOTSUP, engines);
    }
  }

  // ---------------------------------------------------------------------------------------------
  // The control node

  /** `devOpen` on the control node: one opener at a time, and only in blocking mode. */
  function OpenError(ioFlags: Flags, flags: Flags): (err: int)
    ensures err == EACCES <==> ioFlags != 0
    ensures err == ENOTSUP <==> ioFlags == 0 && flags & FNONBLOCK != 0
    ensures err == 0 <==> ioFlags == 0 && flags & FNONBLOCK == 0
  {
    if ioFlags != 0 then EACCES
    else if flags & FNONBLOCK != 0 then ENOTSUP
    else 0
  }

  /** The part of a write the command buffer takes: at most one byte less than its size. */
  function Accepted(data: string): (a: string)
    ensures |a| == Min(|data|, CommandBufferSize - 1) && a == data[..|a|]
  {
    data[..Min(|data|, CommandBufferSize - 1)]
  }

  // The output position of the `snprintf` chains

  /** The texts of a chain of `snprintf` calls one after the other. */
  function Joined(texts: seq<string>): string
    decreases |texts|
  {
    if texts == [] then [] else Joined(texts[..|texts| - 1]) + texts[|texts| - 1]
  }

  /**
   * `pos` after a chain of `snprintf` calls as the source writes it: each call adds the length of its
   * whole text, whether or not that text fitted in the `len - pos` bytes it was given.
   */
  function PosAsWritten(texts: seq<string>): nat
    decreases |texts|
  {
    if texts == [] then 0 else PosAsWritten(texts[..|texts| - 1]) + |texts[|texts| - 1]|
  }

  /** An `int` passed where `snprintf` takes a `size_t`: a negative room becomes a huge size. */
  function SizeT(room: int): nat
  {
    room % 0x1_0000_0000_0000_0000
  }

  /** The room the next call is given goes negative exactly when the texts so far overflow the buffer. */
  lemma {:induction false} RoomAsWritten(texts: seq<string>)
    ensures PosAsWritten(texts) == |Joined(texts)|
    ensures CommandBufferSize - PosAsWritten(texts) < 0 <==> |Joined(texts)| > CommandBufferSize
    ensures |Joined(texts)| > CommandBufferSize && |Joined(texts)| < 0x8000_0000 ==>
      SizeT(CommandBufferSize - PosAsWritten(texts)) > CommandBufferSize
    decreases |texts|
  {
    if texts != [] {
      RoomAsWritten(texts[..|texts| - 1]);
    }
  }

  /** Each printed option is preceded by its separator. */
  lemma {:induction false} RenderLength(sep: string, items: seq<Properties.Item>)
    ensures |Properties.Render(sep, items)| >= |items| * |sep|
    decreases |items|
  {
    if items != [] {
      RenderLength(sep, items[1..]);
    }
  }

  /**
   * `describeEngine` on a pair whose name takes up nearly the whole buffer (such a name still fits a
   * `create` line of 2047 bytes): the name and the options already end past the buffer, so the final
   * `snprintf("\n")` is given a negative room, which as a `size_t` lets it write past the buffer.
   */
  lemma DescribeOverrunsAsWritten(p: Properties.Props)
    requires p.name.Some? && 2028 <= |p.name.value| <= 2040
    ensures |"create " + p.name.value| <= CommandBufferSize - 1
    ensures var room := CommandBufferSize - PosAsWritten([p.name.value, Properties.Print(p, None)]);
      && room < 0
      && (|Properties.Print(p, None)| < 0x4000_0000 ==> SizeT(room) > CommandBufferSize)
  {
    RenderLength(" --", Properties.Items(p));
    var texts := [p.name.value, Properties.Print(p, None)];
    assert texts[..1] == [p.name.value] && [p.name.value][..0] == [];
    assert Joined([p.name.value]) == p.name.value;
    assert Joined(texts) == p.name.value + Properties.Print(p, None);
    RoomAsWritten(texts);
  }

  /** The text the output buffer holds: as much of it as fits before the terminating NUL. */
  function Fit(text: string): (r: string)
    ensures |r| == Min(|text|, CommandBufferSize - 1) && r == text[..|r|]
    ensures |text| < CommandBufferSize ==> r == text
  {
    text[..Min(|text|, CommandBufferSize - 1)]
  }

  /**
   * One `snprintf` with `pos` kept inside the buffer, as the chains evidently intend: the next text
   * goes after what is there, cut so that the buffer keeps its NUL.
   */
  function Emit(out: string, text: string): (r: string)
    requires |out| < CommandBufferSize
    ensures |r| < CommandBufferSize && out <= r && r <= out + text
  {
    (out + text)[..Min(|out| + |text|, CommandBufferSize - 1)]
  }

  /** A chain of such calls into the empty buffer; each call is given a room of at least one byte. */
  function EmitAll(texts: seq<string>): (r: string)
    ensures |r| < CommandBufferSize
    decreases |texts|
  {
    if texts == [] then [] else Emit(EmitAll(texts[..|texts| - 1]), texts[|texts| - 1])
  }

  /**
   * The chain with the position kept inside the buffer holds the joined texts cut to the buffer, and
   * agrees with the chain as written whenever that one stays inside the buffer.
   */
  lemma {:induction false} EmitAllFits(texts: seq<string>)
    ensures EmitAll(texts) == Fit(Joined(texts))
    ensures PosAsWritten(texts) < CommandBufferSize ==> EmitAll(texts) == Joined(texts)
    decreases |texts|
  {
    RoomAsWritten(texts);
    if texts != [] {
      var n := |texts| - 1;
      EmitAllFits(texts[..n]);
      var a, b := Joined(texts[..n]), texts[n];
      var m := Min(|a| + |b|, CommandBufferSize - 1);
      assert Joined(texts) == a + b;
      if |a| < CommandBufferSize - 1 {
        assert EmitAll(texts[..n]) == a;
      } else {
        assert EmitAll(texts[..n]) == a[..m];
        assert (a[..m] + b)[..m] == (a + b)[..m];
      }
    }
  }

  class ControlNode {
    /** `mIOFlags`: the open flags of the current opener, 0 while closed. */
    var ioFlags: Flags
    /** The output buffer; as a C string its text ends at the first NUL. */
    var output: string
    /** The device's list of audio engines. */
    var engines: seq<Engine>

    ghost predicate Valid()
      reads this
    {
      Registered(engines) && Distinct(engines)
    }

    constructor ()
      ensures Valid() && ioFlags == 0 && output == [] && engines == []
    {
      ioFlags := 0;
      output := [];
      engines := [];
    }

    /** An open for reading finds the device listing in an empty output buffer. */
    method DevOpen(flags: Flags, cred: Devfs.Cred, built: string) returns (err: int)
      requires Valid()
      modifies this
      ensures Valid() && err == OpenError(old(ioFlags), flags) && engines == old(engines)
      ensures err != 0 ==> ioFlags == old(ioFlags) && output == old(output)
      ensures err == 0 ==> ioFlags == flags
      ensures err == 0 ==>
        output == (if flags & FWRITE == 0 && StrAt(old(output), 0) == [] then Fit(Info(engines, cred, built)) else old(output))
    {
      err := 0;
      if ioFlags != 0 {
        err := EACCES;
      } else if flags & FNONBLOCK != 0 {
        err := ENOTSUP;
      }
      if err == 0 {
        ioFlags := flags;
        if flags & FWRITE == 0 && StrAt(output, 0) == [] {
          var text := PrintInfo(engines, cred, built);
          output := Fit(text);
        }
      }
    }

    method DevClose() returns (err: int)
      modifies this
      ensures err == 0 && ioFlags == 0 && output == old(output) && engines == old(engines)
    {
      ioFlags := 0;
      err := 0;
    }

    /** A read takes up to `resid` bytes of the text and empties the buffer, whatever is left. */
    method DevRead(resid: nat) returns (err: int, data: string)
      modifies this
      ensures var text := StrAt(old(output), 0); data == text[..Min(resid, |text|)]
      ensures err == 0 && output == [] && ioFlags == old(ioFlags) && engines == old(engines)
    {
      var text := StrAt(output, 0);
      var count := Min(resid, |text|);
      data := [];
      if count > 0 {
        data := text[..count];
      }
      output := [];
      err := 0;
    }

    /**
     * A write takes at most 2047 bytes, cuts them into words and runs the command they form; the
     * answer replaces the output buffer's text only when the command writes one.
     */
    method DevWrite(data: string, cred: Devfs.Cred, built: string, node: Option<NodeInfo>) returns (err: int, taken: nat)
      requires Valid()
      modifies this
      ensures Valid() && ioFlags == old(ioFlags) && taken == |Accepted(data)|
      ensures taken == 0 ==> err == 0 && engines == old(engines) && output == old(output)
      ensures taken > 0 ==>
        var o := Command(old(engines), Tokens(StrAt(Accepted(data), 0)), cred, built, node);
        && err == o.err && engines == o.engines
        && output == if o.output.Some? then Fit(o.output.value) else old(output)
    {
      var count := Min(|data|, CommandBufferSize - 1);
      err := 0;
      taken := count;
      if count > 0 {
        var buf := new char[count + 1](i requires 0 <= i <= count => if i < count then data[i] else NUL);
        assert buf[..] == Accepted(data) + [NUL];
        StrAtTerminate(Accepted(data), 0);
        ghost var toks := Tokens(StrAt(buf[..], 0));
        var argc, argv := BuildArgv(buf);
        var o := ExecuteCommand(engines, buf, argc, argv, toks, cred, built, node);
        CommandKeepsRegistry(engines, toks, cred, built, node);
        err := o.err;
        engines := o.engines;
        if o.output.Some? {
          output := Fit(o.output.value);
        }
      }
    }
  }
}
