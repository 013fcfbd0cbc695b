/** Reading back written configurations: any key order, keys left out or repeated, other keys and sections between. */
module ConfigRoundTrip {
  import opened Optional
  import opened Text
  import opened ContainerSpec
  import opened Config
  import opened ConfigText
  import opened ConfigLines

  // ----- what is written

  /** A line of a resources block. */
  datatype Limit = Memory(text: string) | Pids(text: string)

  /** An entry of a ports block, its lines at their indentation; the container line may be missing. */
  datatype Entry = Entry(hostIndent: nat, host: string, containerIndent: nat, container: Option<string>)

  /** One key of a container with what stands below it, or a line with a key that means nothing. */
  datatype Block =
    | PortsBlock(entries: seq<Entry>)
    | RestartBlock(text: string)
    | ResourcesBlock(limits: seq<Limit>)
    | Unknown(indent: nat, text: string)

  /** A container with its keys in the order written. */
  datatype Written = Written(image: string, blocks: seq<Block>)

  /** A file: headers of sections, indented lines of other sections, and containers. */
  datatype Item = Header(text: string) | Skipped(raw: string) | Container(w: Written)

  predicate GoodEntry(e: Entry) {
    && e.hostIndent in {4, 6} && IsValue(e.host)
    && (e.container.Some? ==> e.containerIndent in {6, 8} && IsValue(e.container.value))
  }

  predicate GoodEntries(es: seq<Entry>) {
    forall i :: 0 <= i < |es| ==> GoodEntry(es[i])
  }

  predicate GoodLimits(ls: seq<Limit>) {
    forall i :: 0 <= i < |ls| ==> IsValue(ls[i].text)
  }

  predicate GoodBlock(k: Block) {
    match k
    case PortsBlock(es) => GoodEntries(es)
    case RestartBlock(text) => IsValue(text)
    case ResourcesBlock(ls) => GoodLimits(ls)
    case Unknown(indent, text) => UnknownKey(indent, text)
  }

  predicate GoodBlocks(ks: seq<Block>) {
    forall i :: 0 <= i < |ks| ==> GoodBlock(ks[i])
  }

  predicate Good(w: Written) {
    IsValue(w.image) && GoodBlocks(w.blocks)
  }

  /** Whether the containers section is open after some items. */
  predicate InContainers(items: seq<Item>) {
    items != [] &&
    match items[|items| - 1]
    case Header(text) => text == "containers:"
    case _ => InContainers(items[..|items| - 1])
  }

  /** Containers stand in containers sections, and indented lines of other sections outside. */
  predicate Follows(front: seq<Item>, item: Item) {
    match item
    case Header(text) => IsValue(text) && text != "" && text[0] != '#'
    case Skipped(raw) => !InContainers(front) && Indent(raw) > 0 && Without(raw, '\n')
    case Container(w) => InContainers(front) && Good(w)
  }

  predicate GoodFile(items: seq<Item>) {
    items == [] || (GoodFile(items[..|items| - 1]) && Follows(items[..|items| - 1], items[|items| - 1]))
  }

  // ----- what it means

  /** A port where host and container are both numbers, else nothing. */
  function EntryPorts(e: Entry): (ps: seq<PortMapping>)
    ensures |ps| <= 1
  {
    match (ParseU16(e.host), e.container)
    case (Some(h), Some(text)) => (match ParseU16(text) case Some(c) => [PortMapping(h, c)] case None => [])
    case _ => []
  }

  function AllPorts(es: seq<Entry>): seq<PortMapping> {
    if es == [] then [] else AllPorts(es[..|es| - 1]) + EntryPorts(es[|es| - 1])
  }

  function OrDefault(o: Option<nat>, default: nat): nat {
    if o.Some? then o.value else default
  }

  function WithLimit(r: ResourceLimits, l: Limit): ResourceLimits {
    match l
    case Memory(text) => r.(memory := OrDefault(ParseMemory(text), 268435456))
    case Pids(text) => r.(pids := OrDefault(ParseUnsigned(text, 10, 0x1_0000_0000_0000_0000), 100))
  }

  function WithLimits(r: ResourceLimits, ls: seq<Limit>): ResourceLimits {
    if ls == [] then r else WithLimit(WithLimits(r, ls[..|ls| - 1]), ls[|ls| - 1])
  }

  /** Ports add up; of other keys the last one written holds. */
  function WithBlock(spec: Spec, k: Block): Spec {
    match k
    case PortsBlock(es) => spec.(ports := spec.ports + AllPorts(es))
    case RestartBlock(text) => spec.(restart := PolicyOf(text))
    case ResourcesBlock(ls) => spec.(resources := WithLimits(spec.resources, ls))
    case Unknown(_, _) => spec
  }

  function WithBlocks(spec: Spec, ks: seq<Block>): Spec {
    if ks == [] then spec else WithBlock(WithBlocks(spec, ks[..|ks| - 1]), ks[|ks| - 1])
  }

  /** A container of which only the image is written. */
  function Bare(image: string): Spec {
    Spec(image, [], [], [], [], Bridge, ResourceLimits(268435456, 100, 1024), Never)
  }

  function Meaning(w: Written): Spec {
    WithBlocks(Bare(w.image), w.blocks)
  }

  function Meanings(items: seq<Item>): seq<Spec> {
    if items == [] then []
    else
      var front := items[..|items| - 1];
      Meanings(front) + match items[|items| - 1] case Container(w) => [Meaning(w)] case _ => []
  }

  // ----- how it is written

  function EntryLines(e: Entry): seq<string> {
    [KeyLine(e.hostIndent, "- host", e.host)]
    + match e.container case None => [] case Some(text) => [KeyLine(e.containerIndent, "container", text)]
  }

  function EntriesLines(es: seq<Entry>): seq<string> {
    if es == [] then [] else EntriesLines(es[..|es| - 1]) + EntryLines(es[|es| - 1])
  }

  function LimitLine(l: Limit): string {
    match l
    case Memory(text) => KeyLine(6, "memory", text)
    case Pids(text) => KeyLine(6, "pids_max", text)
  }

  function LimitLines(ls: seq<Limit>): seq<string> {
    if ls == [] then [] else LimitLines(ls[..|ls| - 1]) + [LimitLine(ls[|ls| - 1])]
  }

  function BlockLines(k: Block): seq<string> {
    match k
    case PortsBlock(es) => [KeyLine(4, "ports", "")] + EntriesLines(es)
    case RestartBlock(text) => [KeyLine(4, "restart", text)]
    case ResourcesBlock(ls) => [KeyLine(4, "resources", "")] + LimitLines(ls)
    case Unknown(indent, text) => [Blanks(indent) + text]
  }

  function BlocksLines(ks: seq<Block>): seq<string> {
    if ks == [] then [] else BlocksLines(ks[..|ks| - 1]) + BlockLines(ks[|ks| - 1])
  }

  function ContainerLines(w: Written): seq<string> {
    [KeyLine(2, "- image", w.image)] + BlocksLines(w.blocks)
  }

  function ItemLines(item: Item): seq<string> {
    match item
    case Header(text) => [text]
    case Skipped(raw) => [raw]
    case Container(w) => ContainerLines(w)
  }

  function Lines(items: seq<Item>): seq<string> {
    if items == [] then [] else Lines(items[..|items| - 1]) + ItemLines(items[|items| - 1])
  }

  // ----- the reader inside a container

  /** The reader's pending port is p, or an entry that gives no port. */
  predicate PendingIs(port: Option<Pending>, p: seq<PortMapping>) {
    match port
    case Some(Pending(Some(h), Some(c))) => p == [PortMapping(h, c)]
    case _ => p == []
  }

  /** The reader is inside container b, where b has the pending port p already. */
  predicate Inside(s: State, done: seq<Spec>, b: Builder, p: seq<PortMapping>) {
    && s.inContainers && s.containers == done && PendingIs(s.port, p)
    && s.current.Some? && FlushPort(s).current == Some(b)
  }

  lemma FlushInside(s: State, done: seq<Spec>, b: Builder, p: seq<PortMapping>)
    requires Inside(s, done, b, p)
    ensures FlushPort(s) == s.(current := Some(b), port := None)
    ensures p == [] ==> s.current == Some(b)
    ensures p != [] ==> s.current.value == b.(ports := s.current.value.ports) && b.ports == s.current.value.ports + p
  {
  }

  lemma {:induction false} EntryReads(s: State, done: seq<Spec>, b: Builder, p: seq<PortMapping>, e: Entry)
    requires Inside(s, done, b, p) && s.inPorts && GoodEntry(e)
    ensures var r := Steps(s, EntryLines(e));
      r.Ok? && r.value.inPorts && Inside(r.value, done, b.(ports := b.ports + EntryPorts(e)), EntryPorts(e))
  {
    FlushInside(s, done, b, p);
    var line := KeyLine(e.hostIndent, "- host", e.host);
    var h := ParseU16(e.host);
    StepHost(s, e.hostIndent, e.host);
    StepsOne(s, line);
    var t := FlushPort(s).(port := Some(Pending(h, None)));
    assert b.ports + [] == b.ports;
    if e.container.None? {
      assert EntryLines(e) == [line];
      assert FlushPort(t).current == Some(b);
    } else {
      var text := e.container.value;
      var next := KeyLine(e.containerIndent, "container", text);
      StepContainer(t, e.containerIndent, h, text);
      StepsOne(t, next);
      StepsAppend(s, [line], [next]);
    }
  }

  function LastPorts(es: seq<Entry>): seq<PortMapping> {
    if es == [] then [] else EntryPorts(es[|es| - 1])
  }

  lemma {:induction false} EntriesRead(s: State, done: seq<Spec>, b: Builder, es: seq<Entry>)
    requires Inside(s, done, b, []) && s.inPorts && GoodEntries(es)
    ensures var r := Steps(s, EntriesLines(es));
      r.Ok? && r.value.inPorts && Inside(r.value, done, b.(ports := b.ports + AllPorts(es)), LastPorts(es))
  {
    if es == [] {
      assert b.ports + [] == b.ports;
    } else {
      var front, e := es[..|es| - 1], es[|es| - 1];
      EntriesRead(s, done, b, front);
      var t := Steps(s, EntriesLines(front)).value;
      EntryReads(t, done, b.(ports := b.ports + AllPorts(front)), LastPorts(front), e);
      StepsAppend(s, EntriesLines(front), EntryLines(e));
      Associate(b.ports, AllPorts(front), EntryPorts(e));
    }
  }

  function SetLimit(b: Builder, l: Limit): Builder {
    match l
    case Memory(text) => b.(memory := ParseMemory(text))
    case Pids(text) => b.(pids := ParseUnsigned(text, 10, 0x1_0000_0000_0000_0000))
  }

  function SetLimits(b: Builder, ls: seq<Limit>): Builder {
    if ls == [] then b else SetLimit(SetLimits(b, ls[..|ls| - 1]), ls[|ls| - 1])
  }

  lemma {:induction false} StepsLimitLines(s: State, ls: seq<Limit>, b: Builder)
    requires s.inContainers && s.inResources && !s.inPorts && s.current == Some(b) && GoodLimits(ls)
    ensures Steps(s, LimitLines(ls)) == Ok(s.(current := Some(SetLimits(b, ls))))
  {
    if ls != [] {
      var front, l := ls[..|ls| - 1], ls[|ls| - 1];
      StepsLimitLines(s, front, b);
      var t := s.(current := Some(SetLimits(b, front)));
      match l {
        case Memory(text) => MemoryLine(t, text, SetLimits(b, front));
        case Pids(text) => PidsLine(t, text, SetLimits(b, front));
      }
      StepsOne(t, LimitLine(l));
      StepsAppend(s, LimitLines(front), [LimitLine(l)]);
    }
  }

  function SetBlock(b: Builder, k: Block): Builder {
    match k
    case PortsBlock(es) => b.(ports := b.ports + AllPorts(es))
    case RestartBlock(text) => b.(restart := PolicyOf(text))
    case ResourcesBlock(ls) => SetLimits(b, ls)
    case Unknown(_, _) => b
  }

  /** The port pending after a block, when p was pending before it. */
  function Left(p: seq<PortMapping>, k: Block): seq<PortMapping> {
    match k
    case PortsBlock(es) => LastPorts(es)
    case Unknown(indent, _) => if indent == 4 then [] else p
    case _ => []
  }

  lemma {:induction false} PortsBlockReads(s: State, done: seq<Spec>, b: Builder, p: seq<PortMapping>, es: seq<Entry>)
    requires Inside(s, done, b, p) && GoodEntries(es)
    ensures var r := Steps(s, BlockLines(PortsBlock(es)));
      r.Ok? && Inside(r.value, done, b.(ports := b.ports + AllPorts(es)), LastPorts(es))
  {
    FlushInside(s, done, b, p);
    StepPorts(s);
    StepsOne(s, KeyLine(4, "ports", ""));
    StepsAppend(s, [KeyLine(4, "ports", "")], EntriesLines(es));
    EntriesRead(FlushPort(s).(inPorts := true, inResources := false), done, b, es);
  }

  lemma {:induction false} RestartBlockReads(s: State, done: seq<Spec>, b: Builder, p: seq<PortMapping>, text: string)
    requires Inside(s, done, b, p) && IsValue(text)
    ensures var t := Steps(s, BlockLines(RestartBlock(text)));
      t.Ok? && Inside(t.value, done, b.(restart := PolicyOf(text)), [])
  {
    FlushInside(s, done, b, p);
    StepRestart(s, text, b);
    StepsOne(s, KeyLine(4, "restart", text));
  }

  lemma {:induction false} ResourcesBlockReads(
    s: State, done: seq<Spec>, b: Builder, p: seq<PortMapping>, ls: seq<Limit>)
    requires Inside(s, done, b, p) && GoodLimits(ls)
    ensures var r := Steps(s, BlockLines(ResourcesBlock(ls)));
      r.Ok? && Inside(r.value, done, SetLimits(b, ls), [])
  {
    FlushInside(s, done, b, p);
    StepResources(s);
    StepsOne(s, KeyLine(4, "resources", ""));
    StepsAppend(s, [KeyLine(4, "resources", "")], LimitLines(ls));
    StepsLimitLines(FlushPort(s).(inResources := true, inPorts := false), ls, b);
  }

  lemma {:induction false} UnknownReads(
    s: State, done: seq<Spec>, b: Builder, p: seq<PortMapping>, indent: nat, text: string)
    requires Inside(s, done, b, p) && UnknownKey(indent, text)
    ensures var r := Steps(s, BlockLines(Unknown(indent, text)));
      r.Ok? && Inside(r.value, done, b, if indent == 4 then [] else p)
  {
    FlushInside(s, done, b, p);
    StepUnknown(s, indent, text);
    StepsOne(s, Blanks(indent) + text);
  }

  /** A key takes in the pending port and leaves none pending but the last of its own; unknown keys may pass it on. */
  lemma {:induction false} BlockReads(s: State, done: seq<Spec>, b: Builder, p: seq<PortMapping>, k: Block)
    requires Inside(s, done, b, p) && GoodBlock(k)
    ensures var r := Steps(s, BlockLines(k)); r.Ok? && Inside(r.value, done, SetBlock(b, k), Left(p, k))
  {
    match k
    case PortsBlock(es) => PortsBlockReads(s, done, b, p, es);
    case RestartBlock(text) => RestartBlockReads(s, done, b, p, text);
    case ResourcesBlock(ls) => ResourcesBlockReads(s, done, b, p, ls);
    case Unknown(indent, text) => UnknownReads(s, done, b, p, indent, text);
  }

  // ----- one container at a time

  function SetBlocks(b: Builder, ks: seq<Block>): Builder {
    if ks == [] then b else SetBlock(SetBlocks(b, ks[..|ks| - 1]), ks[|ks| - 1])
  }

  /** The port pending after some keys, when p was pending before them. */
  function LeftAfter(p: seq<PortMapping>, ks: seq<Block>): seq<PortMapping> {
    if ks == [] then p else Left(LeftAfter(p, ks[..|ks| - 1]), ks[|ks| - 1])
  }

  lemma {:induction false} BlocksRead(s: State, done: seq<Spec>, b: Builder, p: seq<PortMapping>, ks: seq<Block>)
    requires Inside(s, done, b, p) && GoodBlocks(ks)
    ensures var r := Steps(s, BlocksLines(ks)); r.Ok? && Inside(r.value, done, SetBlocks(b, ks), LeftAfter(p, ks))
  {
    if ks != [] {
      var front, k := ks[..|ks| - 1], ks[|ks| - 1];
      BlocksRead(s, done, b, p, front);
      BlockReads(Steps(s, BlocksLines(front)).value, done, SetBlocks(b, front), LeftAfter(p, front), k);
      StepsAppend(s, BlocksLines(front), BlockLines(k));
    }
  }

  /** The builder of a new container that takes in the ports p. */
  function Fresh(image: string, p: seq<PortMapping>): Builder {
    NEW_BUILDER.(image := Some(image), ports := p)
  }

  /** From any state between containers, a container takes in the port pending before it. */
  lemma {:induction false} ContainerReads(s: State, p: seq<PortMapping>, w: Written)
    requires s.inContainers && PendingIs(s.port, p) && FlushContainer(s).Ok? && Good(w)
    ensures var r := Steps(s, ContainerLines(w));
      && r.Ok?
      && Inside(r.value, FlushContainer(s).value.containers,
                SetBlocks(Fresh(w.image, p), w.blocks), LeftAfter(p, w.blocks))
  {
    var line := KeyLine(2, "- image", w.image);
    StepImageLine(s, w.image);
    StepsOne(s, line);
    StepsAppend(s, [line], BlocksLines(w.blocks));
    var t := Step(s, line).value;
    assert t.port == s.port && t.current == Some(Fresh(w.image, []));
    assert [] + p == p;
    BlocksRead(t, FlushContainer(s).value.containers, Fresh(w.image, p), p, w.blocks);
  }

  /** The builder stands for the container, with the ports p in front. */
  predicate StandsFor(b: Builder, spec: Spec, p: seq<PortMapping>) {
    Build(b) == Ok(spec.(ports := p + spec.ports))
  }

  lemma {:induction false} LimitsStandFor(b: Builder, spec: Spec, p: seq<PortMapping>, ls: seq<Limit>)
    requires StandsFor(b, spec, p)
    ensures StandsFor(SetLimits(b, ls), spec.(resources := WithLimits(spec.resources, ls)), p)
  {
    if ls != [] { LimitsStandFor(b, spec, p, ls[..|ls| - 1]); }
  }

  lemma {:induction false} BlocksStandFor(b: Builder, spec: Spec, p: seq<PortMapping>, ks: seq<Block>)
    requires StandsFor(b, spec, p)
    ensures StandsFor(SetBlocks(b, ks), WithBlocks(spec, ks), p)
  {
    if ks != [] {
      var front, k := ks[..|ks| - 1], ks[|ks| - 1];
      BlocksStandFor(b, spec, p, front);
      var c, t := SetBlocks(b, front), WithBlocks(spec, front);
      match k
      case PortsBlock(es) => Associate(p, t.ports, AllPorts(es));
      case RestartBlock(_) =>
      case ResourcesBlock(ls) => LimitsStandFor(c, t, p, ls);
      case Unknown(_, _) =>
    }
  }

  /** Building gives what is written, and the defaults for what is not. */
  lemma ContainerStandsFor(w: Written, p: seq<PortMapping>)
    ensures StandsFor(SetBlocks(Fresh(w.image, p), w.blocks), Meaning(w), p)
  {
    assert p + [] == p;
    BlocksStandFor(Fresh(w.image, p), Bare(w.image), p, w.blocks);
  }

  /** Ports without the last one, if that is pending. */
  function Settled(ps: seq<PortMapping>, p: seq<PortMapping>): seq<PortMapping> {
    if p == [] || ps == [] then ps else ps[..|ps| - 1]
  }

  /** A container cut off by what follows it loses its pending port. */
  lemma CutOff(s: State, done: seq<Spec>, b: Builder, p: seq<PortMapping>)
    requires Inside(s, done, b, p) && b.image.Some?
    ensures FlushContainer(s)
      == Ok(s.(containers := done + [Build(b.(ports := Settled(b.ports, p))).value], current := None))
  {
    FlushInside(s, done, b, p);
    if p != [] {
      var a := s.current.value;
      assert b.ports[..|b.ports| - 1] == a.ports;
    }
  }

  lemma PortsOnly(b: Builder, spec: Spec, p: seq<PortMapping>)
    requires StandsFor(b, spec, p)
    ensures b.image.Some? && b.ports == p + spec.ports
    ensures forall ps :: Build(b.(ports := ps)) == Ok(spec.(ports := ps))
  {
  }

  // ----- whole files

  /** The port pending after some items; only the keys of a container take it in. */
  function Carried(items: seq<Item>): seq<PortMapping> {
    if items == [] then []
    else
      var p := Carried(items[..|items| - 1]);
      match items[|items| - 1] case Container(w) => LeftAfter(p, w.blocks) case _ => p
  }

  /** A container as read, with p pending before it and something else after it. */
  function Reading(w: Written, p: seq<PortMapping>): Spec {
    Meaning(w).(ports := Settled(p + Meaning(w).ports, LeftAfter(p, w.blocks)))
  }

  function Readings(items: seq<Item>): seq<Spec> {
    if items == [] then []
    else
      var front := items[..|items| - 1];
      Readings(front) + match items[|items| - 1] case Container(w) => [Reading(w, Carried(front))] case _ => []
  }

  /** The whole file as read: the end of input flushes the pending port into a container that is still open. */
  function AllRead(items: seq<Item>): seq<Spec> {
    if items == [] || !items[|items| - 1].Container? then Readings(items)
    else
      var front, w := items[..|items| - 1], items[|items| - 1].w;
      Readings(front) + [Meaning(w).(ports := Carried(front) + Meaning(w).ports)]
  }

  /** The reader after the lines of some items. */
  predicate After(s: State, items: seq<Item>) {
    && s.inContainers == InContainers(items) && PendingIs(s.port, Carried(items))
    && FlushContainer(s).Ok? && FlushContainer(s).value.containers == Readings(items)
    && (items == [] || !items[|items| - 1].Container? ==> s.current == None && s.containers == Readings(items))
    && (items != [] && items[|items| - 1].Container? ==>
      var front, w := items[..|items| - 1], items[|items| - 1].w;
      Inside(s, Readings(front), SetBlocks(Fresh(w.image, Carried(front)), w.blocks), Carried(items)))
  }

  lemma AfterHeader(s: State, front: seq<Item>, text: string)
    requires After(s, front) && IsValue(text) && text != "" && text[0] != '#'
    ensures Step(s, text).Ok? && After(Step(s, text).value, front + [Header(text)])
  {
    StepHeader(s, text);
    SnocItem(front, Header(text));
    assert Readings(front) + [] == Readings(front);
  }

  lemma {:induction false} AfterSkipped(s: State, front: seq<Item>, raw: string)
    requires After(s, front) && !s.inContainers && Indent(raw) > 0
    ensures Step(s, raw).Ok? && After(Step(s, raw).value, front + [Skipped(raw)])
  {
    StepSkipped(s, raw);
    SnocItem(front, Skipped(raw));
    assert Readings(front) + [] == Readings(front);
  }

  lemma {:induction false} AfterContainer(s: State, front: seq<Item>, w: Written)
    requires After(s, front) && s.inContainers && Good(w)
    ensures var r := Steps(s, ContainerLines(w)); r.Ok? && After(r.value, front + [Container(w)])
  {
    var p := Carried(front);
    SnocItem(front, Container(w));
    assert (front + [Container(w)])[..|front|] == front;
    ContainerReads(s, p, w);
    var b := SetBlocks(Fresh(w.image, p), w.blocks);
    ContainerStandsFor(w, p);
    PortsOnly(b, Meaning(w), p);
    CutOff(Steps(s, ContainerLines(w)).value, Readings(front), b, LeftAfter(p, w.blocks));
  }

  lemma {:induction false} AfterItem(s: State, front: seq<Item>, item: Item)
    requires After(s, front) && Follows(front, item)
    ensures var r := Steps(s, ItemLines(item)); r.Ok? && After(r.value, front + [item])
  {
    match item {
      case Header(text) => AfterHeader(s, front, text); StepsOne(s, text);
      case Skipped(raw) => AfterSkipped(s, front, raw); StepsOne(s, raw);
      case Container(w) => AfterContainer(s, front, w);
    }
  }

  lemma {:induction false} StepsLines(items: seq<Item>)
    requires GoodFile(items)
    ensures Steps(START, Lines(items)).Ok? && After(Steps(START, Lines(items)).value, items)
  {
    if items != [] {
      var front, item := items[..|items| - 1], items[|items| - 1];
      StepsLines(front);
      AfterItem(Steps(START, Lines(front)).value, front, item);
      StepsAppend(START, Lines(front), ItemLines(item));
      assert items == front + [item];
    }
  }

  /**
   * What any written file is read as, with comments, blank lines and lines at odd indentations anywhere between:
   * a pending port goes to the next container, or at the end of input to the one still open.
   */
  lemma {:induction false} FileReads(items: seq<Item>, lines: seq<string>)
    requires GoodFile(items) && Denoised(lines) == Denoised(Lines(items)) && OneLiners(lines)
    ensures FromYaml(FileOf(lines)) == Ok(AllRead(items))
  {
    StepsLines(items);
    StepsDenoised(START, lines);
    StepsDenoised(START, Lines(items));
    var s := Steps(START, lines).value;
    YamlOfLines(lines, s);
    FinishReads(s, items);
  }

  lemma FinishReads(s: State, items: seq<Item>)
    requires After(s, items)
    ensures Finish(s) == Ok(AllRead(items))
  {
    if items != [] && items[|items| - 1].Container? {
      var front, w := items[..|items| - 1], items[|items| - 1].w;
      var p := Carried(front);
      var b := SetBlocks(Fresh(w.image, p), w.blocks);
      ContainerStandsFor(w, p);
      FlushInside(s, Readings(front), b, Carried(items));
    }
  }

  // ----- when it is what was meant

  /** The last ports of the container stay pending: no key follows that takes them in. */
  predicate EndsOnPorts(w: Written) {
    LeftAfter([], w.blocks) != []
  }

  predicate NoneEnds(items: seq<Item>) {
    forall i :: 0 <= i < |items| ==> items[i].Container? ==> !EndsOnPorts(items[i].w)
  }

  lemma {:induction false} LastPortsAreLast(es: seq<Entry>)
    ensures LastPorts(es) != [] ==> AllPorts(es) != []
  {
  }

  /** A pending port is one of the container's own. */
  lemma {:induction false} LeftIsPort(spec: Spec, ks: seq<Block>)
    ensures LeftAfter([], ks) != [] ==> WithBlocks(spec, ks).ports != []
  {
    if ks != [] {
      var k := ks[|ks| - 1];
      LeftIsPort(spec, ks[..|ks| - 1]);
      if k.PortsBlock? { LastPortsAreLast(k.entries); }
    }
  }

  lemma ReadingIff(w: Written)
    ensures Reading(w, []) == Meaning(w) <==> !EndsOnPorts(w)
  {
    var ports := Meaning(w).ports;
    assert [] + ports == ports;
    LeftIsPort(Bare(w.image), w.blocks);
    if EndsOnPorts(w) { assert |ports[..|ports| - 1]| != |ports|; }
  }

  lemma AppendedNothing(p: seq<PortMapping>, ps: seq<PortMapping>)
    ensures p + ps == ps <==> p == []
  {
    if p + ps == ps { assert |p + ps| == |p| + |ps|; }
  }

  lemma SnocEqual<T>(a: seq<T>, x: T, b: seq<T>, y: T)
    requires |a| == |b|
    ensures a + [x] == b + [y] <==> a == b && x == y
  {
    if a + [x] == b + [y] {
      assert (a + [x])[..|a|] == a && (b + [y])[..|b|] == b;
      assert (a + [x])[|a|] == x && (b + [y])[|b|] == y;
    }
  }

  /** Every container is read as meant exactly when none ends on ports; then no port is pending either. */
  lemma {:induction false} ReadingsIff(items: seq<Item>)
    ensures |Readings(items)| == |Meanings(items)|
    ensures Readings(items) == Meanings(items) <==> NoneEnds(items)
    ensures NoneEnds(items) ==> Carried(items) == []
  {
    if items != [] {
      var front, item := items[..|items| - 1], items[|items| - 1];
      ReadingsIff(front);
      NoneEndsSnoc(items);
      if item.Container? {
        SnocEqual(Readings(front), Reading(item.w, Carried(front)), Meanings(front), Meaning(item.w));
        if NoneEnds(front) { ReadingIff(item.w); }
      } else {
        assert Readings(front) + [] == Readings(front) && Meanings(front) + [] == Meanings(front);
      }
    }
  }

  lemma NoneEndsSnoc(items: seq<Item>)
    requires items != []
    ensures var item := items[|items| - 1];
      NoneEnds(items) <==> NoneEnds(items[..|items| - 1]) && (item.Container? ==> !EndsOnPorts(item.w))
  {
    var front := items[..|items| - 1];
    assert forall i :: 0 <= i < |front| ==> front[i] == items[i];
  }

  /**
   * A file is read back as meant exactly when no container ends on a port, but for one that the end of the file
   * follows.
   */
  lemma {:induction false} RoundTripIff(items: seq<Item>, lines: seq<string>)
    requires GoodFile(items) && Denoised(lines) == Denoised(Lines(items)) && OneLiners(lines)
    ensures FromYaml(FileOf(lines)) == Ok(Meanings(items)) <==> OnlyLastEnds(items)
  {
    FileReads(items, lines);
    ReadIff(items);
  }

  /** No container but a last item ends on ports. */
  predicate OnlyLastEnds(items: seq<Item>) {
    items == [] || NoneEnds(items[..|items| - 1])
  }

  lemma {:induction false} ReadIff(items: seq<Item>)
    ensures AllRead(items) == Meanings(items) <==> OnlyLastEnds(items)
  {
    if items != [] {
      var front, item := items[..|items| - 1], items[|items| - 1];
      assert items == front + [item];
      ReadSnocIff(front, item);
    }
  }

  lemma {:induction false} ReadSnocIff(front: seq<Item>, item: Item)
    ensures AllRead(front + [item]) == Meanings(front + [item]) <==> NoneEnds(front)
  {
    SnocItem(front, item);
    ReadingsIff(front);
    if item.Container? {
      LastIff(front, item.w);
    } else {
      assert Readings(front) + [] == Readings(front) && Meanings(front) + [] == Meanings(front);
    }
  }

  lemma {:induction false} LastIff(front: seq<Item>, w: Written)
    ensures var last := Meaning(w).(ports := Carried(front) + Meaning(w).ports);
      Readings(front) + [last] == Meanings(front) + [Meaning(w)] <==> NoneEnds(front)
  {
    ReadingsIff(front);
    AppendedNothing(Carried(front), Meaning(w).ports);
    SnocEqual(Readings(front), Meaning(w).(ports := Carried(front) + Meaning(w).ports), Meanings(front), Meaning(w));
  }

  /** Ports, then restart, then resources. */
  predicate InOrder(w: Written) {
    |w.blocks| == 3 && w.blocks[0].PortsBlock? && w.blocks[1].RestartBlock? && w.blocks[2].ResourcesBlock?
  }

  /** In that order of keys every file is read back. */
  lemma {:induction false} RoundTrip(items: seq<Item>, lines: seq<string>)
    requires GoodFile(items) && Denoised(lines) == Denoised(Lines(items)) && OneLiners(lines)
    requires forall i :: 0 <= i < |items| ==> items[i].Container? ==> InOrder(items[i].w)
    ensures FromYaml(FileOf(lines)) == Ok(Meanings(items))
  {
    forall i | 0 <= i < |items| && items[i].Container? ensures !EndsOnPorts(items[i].w) {
      InOrderSettles(items[i].w);
    }
    RoundTripIff(items, lines);
    if items != [] { NoneEndsSnoc(items); }
  }

  lemma InOrderSettles(w: Written)
    requires InOrder(w)
    ensures !EndsOnPorts(w)
  {
  }

  lemma TwoContainers(h: string, v: Written, w: Written)
    ensures var items := [Header(h), Container(v), Container(w)];
      && Meanings(items) == [Meaning(v), Meaning(w)]
      && AllRead(items) == [Reading(v, []), Meaning(w).(ports := LeftAfter([], v.blocks) + Meaning(w).ports)]
      && (GoodFile(items) <==> IsValue(h) && h == "containers:" && Good(v) && Good(w))
  {
    var none: seq<Item> := [];
    var a, b := none + [Header(h)], none + [Header(h)] + [Container(v)];
    SnocItem(none, Header(h));
    SnocItem(a, Container(v));
    SnocItem(b, Container(w));
    assert [Header(h), Container(v), Container(w)] == b + [Container(w)];
    assert [Meaning(v)] + [Meaning(w)] == [Meaning(v), Meaning(w)];
  }

  lemma {:induction false} SnocItem(front: seq<Item>, item: Item)
    ensures var items := front + [item];
      && Meanings(items) == Meanings(front) + (if item.Container? then [Meaning(item.w)] else [])
      && Readings(items) == Readings(front) + (if item.Container? then [Reading(item.w, Carried(front))] else [])
      && Carried(items) == (if item.Container? then LeftAfter(Carried(front), item.w.blocks) else Carried(front))
      && AllRead(items) == (if item.Container?
        then Readings(front) + [Meaning(item.w).(ports := Carried(front) + Meaning(item.w).ports)] else Readings(items))
      && (GoodFile(items) <==> GoodFile(front) && Follows(front, item))
      && InContainers(items) == (if item.Header? then item.text == "containers:" else InContainers(front))
  {
    var items := front + [item];
    assert items[..|items| - 1] == front;
  }

  lemma {:induction false} OneBlock(spec: Spec, p: seq<PortMapping>, k: Block)
    ensures WithBlocks(spec, [k]) == WithBlock(spec, k) && LeftAfter(p, [k]) == Left(p, k)
  {
    var ks := [k];
    assert ks[..|ks| - 1] == [];
  }

  lemma OneEntry(e: Entry)
    ensures AllPorts([e]) == EntryPorts(e) == LastPorts([e])
  {
    var es := [e];
    assert es[..|es| - 1] == [];
    assert [] + EntryPorts(e) == EntryPorts(e);
  }

  /** The round trip does fail: a lone ports block loses its port to the next container. */
  lemma PortMovesOn(x: string, y: string, e: Entry)
    requires IsValue(x) && IsValue(y) && GoodEntry(e)
    ensures var items := [Header("containers:"), Container(Written(x, [PortsBlock([e])])), Container(Written(y, []))];
      && Meanings(items) == [Bare(x).(ports := EntryPorts(e)), Bare(y)]
      && FromYaml(FileOf(Lines(items))) == Ok([Bare(x), Bare(y).(ports := EntryPorts(e))])
  {
    var k := PortsBlock([e]);
    var v, w := Written(x, [k]), Written(y, []);
    OneBlock(Bare(x), [], k);
    OneEntry(e);
    assert [] + EntryPorts(e) == EntryPorts(e) && EntryPorts(e) + [] == EntryPorts(e);
    TwoContainers("containers:", v, w);
    var items := [Header("containers:"), Container(v), Container(w)];
    FileOneLiners(items);
    FileReads(items, Lines(items));
  }

  // ----- written lines are lines

  lemma UnknownIsOneLine(indent: nat, text: string)
    requires UnknownKey(indent, text)
    ensures Without(Blanks(indent) + text, '\n')
  {
  }

  lemma {:induction false} EntriesOneLiners(es: seq<Entry>)
    requires GoodEntries(es)
    ensures OneLiners(EntriesLines(es))
  {
    if es != [] {
      var e := es[|es| - 1];
      EntriesOneLiners(es[..|es| - 1]);
      KeyLineIsOneLine(e.hostIndent, "- host", e.host);
      if e.container.Some? { KeyLineIsOneLine(e.containerIndent, "container", e.container.value); }
      JoinedOneLiners(EntriesLines(es[..|es| - 1]), EntryLines(e));
    }
  }

  lemma {:induction false} LimitLinesOneLiners(ls: seq<Limit>)
    requires GoodLimits(ls)
    ensures OneLiners(LimitLines(ls))
  {
    if ls != [] {
      var l := ls[|ls| - 1];
      LimitLinesOneLiners(ls[..|ls| - 1]);
      KeyLineIsOneLine(6, "memory", l.text);
      KeyLineIsOneLine(6, "pids_max", l.text);
      JoinedOneLiners(LimitLines(ls[..|ls| - 1]), [LimitLine(l)]);
    }
  }

  lemma BlockOneLiners(k: Block)
    requires GoodBlock(k)
    ensures OneLiners(BlockLines(k))
  {
    match k
    case PortsBlock(es) =>
      KeyLineIsOneLine(4, "ports", "");
      EntriesOneLiners(es);
      JoinedOneLiners([KeyLine(4, "ports", "")], EntriesLines(es));
    case RestartBlock(text) =>
      KeyLineIsOneLine(4, "restart", text);
    case ResourcesBlock(ls) =>
      KeyLineIsOneLine(4, "resources", "");
      LimitLinesOneLiners(ls);
      JoinedOneLiners([KeyLine(4, "resources", "")], LimitLines(ls));
    case Unknown(indent, text) =>
      UnknownIsOneLine(indent, text);
  }

  lemma {:induction false} BlocksOneLiners(ks: seq<Block>)
    requires GoodBlocks(ks)
    ensures OneLiners(BlocksLines(ks))
  {
    if ks != [] {
      BlocksOneLiners(ks[..|ks| - 1]);
      BlockOneLiners(ks[|ks| - 1]);
      JoinedOneLiners(BlocksLines(ks[..|ks| - 1]), BlockLines(ks[|ks| - 1]));
    }
  }

  /** What is written is lines; a file may be just those. */
  lemma {:induction false} FileOneLiners(items: seq<Item>)
    requires GoodFile(items)
    ensures OneLiners(Lines(items))
  {
    if items != [] {
      var front, item := items[..|items| - 1], items[|items| - 1];
      FileOneLiners(front);
      if item.Container? {
        KeyLineIsOneLine(2, "- image", item.w.image);
        BlocksOneLiners(item.w.blocks);
        JoinedOneLiners([KeyLine(2, "- image", item.w.image)], BlocksLines(item.w.blocks));
      }
      JoinedOneLiners(Lines(front), ItemLines(item));
    }
  }
}
