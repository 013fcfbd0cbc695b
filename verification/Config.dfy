/** The boot configuration: a parser that reads one line at a time, by indentation. */
module Config {
  import opened Optional
  import opened Text
  import opened ContainerSpec

  datatype ConfigError = MissingField

  datatype Result<+T> = Ok(value: T) | Err(error: ConfigError)

  datatype Builder = Builder(
    image: Option<string>, ports: seq<PortMapping>, restart: RestartPolicy, memory: Option<nat>, pids: Option<nat>)

  const NEW_BUILDER: Builder := Builder(None, [], Never, None, None)

  function GetOr(o: Option<nat>, default: nat): nat {
    match o case None => default case Some(n) => n
  }

  function Build(b: Builder): Result<Spec> {
    match b.image
    case None => Err(MissingField)
    case Some(image) =>
      var resources := ResourceLimits(GetOr(b.memory, DEFAULT_LIMITS.memory), GetOr(b.pids, DEFAULT_LIMITS.pids),
                                      DEFAULT_LIMITS.cpuShares);
      Ok(NewSpec(image, []).(ports := b.ports, restart := b.restart, resources := resources))
  }

  // ----- scalars

  function LeadingSpaces(s: string): nat {
    |s| - |TrimStart(s)|
  }

  function ValueAfterColon(line: string): string {
    match SplitOnce(line, ':') case None => "" case Some((_, v)) => Trim(v)
  }

  function ParseU16(s: string): Option<nat> {
    ParseUnsigned(Trim(s), 10, U16_LIMIT)
  }

  function ParseRestart(s: string): RestartPolicy {
    if Trim(s) == "always" then Always else if Trim(s) == "on-failure" then OnFailure else Never
  }

  function Scaled(digits: string, factor: nat): Option<nat> {
    match ParseUnsigned(Trim(digits), 10, USIZE_LIMIT)
    case None => None
    case Some(n) => Some(n * factor % USIZE_LIMIT)
  }

  predicate EndsWith(s: string, suffix: string) {
    |suffix| <= |s| && s[|s| - |suffix|..] == suffix
  }

  /** A number of bytes, or of units in a suffix of either case; a product too large wraps. */
  function ParseMemory(text: string): Option<nat> {
    var s := Lower(Trim(text));
    if EndsWith(s, "mb") then Scaled(s[..|s| - 2], 1024 * 1024)
    else if EndsWith(s, "gb") then Scaled(s[..|s| - 2], 1024 * 1024 * 1024)
    else if EndsWith(s, "kb") then Scaled(s[..|s| - 2], 1024)
    else ParseUnsigned(s, 10, USIZE_LIMIT)
  }

  // ----- the line state machine

  datatype Pending = Pending(host: Option<nat>, container: Option<nat>)

  datatype State = State(
    containers: seq<Spec>, inContainers: bool, current: Option<Builder>,
    inPorts: bool, inResources: bool, port: Option<Pending>)

  const START: State := State([], false, None, false, false, None)

  /** `line.starts_with("key:")`. */
  predicate HasKey(line: string, key: string) {
    StartsWith(line, key + ":")
  }

  /** A container in progress is built and appended. */
  function FlushContainer(s: State): Result<State> {
    match s.current
    case None => Ok(s)
    case Some(b) =>
      match Build(b)
      case Err(e) => Err(e)
      case Ok(spec) => Ok(s.(containers := s.containers + [spec], current := None))
  }

  /** A complete pending port joins the container in progress; a pending port is cleared either way. */
  function FlushPort(s: State): State {
    match (s.port, s.current)
    case (Some(Pending(Some(h), Some(c))), Some(b)) =>
      s.(current := Some(b.(ports := b.ports + [PortMapping(h, c)])), port := None)
    case _ => s.(port := None)
  }

  // Setting a field of the container in progress, when there is one.

  function SetRestart(s: State, r: RestartPolicy): State {
    match s.current case None => s case Some(b) => s.(current := Some(b.(restart := r)))
  }

  function SetMemory(s: State, m: Option<nat>): State {
    match s.current case None => s case Some(b) => s.(current := Some(b.(memory := m)))
  }

  function SetPids(s: State, p: Option<nat>): State {
    match s.current case None => s case Some(b) => s.(current := Some(b.(pids := p)))
  }

  function SetContainerPort(s: State, line: string): State {
    match s.port
    case None => s
    case Some(p) => s.(port := Some(p.(container := ParseU16(ValueAfterColon(line)))))
  }

  function StartPort(s: State, line: string): State {
    s.(port := Some(Pending(ParseU16(ValueAfterColon(line)), None)))
  }

  function Step0(s: State, line: string): Result<State> {
    match FlushContainer(s)
    case Err(e) => Err(e)
    case Ok(t) => Ok(t.(inContainers := line == "containers:", inPorts := false, inResources := false))
  }

  function StepImage(s: State, line: string): Result<State> {
    match FlushContainer(s)
    case Err(e) => Err(e)
    case Ok(t) =>
      Ok(t.(inPorts := false, inResources := false,
            current := Some(NEW_BUILDER.(image := Some(ValueAfterColon(line))))))
  }

  function Step4(s0: State, line: string): State {
    var s := FlushPort(s0);
    if line == "ports:" then s.(inPorts := true, inResources := false)
    else if line == "resources:" then s.(inResources := true, inPorts := false)
    else if HasKey(line, "restart") then
      SetRestart(s, ParseRestart(ValueAfterColon(line))).(inPorts := false, inResources := false)
    else if s.inPorts && HasKey(line, "- host") then StartPort(s, line)
    else s
  }

  function Step6(s: State, line: string): State {
    if s.inPorts && HasKey(line, "- host") then StartPort(FlushPort(s), line)
    else if s.inPorts && HasKey(line, "container") then SetContainerPort(s, line)
    else if s.inResources then
      var v := ValueAfterColon(line);
      var t := if HasKey(line, "memory") then SetMemory(s, ParseMemory(v)) else s;
      if HasKey(line, "pids_max") then SetPids(t, ParseUnsigned(v, 10, USIZE_LIMIT)) else t
    else s
  }

  function Step8(s: State, line: string): State {
    if s.inPorts && HasKey(line, "container") then SetContainerPort(s, line) else s
  }

  function Step(s: State, raw: string): Result<State> {
    var indent := LeadingSpaces(raw);
    var line := Trim(raw);
    if line == "" || line[0] == '#' then Ok(s)
    else if indent == 0 then Step0(s, line)
    else if !s.inContainers then Ok(s)
    else if indent == 2 && HasKey(line, "- image") then StepImage(s, line)
    else if indent == 4 then Ok(Step4(s, line))
    else if indent == 6 then Ok(Step6(s, line))
    else if indent == 8 then Ok(Step8(s, line))
    else Ok(s)
  }

  function Steps(s: State, lines: seq<string>): Result<State>
    decreases |lines|
  {
    if lines == [] then Ok(s)
    else match Step(s, lines[0])
      case Err(e) => Err(e)
      case Ok(t) => Steps(t, lines[1..])
  }

  function Finish(s: State): Result<seq<Spec>> {
    match FlushContainer(FlushPort(s))
    case Err(e) => Err(e)
    case Ok(t) => Ok(t.containers)
  }

  /** Lines end at '\n'; a '\r' before it, or an empty last line, goes with the trimming. */
  function FromYaml(yaml: string): Result<seq<Spec>> {
    match Steps(START, Split(yaml, '\n'))
    case Err(e) => Err(e)
    case Ok(s) => Finish(s)
  }

  // ----- the missing image that the reader reports cannot occur

  predicate HasImage(s: State) {
    s.current.Some? ==> s.current.value.image.Some?
  }

  lemma StepReads(s: State, raw: string)
    requires HasImage(s)
    ensures Step(s, raw).Ok? && HasImage(Step(s, raw).value)
  {
    var line := Trim(raw);
    StartsReads(s, line);
    FieldsKeepImage(s, line);
    assert Step(s, raw) in {
      Ok(s), Step0(s, line), StepImage(s, line), Ok(Step4(s, line)), Ok(Step6(s, line)), Ok(Step8(s, line))};
  }

  lemma StartsReads(s: State, line: string)
    requires HasImage(s)
    ensures Step0(s, line).Ok? && HasImage(Step0(s, line).value)
    ensures StepImage(s, line).Ok? && HasImage(StepImage(s, line).value)
  {
    FlushReads(s);
  }

  lemma FlushReads(s: State)
    requires HasImage(s)
    ensures FlushContainer(s).Ok? && FlushContainer(s).value.current == None
  {
  }

  lemma FieldsKeepImage(s: State, line: string)
    requires HasImage(s)
    ensures HasImage(Step4(s, line)) && HasImage(Step6(s, line)) && HasImage(Step8(s, line))
  {
    FlushKeepsImage(s);
    Step4KeepsImage(s, line);
    Step6KeepsImage(s, line);
  }

  lemma FlushKeepsImage(s: State)
    requires HasImage(s)
    ensures HasImage(FlushPort(s))
  {
  }

  lemma Step4KeepsImage(s: State, line: string)
    requires HasImage(s) && HasImage(FlushPort(s))
    ensures HasImage(Step4(s, line))
  {
  }

  lemma Step6KeepsImage(s: State, line: string)
    requires HasImage(s) && HasImage(FlushPort(s))
    ensures HasImage(Step6(s, line))
  {
  }

  lemma {:induction false} StepsRead(s: State, lines: seq<string>)
    requires HasImage(s)
    ensures Steps(s, lines).Ok? && HasImage(Steps(s, lines).value)
    decreases |lines|
  {
    if lines != [] {
      StepReads(s, lines[0]);
      StepsRead(Step(s, lines[0]).value, lines[1..]);
    }
  }

  /** No text whatever makes the reader fail: a container in progress always has its image. */
  lemma NeverFails(yaml: string)
    ensures FromYaml(yaml).Ok?
  {
    StepsRead(START, Split(yaml, '\n'));
    FlushReads(FlushPort(Steps(START, Split(yaml, '\n')).value));
  }

  method ParseYaml(yaml: string) returns (r: Result<seq<Spec>>)
    ensures r == FromYaml(yaml)
  {
    var lines := Split(yaml, '\n');
    var s := START;
    assert lines[0..] == lines;
    for i := 0 to |lines|
      invariant Steps(START, lines) == Steps(s, lines[i..])
    {
      assert lines[i..][1..] == lines[i + 1..];
      var t := Step(s, lines[i]);
      if t.Err? {
        return Err(t.error);
      }
      s := t.value;
    }
    r := Finish(s);
  }
}
