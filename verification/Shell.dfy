/** `container run`: two scans over one argument list, each blind to the other's flags. */
module Shell {
  import opened Optional
  import opened Text
  import opened ContainerSpec

  datatype ShellError = MissingArgument(what: string) | BadPortMapping

  datatype Result<+T> = Ok(value: T) | Err(error: ShellError)

  predicate IsPortFlag(arg: string) {
    arg == "-p" || arg == "--publish"
  }

  predicate IsVolumeFlag(arg: string) {
    arg == "-v" || arg == "--volume"
  }

  function PortOf(arg: string): Result<PortMapping> {
    match SplitOnce(arg, ':')
    case None => Err(BadPortMapping)
    case Some((h, c)) =>
      match (ParseUnsigned(h, 10, U16_LIMIT), ParseUnsigned(c, 10, U16_LIMIT))
      case (Some(host), Some(container)) => Ok(PortMapping(host, container))
      case _ => Err(BadPortMapping)
  }

  /** Up to three pieces of a `splitn(3, ':')`; only "ro" as the third makes the mount read-only. */
  function VolumeOf(arg: string): Result<VolumeMount> {
    match SplitOnce(arg, ':')
    case None => Err(MissingArgument("volume target"))
    case Some((source, rest)) =>
      match SplitOnce(rest, ':')
      case None => Ok(VolumeMount(source, rest, ReadWrite))
      case Some((target, mode)) => Ok(VolumeMount(source, target, if mode == "ro" then ReadOnly else ReadWrite))
  }

  /** A result with more values in front. */
  function Prepend<T>(xs: seq<T>, r: Result<seq<T>>): Result<seq<T>> {
    match r
    case Ok(ys) => Ok(xs + ys)
    case Err(e) => Err(e)
  }

  lemma PrependEmpty<T>(r: Result<seq<T>>)
    ensures Prepend([], r) == r
  {
    if r.Ok? { assert [] + r.value == r.value; }
  }

  lemma PrependTwice<T>(xs: seq<T>, x: T, r: Result<seq<T>>)
    ensures Prepend(xs + [x], r) == Prepend(xs, Prepend([x], r))
  {
    if r.Ok? {
      assert xs + [x] + r.value == xs + ([x] + r.value);
    }
  }

  // ----- the two scans

  function Ports(args: seq<string>): Result<seq<PortMapping>> {
    if args == [] then Ok([])
    else if IsPortFlag(args[0]) then
      if |args| == 1 then Err(MissingArgument("port mapping after -p"))
      else match PortOf(args[1])
        case Err(e) => Err(e)
        case Ok(p) => Prepend([p], Ports(args[2..]))
    else Ports(args[1..])
  }

  function Volumes(args: seq<string>): Result<seq<VolumeMount>> {
    if args == [] then Ok([])
    else if IsVolumeFlag(args[0]) then
      if |args| == 1 then Err(MissingArgument("volume mount after -v"))
      else match VolumeOf(args[1])
        case Err(e) => Err(e)
        case Ok(v) => Prepend([v], Volumes(args[2..]))
    else Volumes(args[1..])
  }

  // ----- one left-to-right option parser

  datatype Options = Options(ports: seq<PortMapping>, volumes: seq<VolumeMount>)

  /** Every flag takes the next argument as its value, whatever that argument looks like. */
  function Parse(args: seq<string>): Option<Options> {
    if args == [] then Some(Options([], []))
    else if IsPortFlag(args[0]) then
      if |args| == 1 then None
      else match (PortOf(args[1]), Parse(args[2..]))
        case (Ok(p), Some(o)) => Some(o.(ports := [p] + o.ports))
        case _ => None
    else if IsVolumeFlag(args[0]) then
      if |args| == 1 then None
      else match (VolumeOf(args[1]), Parse(args[2..]))
        case (Ok(v), Some(o)) => Some(o.(volumes := [v] + o.volumes))
        case _ => None
    else Parse(args[1..])
  }

  lemma FlagHasNoColon(arg: string)
    requires IsPortFlag(arg) || IsVolumeFlag(arg)
    ensures IndexOf(arg, ':') == |arg|
  {
    if arg == "-p" {
      IndexOfUnique("-p", ':', 2);
    } else if arg == "--publish" {
      IndexOfUnique("--publish", ':', 9);
    } else if arg == "-v" {
      IndexOfUnique("-v", ':', 2);
    } else {
      IndexOfUnique("--volume", ':', 8);
    }
  }

  /** No value that either flag accepts can be mistaken for a flag: a value has a colon. */
  lemma ValueIsNoFlag(arg: string)
    requires PortOf(arg).Ok? || VolumeOf(arg).Ok?
    ensures !IsPortFlag(arg) && !IsVolumeFlag(arg)
  {
    if IsPortFlag(arg) || IsVolumeFlag(arg) {
      FlagHasNoColon(arg);
    }
  }

  /** The two scans succeed together exactly when the single parser does, with the same options. */
  lemma {:induction false} TwoScansAreOne(args: seq<string>)
    ensures Parse(args) == match (Ports(args), Volumes(args))
      case (Ok(ps), Ok(vs)) => Some(Options(ps, vs))
      case _ => None
    decreases |args|
  {
    if args == [] {
    } else if |args| > 1 && (IsPortFlag(args[0]) || IsVolumeFlag(args[0])) {
      TwoScansAreOne(args[2..]);
      if PortOf(args[1]).Ok? || VolumeOf(args[1]).Ok? {
        ValueIsNoFlag(args[1]);
      }
      assert args[1..][1..] == args[2..];
    } else {
      TwoScansAreOne(args[1..]);
    }
  }

  /** The `container run` arm: ports first, so a bad port is reported before a bad volume. */
  function ContainerRun(args: seq<string>): Result<Options> {
    match Ports(args)
    case Err(e) => Err(e)
    case Ok(ps) =>
      match Volumes(args)
      case Err(e) => Err(e)
      case Ok(vs) => Ok(Options(ps, vs))
  }

  // ----- writing options as arguments, and reading them back

  /**
   * One option as written, or an argument that is none; ports are numerals, and a mount's mode is the text
   * after its second colon, if any.
   */
  datatype Written =
    | Publish(flag: string, port: PortMapping, host: string, container: string)
    | Mount(flag: string, volume: VolumeMount, mode: Option<string>)
    | Plain(arg: string)

  /** Decimal digits for a number below 2^16, perhaps behind a plus sign. */
  predicate PortText(s: string, n: nat) {
    n < 0x1_0000 && Decimal(s, n)
  }

  predicate WellFormed(w: Written) {
    match w
    case Publish(flag, p, host, container) =>
      (flag == "-p" || flag == "--publish") && PortText(host, p.host) && PortText(container, p.container)
    case Mount(flag, v, mode) =>
      && (flag == "-v" || flag == "--volume") && Without(v.source, ':') && Without(v.target, ':')
      && v.access == if mode == Some("ro") then ReadOnly else ReadWrite
    case Plain(arg) => arg != "-p" && arg != "--publish" && arg != "-v" && arg != "--volume"
  }

  function ValueText(w: Written): string
    requires !w.Plain?
  {
    match w
    case Publish(_, _, host, container) => host + ":" + container
    case Mount(_, v, None) => v.source + ":" + v.target
    case Mount(_, v, Some(mode)) => v.source + ":" + (v.target + ":" + mode)
  }

  function ArgsOf(w: Written): seq<string> {
    if w.Plain? then [w.arg] else [w.flag, ValueText(w)]
  }

  function Args(ws: seq<Written>): seq<string> {
    if ws == [] then [] else ArgsOf(ws[0]) + Args(ws[1..])
  }

  function PortsIn(w: Written): seq<PortMapping> {
    if w.Publish? then [w.port] else []
  }

  function VolumesIn(w: Written): seq<VolumeMount> {
    if w.Mount? then [w.volume] else []
  }

  function AllPorts(ws: seq<Written>): seq<PortMapping> {
    if ws == [] then [] else PortsIn(ws[0]) + AllPorts(ws[1..])
  }

  function AllVolumes(ws: seq<Written>): seq<VolumeMount> {
    if ws == [] then [] else VolumesIn(ws[0]) + AllVolumes(ws[1..])
  }

  function Meaning(ws: seq<Written>): Options {
    Options(AllPorts(ws), AllVolumes(ws))
  }

  predicate AllWellFormed(ws: seq<Written>) {
    forall i :: 0 <= i < |ws| ==> WellFormed(ws[i])
  }

  lemma PortTextIff(s: string, n: nat)
    ensures ParseUnsigned(s, 10, U16_LIMIT) == Some(n) <==> PortText(s, n)
  {
    DecimalIff(s, U16_LIMIT, n);
  }

  lemma PortReads(p: PortMapping, host: string, container: string)
    requires PortText(host, p.host) && PortText(container, p.container)
    ensures PortOf(host + ":" + container) == Ok(p)
  {
    PortTextIff(host, p.host);
    PortTextIff(container, p.container);
    DecimalChars(host, p.host);
    SplitOnceReads(host, ':', container);
  }

  lemma ValueReads(w: Written)
    requires WellFormed(w) && !w.Plain?
    ensures w.Publish? ==> PortOf(ValueText(w)) == Ok(w.port)
    ensures w.Mount? ==> VolumeOf(ValueText(w)) == Ok(w.volume)
  {
    match w
    case Publish(_, p, host, container) => PortReads(p, host, container);
    case Mount(_, v, None) =>
      SplitOnceReads(v.source, ':', v.target);
      IndexOfUnique(v.target, ':', |v.target|);
    case Mount(_, v, Some(mode)) =>
      SplitOnceReads(v.source, ':', v.target + ":" + mode);
      SplitOnceReads(v.target, ':', mode);
  }

  /** Each scan passes over what is not for it. */
  lemma {:induction false} ScansOne(w: Written, rest: seq<string>)
    requires WellFormed(w)
    ensures Ports(ArgsOf(w) + rest) == Prepend(PortsIn(w), Ports(rest))
    ensures Volumes(ArgsOf(w) + rest) == Prepend(VolumesIn(w), Volumes(rest))
  {
    PrependEmpty(Ports(rest));
    PrependEmpty(Volumes(rest));
    if w.Plain? {
      ScanPlain(w.arg, rest);
    } else {
      ValueReads(w);
      ValueIsNoFlag(ValueText(w));
      if w.Publish? {
        ScanPort(w.flag, ValueText(w), w.port, rest);
      } else {
        ScanVolume(w.flag, ValueText(w), w.volume, rest);
      }
    }
  }

  lemma {:induction false} ScanPlain(arg: string, rest: seq<string>)
    requires !IsPortFlag(arg) && !IsVolumeFlag(arg)
    ensures Ports([arg] + rest) == Ports(rest) && Volumes([arg] + rest) == Volumes(rest)
  {
    assert ([arg] + rest)[1..] == rest;
  }

  lemma {:induction false} ScanPort(flag: string, value: string, p: PortMapping, rest: seq<string>)
    requires IsPortFlag(flag) && !IsVolumeFlag(flag) && PortOf(value) == Ok(p) && !IsVolumeFlag(value)
    ensures Ports([flag, value] + rest) == Prepend([p], Ports(rest))
    ensures Volumes([flag, value] + rest) == Volumes(rest)
  {
    var args := [flag, value] + rest;
    assert args[2..] == rest && args[1..] == [value] + rest && args[1..][1..] == rest;
  }

  lemma {:induction false} ScanVolume(flag: string, value: string, v: VolumeMount, rest: seq<string>)
    requires IsVolumeFlag(flag) && !IsPortFlag(flag) && VolumeOf(value) == Ok(v) && !IsPortFlag(value)
    ensures Volumes([flag, value] + rest) == Prepend([v], Volumes(rest))
    ensures Ports([flag, value] + rest) == Ports(rest)
  {
    var args := [flag, value] + rest;
    assert args[2..] == rest && args[1..] == [value] + rest && args[1..][1..] == rest;
  }

  lemma {:induction false} ScansRead(ws: seq<Written>, rest: seq<string>)
    requires AllWellFormed(ws)
    ensures Ports(Args(ws) + rest) == Prepend(AllPorts(ws), Ports(rest))
    ensures Volumes(Args(ws) + rest) == Prepend(AllVolumes(ws), Volumes(rest))
  {
    if ws == [] {
      assert Args(ws) + rest == rest;
      PrependEmpty(Ports(rest));
      PrependEmpty(Volumes(rest));
    } else {
      var w := ws[0];
      ScansRead(ws[1..], rest);
      Associate(ArgsOf(w), Args(ws[1..]), rest);
      ScansMore(w, Args(ws[1..]) + rest, AllPorts(ws[1..]), AllVolumes(ws[1..]), rest);
    }
  }

  lemma {:induction false} ScansMore(
    w: Written, args: seq<string>, ps: seq<PortMapping>, vs: seq<VolumeMount>, rest: seq<string>)
    requires WellFormed(w) && Ports(args) == Prepend(ps, Ports(rest)) && Volumes(args) == Prepend(vs, Volumes(rest))
    ensures Ports(ArgsOf(w) + args) == Prepend(PortsIn(w) + ps, Ports(rest))
    ensures Volumes(ArgsOf(w) + args) == Prepend(VolumesIn(w) + vs, Volumes(rest))
  {
    ScansOne(w, args);
    PrependSum(PortsIn(w), ps, Ports(rest));
    PrependSum(VolumesIn(w), vs, Volumes(rest));
  }

  lemma PrependSum<T>(xs: seq<T>, ys: seq<T>, r: Result<seq<T>>)
    ensures Prepend(xs + ys, r) == Prepend(xs, Prepend(ys, r))
  {
    if r.Ok? { Associate(xs, ys, r.value); }
  }

  /** Options written in any order and mix are read back, each kind in its order; other arguments are ignored. */
  lemma {:induction false} ContainerRunReads(ws: seq<Written>)
    requires AllWellFormed(ws)
    ensures ContainerRun(Args(ws)) == Ok(Meaning(ws))
  {
    ScansRead(ws, []);
    assert Args(ws) + [] == Args(ws);
    assert Meaning(ws).ports + [] == Meaning(ws).ports && Meaning(ws).volumes + [] == Meaning(ws).volumes;
  }

  lemma PortSeen(arg: string) returns (host: string, container: string)
    requires PortOf(arg).Ok?
    ensures PortText(host, PortOf(arg).value.host) && PortText(container, PortOf(arg).value.container)
    ensures arg == host + ":" + container
  {
    var i := IndexOf(arg, ':');
    host, container := arg[..i], arg[i + 1..];
    PortTextIff(host, PortOf(arg).value.host);
    PortTextIff(container, PortOf(arg).value.container);
    assert arg == arg[..i] + [arg[i]] + arg[i + 1..];
  }

  lemma VolumeSeen(flag: string, arg: string) returns (w: Written)
    requires VolumeOf(arg).Ok? && (flag == "-v" || flag == "--volume")
    ensures w.Mount? && WellFormed(w) && w.flag == flag && w.volume == VolumeOf(arg).value && ValueText(w) == arg
  {
    var v := VolumeOf(arg).value;
    var source, rest := CutAtColon(arg);
    if IndexOf(rest, ':') == |rest| {
      w := Mount(flag, v, None);
    } else {
      var target, mode := CutAtColon(rest);
      w := Mount(flag, v, Some(mode));
    }
  }

  lemma CutAtColon(s: string) returns (a: string, b: string)
    requires IndexOf(s, ':') < |s|
    ensures SplitOnce(s, ':') == Some((a, b)) && s == a + ":" + b && Without(a, ':')
  {
    var i := IndexOf(s, ':');
    a, b := s[..i], s[i + 1..];
    assert s == a + [s[i]] + b;
  }

  /** What an accepted argument list says. */
  lemma {:induction false} OptionsSeen(args: seq<string>) returns (ws: seq<Written>)
    requires Parse(args).Some?
    ensures AllWellFormed(ws) && Args(ws) == args && Meaning(ws) == Parse(args).value
    decreases |args|
  {
    if args == [] {
      ws := [];
    } else {
      var w: Written;
      if IsPortFlag(args[0]) {
        var host, container := PortSeen(args[1]);
        w := Publish(args[0], PortOf(args[1]).value, host, container);
      } else if IsVolumeFlag(args[0]) {
        w := VolumeSeen(args[0], args[1]);
      } else {
        w := Plain(args[0]);
      }
      var tail := args[|ArgsOf(w)|..];
      var rest := OptionsSeen(tail);
      ws := [w] + rest;
      assert ws[1..] == rest;
      assert args == ArgsOf(w) + tail;
    }
  }

  /** Acceptance, exactly: the arguments are options and other arguments as written, with those ports and volumes. */
  lemma ContainerRunExact(args: seq<string>, o: Options)
    ensures ContainerRun(args) == Ok(o) <==> exists ws :: AllWellFormed(ws) && Args(ws) == args && Meaning(ws) == o
  {
    TwoScansAreOne(args);
    if ContainerRun(args) == Ok(o) {
      var ws := OptionsSeen(args);
    }
    forall ws | AllWellFormed(ws) && Args(ws) == args ensures ContainerRun(args) == Ok(Meaning(ws)) {
      ContainerRunReads(ws);
    }
  }

  /** A flag at the end misses its value. */
  lemma {:induction false} DanglingFlag(ws: seq<Written>, flag: string)
    requires AllWellFormed(ws)
    ensures flag == "-p" || flag == "--publish" ==>
      Ports(Args(ws) + [flag]) == Err(MissingArgument("port mapping after -p"))
    ensures flag == "-v" || flag == "--volume" ==>
      Volumes(Args(ws) + [flag]) == Err(MissingArgument("volume mount after -v"))
  {
    ScansRead(ws, [flag]);
  }

  /** A port value that is no pair of numerals, and a volume value without a colon, are refused. */
  lemma {:induction false} BadValue(ws: seq<Written>, flag: string, value: string, rest: seq<string>)
    requires AllWellFormed(ws)
    ensures (flag == "-p" || flag == "--publish") && PortOf(value).Err? ==>
      Ports(Args(ws) + ([flag, value] + rest)) == Err(BadPortMapping)
    ensures (flag == "-v" || flag == "--volume") && Without(value, ':') ==>
      Volumes(Args(ws) + ([flag, value] + rest)) == Err(MissingArgument("volume target"))
  {
    ScansRead(ws, [flag, value] + rest);
    if Without(value, ':') { IndexOfUnique(value, ':', |value|); }
  }

  /** A port value is accepted exactly when it is two port numbers with a colon between them. */
  lemma PortOfExact(value: string, p: PortMapping)
    ensures PortOf(value) == Ok(p) <==>
      exists host, container ::
        PortText(host, p.host) && PortText(container, p.container) && value == host + ":" + container
  {
    if PortOf(value) == Ok(p) {
      var host, container := PortSeen(value);
    }
    forall host, container
      | PortText(host, p.host) && PortText(container, p.container) && value == host + ":" + container
      ensures PortOf(value) == Ok(p)
    {
      PortReads(p, host, container);
    }
  }

  // ----- the loops

  method ParsePorts(args: seq<string>) returns (r: Result<seq<PortMapping>>)
    ensures r == Ports(args)
  {
    var ports: seq<PortMapping> := [];
    var i := 0;
    assert args[0..] == args;
    PrependEmpty(Ports(args));
    while i < |args|
      invariant i <= |args|
      invariant Ports(args) == Prepend(ports, Ports(args[i..]))
    {
      assert args[i..][1..] == args[i + 1..];
      if IsPortFlag(args[i]) {
        i := i + 1;
        if i >= |args| {
          return Err(MissingArgument("port mapping after -p"));
        }
        assert args[i - 1..][2..] == args[i + 1..];
        var p := PortOf(args[i]);
        if p.Err? {
          return Err(p.error);
        }
        PrependTwice(ports, p.value, Ports(args[i + 1..]));
        ports := ports + [p.value];
      }
      i := i + 1;
    }
    assert ports + [] == ports;
    return Ok(ports);
  }

  method ParseVolumes(args: seq<string>) returns (r: Result<seq<VolumeMount>>)
    ensures r == Volumes(args)
  {
    var volumes: seq<VolumeMount> := [];
    var i := 0;
    assert args[0..] == args;
    PrependEmpty(Volumes(args));
    while i < |args|
      invariant i <= |args|
      invariant Volumes(args) == Prepend(volumes, Volumes(args[i..]))
    {
      assert args[i..][1..] == args[i + 1..];
      if IsVolumeFlag(args[i]) {
        i := i + 1;
        if i >= |args| {
          return Err(MissingArgument("volume mount after -v"));
        }
        assert args[i - 1..][2..] == args[i + 1..];
        var v := VolumeOf(args[i]);
        if v.Err? {
          return Err(v.error);
        }
        PrependTwice(volumes, v.value, Volumes(args[i + 1..]));
        volumes := volumes + [v.value];
      }
      i := i + 1;
    }
    assert volumes + [] == volumes;
    return Ok(volumes);
  }
}
