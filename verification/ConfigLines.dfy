/** The configuration reader on one line at a time, and on lines that say nothing. */
module ConfigLines {
  import opened Optional
  import opened Text
  import opened ContainerSpec
  import opened Config
  import opened ConfigText

  /** Every line with its line end. */
  function FileOf(lines: seq<string>): string {
    if lines == [] then "" else lines[0] + ['\n'] + FileOf(lines[1..])
  }

  lemma SectionLines()
    ensures KeyText("containers", "") == "containers:" && KeyText("ports", "") == "ports:"
    ensures KeyText("resources", "") == "resources:"
  {
  }

  /** Lines of indentation 6 and 4 go to their own step functions. */
  lemma Dispatch(s: State, key: string, v: string)
    requires s.inContainers && IsKey(key) && IsValue(v)
    ensures Step(s, KeyLine(6, key, v)) == Ok(Step6(s, KeyText(key, v)))
    ensures Step(s, KeyLine(4, key, v)) == Ok(Step4(s, KeyText(key, v)))
    ensures HasKey(KeyText(key, v), key) && ValueAfterColon(KeyText(key, v)) == v
  {
    KeyLineReads(6, key, v);
    KeyLineReads(4, key, v);
  }

  lemma StepPorts(s: State)
    requires s.inContainers
    ensures Step(s, KeyLine(4, "ports", "")) == Ok(FlushPort(s).(inPorts := true, inResources := false))
  {
    Dispatch(s, "ports", "");
    SectionLines();
  }

  lemma StepResources(s: State)
    requires s.inContainers
    ensures Step(s, KeyLine(4, "resources", "")) == Ok(FlushPort(s).(inResources := true, inPorts := false))
  {
    Dispatch(s, "resources", "");
    SectionLines();
    assert |KeyText("resources", "")| != |"ports:"|;
  }

  /** What a restart line says, by its words. */
  function PolicyOf(v: string): RestartPolicy {
    if v == "always" then Always else if v == "on-failure" then OnFailure else Never
  }

  lemma StepRestart(s: State, v: string, b: Builder)
    requires s.inContainers && FlushPort(s).current == Some(b) && IsValue(v)
    ensures Step(s, KeyLine(4, "restart", v))
      == Ok(FlushPort(s).(current := Some(b.(restart := PolicyOf(v))), inPorts := false, inResources := false))
  {
    Dispatch(s, "restart", v);
    TrimPadded("", v);
    Step4Restart(s, v, b);
  }

  lemma Step4Restart(s: State, v: string, b: Builder)
    requires FlushPort(s).current == Some(b) && IsValue(v) && Trim(v) == v
    requires HasKey(KeyText("restart", v), "restart") && ValueAfterColon(KeyText("restart", v)) == v
    ensures Step4(s, KeyText("restart", v))
      == FlushPort(s).(current := Some(b.(restart := PolicyOf(v))), inPorts := false, inResources := false)
  {
    NotSection("restart", v, "ports");
    NotSection("restart", v, "resources");
    SectionLines();
  }

  lemma NotSection(key: string, v: string, other: string)
    requires IsKey(key) && IsKey(other) && other != key
    ensures KeyText(key, v) != KeyText(other, "")
  {
    NotKey(key, v, other);
    assert HasKey(KeyText(other, ""), other);
  }

  /** A host line stands at indentation 6 or 4; it flushes the port before it. */
  lemma StepHost(s: State, indent: nat, v: string)
    requires s.inContainers && s.inPorts && (indent == 4 || indent == 6) && IsValue(v)
    ensures Step(s, KeyLine(indent, "- host", v)) == Ok(FlushPort(s).(port := Some(Pending(ParseU16(v), None))))
  {
    Dispatch(s, "- host", v);
    if indent == 4 { Step4Host(s, v); }
  }

  lemma Step4Host(s: State, v: string)
    requires s.inPorts && IsValue(v)
    requires HasKey(KeyText("- host", v), "- host") && ValueAfterColon(KeyText("- host", v)) == v
    ensures Step4(s, KeyText("- host", v)) == FlushPort(s).(port := Some(Pending(ParseU16(v), None)))
  {
    NotSection("- host", v, "ports");
    NotSection("- host", v, "resources");
    NotKey("- host", v, "restart");
    SectionLines();
  }

  /** A container line stands at indentation 8 or 6. */
  lemma StepContainer(s: State, indent: nat, h: Option<nat>, v: string)
    requires s.inContainers && s.inPorts && s.port == Some(Pending(h, None))
    requires (indent == 6 || indent == 8) && IsValue(v)
    ensures Step(s, KeyLine(indent, "container", v)) == Ok(s.(port := Some(Pending(h, ParseU16(v)))))
  {
    if indent == 8 {
      KeyLineReads(8, "container", v);
    } else {
      Dispatch(s, "container", v);
      Step6Container(s, h, v);
    }
  }

  lemma Step6Container(s: State, h: Option<nat>, v: string)
    requires s.inPorts && s.port == Some(Pending(h, None)) && IsValue(v)
    requires HasKey(KeyText("container", v), "container") && ValueAfterColon(KeyText("container", v)) == v
    ensures Step6(s, KeyText("container", v)) == s.(port := Some(Pending(h, ParseU16(v))))
  {
    NotKey("container", v, "- host");
  }

  /** A port number, for every text: a decimal numeral below 2^16 between white space. */
  lemma PortExact(v: string, n: nat)
    ensures ParseU16(v) == Some(n) <==> n < 0x1_0000 && Decimal(Trim(v), n)
  {
    DecimalIff(Trim(v), U16_LIMIT, n);
  }

  lemma MemoryLine(s: State, v: string, b: Builder)
    requires s.inContainers && s.inResources && !s.inPorts && s.current == Some(b) && IsValue(v)
    ensures Step(s, KeyLine(6, "memory", v)) == Ok(s.(current := Some(b.(memory := ParseMemory(v)))))
  {
    Dispatch(s, "memory", v);
    Step6Memory(s, v, b);
  }

  lemma PidsLine(s: State, v: string, b: Builder)
    requires s.inContainers && s.inResources && !s.inPorts && s.current == Some(b) && IsValue(v)
    ensures Step(s, KeyLine(6, "pids_max", v)) == Ok(s.(current := Some(b.(pids := ParseUnsigned(v, 10, USIZE_LIMIT)))))
  {
    Dispatch(s, "pids_max", v);
    Step6Pids(s, v, b);
  }

  lemma Step6Memory(s: State, v: string, b: Builder)
    requires s.inResources && !s.inPorts && s.current == Some(b) && IsValue(v)
    requires HasKey(KeyText("memory", v), "memory") && ValueAfterColon(KeyText("memory", v)) == v
    ensures Step6(s, KeyText("memory", v)) == s.(current := Some(b.(memory := ParseMemory(v))))
  {
    NotKey("memory", v, "pids_max");
  }

  lemma Step6Pids(s: State, v: string, b: Builder)
    requires s.inResources && !s.inPorts && s.current == Some(b) && IsValue(v)
    requires HasKey(KeyText("pids_max", v), "pids_max") && ValueAfterColon(KeyText("pids_max", v)) == v
    ensures Step6(s, KeyText("pids_max", v)) == s.(current := Some(b.(pids := ParseUnsigned(v, 10, USIZE_LIMIT))))
  {
    NotKey("pids_max", v, "memory");
  }

  lemma StepImageLine(s: State, image: string)
    requires s.inContainers && IsValue(image) && FlushContainer(s).Ok?
    ensures Step(s, KeyLine(2, "- image", image))
      == Ok(FlushContainer(s).value.(inPorts := false, inResources := false,
            current := Some(NEW_BUILDER.(image := Some(image)))))
  {
    KeyLineReads(2, "- image", image);
  }

  /** A header at indentation 0 closes the container before it, and opens the section it names. */
  lemma StepHeader(s: State, text: string)
    requires IsValue(text) && text != "" && text[0] != '#' && FlushContainer(s).Ok?
    ensures Step(s, text) == Ok(FlushContainer(s).value.(
      inContainers := text == "containers:", inPorts := false, inResources := false))
  {
    TrimPadded("", text);
  }

  /** A key that means nothing: at indentation 4 it flushes the pending port, elsewhere it does nothing at all. */
  predicate UnknownKey(indent: nat, text: string) {
    && IsValue(text) && text != "" && text[0] != '#'
    && match indent {
       case 2 => !HasKey(text, "- image")
       case 4 => text != "ports:" && text != "resources:" && !HasKey(text, "restart") && !HasKey(text, "- host")
       case 6 => && !HasKey(text, "- host") && !HasKey(text, "container")
                 && !HasKey(text, "memory") && !HasKey(text, "pids_max")
       case 8 => !HasKey(text, "container")
       case _ => false
       }
  }

  lemma StepUnknown(s: State, indent: nat, text: string)
    requires s.inContainers && UnknownKey(indent, text)
    ensures Step(s, Blanks(indent) + text) == Ok(if indent == 4 then FlushPort(s) else s)
  {
    TrimPadded(Blanks(indent), text);
    TrimStartPadded(Blanks(indent), text);
  }

  /** Outside the containers section every indented line is passed over. */
  lemma {:induction false} StepSkipped(s: State, raw: string)
    requires !s.inContainers && Indent(raw) > 0
    ensures Step(s, raw) == Ok(s)
  {
    IndentIs(raw);
  }

  // ----- lines that say nothing anywhere

  /** White space in front. */
  function Indent(raw: string): nat {
    if raw != "" && White(raw[0]) then 1 + Indent(raw[1..]) else 0
  }

  /** A blank line, a comment, or a line at an indentation that the format does not have. */
  predicate Noise(raw: string) {
    var k := Indent(raw);
    k >= |raw| || raw[k] == '#' || k !in {0, 2, 4, 6, 8}
  }

  lemma {:induction false} IndentIs(raw: string)
    ensures Indent(raw) <= |raw| && TrimStart(raw) == raw[Indent(raw)..] && LeadingSpaces(raw) == Indent(raw)
    decreases |raw|
  {
    if raw != "" {
      SpaceIsWhite(raw[0]);
      if White(raw[0]) { IndentIs(raw[1..]); }
    }
  }

  lemma {:induction false} TrimFront(raw: string)
    ensures Trim(raw) == "" <==> Indent(raw) == |raw|
    ensures Indent(raw) < |raw| ==> Trim(raw)[0] == raw[Indent(raw)]
  {
    IndentIs(raw);
    var t := TrimStart(raw);
    var b := TrimEndCuts(t);
    if t != "" && Trim(raw) == "" {
      assert t == b;
      SpaceIsWhite(t[0]);
    }
  }

  lemma StepNoise(s: State, raw: string)
    requires Noise(raw)
    ensures Step(s, raw) == Ok(s)
  {
    IndentIs(raw);
    TrimFront(raw);
  }

  function Denoised(lines: seq<string>): seq<string> {
    if lines == [] then []
    else (if Noise(lines[0]) then [] else [lines[0]]) + Denoised(lines[1..])
  }

  /** Noise may stand between any two lines. */
  lemma {:induction false} StepsDenoised(s: State, lines: seq<string>)
    ensures Steps(s, lines) == Steps(s, Denoised(lines))
    decreases |lines|
  {
    if lines != [] {
      if Noise(lines[0]) {
        StepNoise(s, lines[0]);
        StepsDenoised(s, lines[1..]);
        assert [] + Denoised(lines[1..]) == Denoised(lines[1..]);
      } else {
        assert ([lines[0]] + Denoised(lines[1..]))[1..] == Denoised(lines[1..]);
        if Step(s, lines[0]).Ok? { StepsDenoised(Step(s, lines[0]).value, lines[1..]); }
      }
    }
  }

  // ----- from lines to text

  lemma {:induction false} StepsAppend(s: State, a: seq<string>, b: seq<string>)
    ensures Steps(s, a + b) == match Steps(s, a) case Err(e) => Err(e) case Ok(t) => Steps(t, b)
    decreases |a|
  {
    if a == [] {
      assert a + b == b;
    } else {
      assert (a + b)[1..] == a[1..] + b;
      if Step(s, a[0]).Ok? { StepsAppend(Step(s, a[0]).value, a[1..], b); }
    }
  }

  lemma {:induction false} StepsOne(s: State, line: string)
    ensures Steps(s, [line]) == Step(s, line)
  {
    assert [line][1..] == [];
  }

  predicate OneLiners(lines: seq<string>) {
    forall i :: 0 <= i < |lines| ==> Without(lines[i], '\n')
  }

  lemma {:induction false} SplitFile(lines: seq<string>)
    requires OneLiners(lines)
    ensures Split(FileOf(lines), '\n') == lines + [""]
  {
    if lines == [] {
      IndexOfUnique("", '\n', 0);
    } else {
      SplitFile(lines[1..]);
      SplitJoin(lines[0], '\n', FileOf(lines[1..]));
      IndexOfUnique(lines[0], '\n', |lines[0]|);
      assert lines + [""] == [lines[0]] + (lines[1..] + [""]);
    }
  }

  lemma {:induction false} StepEmptyLine(s: State)
    ensures Steps(s, [""]) == Ok(s)
  {
    StepsOne(s, "");
  }

  lemma {:induction false} YamlOfLines(lines: seq<string>, s: State)
    requires OneLiners(lines) && Steps(START, lines) == Ok(s)
    ensures FromYaml(FileOf(lines)) == Finish(s)
  {
    SplitFile(lines);
    StepsAppend(START, lines, [""]);
    StepEmptyLine(s);
  }

  lemma KeyLineIsOneLine(indent: nat, key: string, v: string)
    requires IsValue(v) && Without(key, '\n')
    ensures Without(KeyLine(indent, key, v), '\n')
  {
  }

  lemma JoinedOneLiners(a: seq<string>, b: seq<string>)
    requires OneLiners(a) && OneLiners(b)
    ensures OneLiners(a + b)
  {
  }

}
