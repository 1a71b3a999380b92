/** The systemd unit of the service: printed from a definition, and read back. */
module SystemdUnit {
  import opened Common
  import opened Text
  import opened Strconv
  import Delimited
  import Reference

  datatype Variable = Variable(name: Bytes, value: Bytes)

  datatype Definition = Definition(
    executable: Bytes,
    arguments: seq<Bytes>,
    environment: seq<Variable>,
    stdoutPath: Bytes,
    stderrPath: Bytes)

  // ---- validateDefinition ----

  predicate ValidValue(s: Bytes) {
    0 !in s && 10 !in s && 13 !in s
  }

  /** Values have no NUL and no line break. */
  lemma ValueIs(s: Bytes)
    ensures ValidValue(s) <==> forall i | 0 <= i < |s| ::
                                 s[i] as char != '\0' && s[i] as char != '\n' && s[i] as char != '\r'
  {
    assert 0 in s <==> exists i | 0 <= i < |s| :: s[i] == 0;
  }

  predicate ValidDefinition(d: Definition) {
    && d.executable != [] && ValidValue(d.executable)
    && (forall i | 0 <= i < |d.arguments| :: ValidValue(d.arguments[i]))
    && (forall i | 0 <= i < |d.environment| ::
          var v := d.environment[i]; v.name != [] && 61 !in v.name && ValidValue(v.name) && ValidValue(v.value))
    && (forall i, j | 0 <= i < j < |d.environment| :: d.environment[i].name != d.environment[j].name)
    && ValidValue(d.stdoutPath) && ValidValue(d.stderrPath)
  }

  method ValidateDefinition(d: Definition) returns (ok: bool)
    ensures ok <==> ValidDefinition(d)
  {
    if d.executable == [] || !ValidValue(d.executable) {
      return false;
    }
    var i := 0;
    while i < |d.arguments|
      invariant 0 <= i <= |d.arguments| && forall k | 0 <= k < i :: ValidValue(d.arguments[k])
    {
      if !ValidValue(d.arguments[i]) {
        return false;
      }
      i := i + 1;
    }
    var seen: set<Bytes> := {};
    i := 0;
    while i < |d.environment|
      invariant 0 <= i <= |d.environment|
      invariant forall k | 0 <= k < i ::
                  var v := d.environment[k]; v.name != [] && 61 !in v.name && ValidValue(v.name) && ValidValue(v.value)
      invariant forall k, l | 0 <= k < l < i :: d.environment[k].name != d.environment[l].name
      invariant forall name :: name in seen <==> exists k :: 0 <= k < i && d.environment[k].name == name
    {
      var variable := d.environment[i];
      if variable.name == [] || 61 in variable.name || !ValidValue(variable.name) || !ValidValue(variable.value) {
        return false;
      }
      if variable.name in seen {
        return false;
      }
      seen := seen + {variable.name};
      i := i + 1;
    }
    return ValidValue(d.stdoutPath) && ValidValue(d.stderrPath);
  }

  // ---- Percent signs ----

  const PERCENT: byte := 37

  /** ReplaceAll of a percent sign by two. */
  function Doubled(s: Bytes): Bytes {
    if s == [] then [] else (if s[0] == PERCENT then [PERCENT, PERCENT] else [s[0]]) + Doubled(s[1..])
  }

  /** ReplaceAll of two percent signs by one. */
  function Undoubled(s: Bytes): Bytes {
    if s == [] then []
    else if |s| > 1 && s[0] == PERCENT && s[1] == PERCENT then [PERCENT] + Undoubled(s[2..])
    else [s[0]] + Undoubled(s[1..])
  }

  lemma {:induction false} UndoubledDoubled(s: Bytes)
    ensures Undoubled(Doubled(s)) == s
  {
    if s != [] {
      UndoubledDoubled(s[1..]);
      var d := Doubled(s);
      if s[0] == PERCENT {
        assert d[2..] == Doubled(s[1..]);
      } else {
        assert d[1..] == Doubled(s[1..]) && d[0] == s[0];
      }
      assert [s[0]] + s[1..] == s;
    }
  }

  lemma {:induction false} DoubledBytes(s: Bytes)
    ensures forall b :: b in Doubled(s) <==> b in s
    ensures |Doubled(s)| >= |s|
    ensures PERCENT !in s <==> |Doubled(s)| == |s|
    ensures PERCENT !in s ==> Doubled(s) == s
  {
    if s != [] {
      DoubledBytes(s[1..]);
      assert s == [s[0]] + s[1..];
    }
  }

  lemma {:induction false} DoubledJoin(a: Bytes, b: Bytes)
    ensures Doubled(a + b) == Doubled(a) + Doubled(b)
    decreases |a|
  {
    if a == [] {
      assert a + b == b;
    } else {
      assert (a + b)[1..] == a[1..] + b;
      DoubledJoin(a[1..], b);
    }
  }

  // ---- The unit ----

  function Quoted(isPrint: Printable, value: Bytes): Bytes {
    Quote(isPrint, Doubled(value))
  }

  const EXEC: Bytes := Ascii("ExecStart=")
  const ENVIRONMENT: Bytes := Ascii("Environment=")

  /** The quoted parts, separated by spaces. */
  function Parts(isPrint: Printable, values: seq<Bytes>): Bytes {
    if values == [] then []
    else if |values| == 1 then Quoted(isPrint, values[0])
    else Quoted(isPrint, values[0]) + [32] + Parts(isPrint, values[1..])
  }

  function EnvironmentLine(isPrint: Printable, v: Variable): Bytes {
    ENVIRONMENT + Quoted(isPrint, v.name + [61] + v.value)
  }

  function EnvironmentLines(isPrint: Printable, vs: seq<Variable>): seq<Bytes> {
    if vs == [] then []
    else EnvironmentLines(isPrint, vs[..|vs| - 1]) + [EnvironmentLine(isPrint, vs[|vs| - 1])]
  }

  function UnitLines(isPrint: Printable, d: Definition): seq<Bytes> {
    [Ascii("[Service]"), Ascii("Type=simple"), EXEC + Parts(isPrint, [d.executable] + d.arguments), Ascii("Restart=no")]
      + EnvironmentLines(isPrint, d.environment)
  }

  /** The lines, each with its end. */
  function UnitText(lines: seq<Bytes>): Bytes {
    if lines == [] then [] else lines[0] + [10] + UnitText(lines[1..])
  }

  method RenderSystemdUnit(isPrint: Printable, d: Definition) returns (unit: Option<Bytes>)
    ensures unit.Some? <==> ValidDefinition(d)
    ensures unit.Some? ==> unit.value == UnitText(UnitLines(isPrint, d))
  {
    hide ValidDefinition;
    hide Quoted;
    var ok := ValidateDefinition(d);
    if !ok {
      return None;
    }
    var values := [d.executable] + d.arguments;
    var parts: seq<Bytes> := [];
    var i := 0;
    while i < |values|
      invariant 0 <= i == |parts| <= |values|
      invariant forall k | 0 <= k < i :: parts[k] == Quoted(isPrint, values[k])
    {
      parts := parts + [Quoted(isPrint, values[i])];
      i := i + 1;
    }
    var exec := JoinParts(isPrint, values, parts);
    var lines := [Ascii("[Service]"), Ascii("Type=simple"), EXEC + exec, Ascii("Restart=no")];
    ghost var start := lines;
    i := 0;
    while i < |d.environment|
      invariant 0 <= i <= |d.environment|
      invariant lines == start + EnvironmentLines(isPrint, d.environment[..i])
    {
      var variable := d.environment[i];
      assert d.environment[..i + 1][..i] == d.environment[..i];
      lines := lines + [EnvironmentLine(isPrint, variable)];
      i := i + 1;
    }
    assert d.environment[..i] == d.environment;
    return Some(UnitText(lines));
  }

  /** strings.Join with a space. */
  method JoinParts(isPrint: Printable, ghost values: seq<Bytes>, parts: seq<Bytes>) returns (text: Bytes)
    requires |parts| == |values| > 0 && forall k | 0 <= k < |values| :: parts[k] == Quoted(isPrint, values[k])
    ensures text == Parts(isPrint, values)
  {
    hide Quoted;
    var i := |parts| - 1;
    text := parts[i];
    while i > 0
      invariant 0 <= i < |parts|
      invariant text == Parts(isPrint, values[i..])
    {
      i := i - 1;
      assert values[i..][1..] == values[i + 1..];
      text := parts[i] + [32] + text;
    }
    assert values[0..] == values;
  }

  // ---- Reading ----

  /** The text at each line break, as strings.Split gives it. */
  function Lines(s: Bytes): (lines: seq<Bytes>)
    ensures lines != []
  {
    if s == [] then [[]]
    else if s[0] == 10 then [[]] + Lines(s[1..])
    else
      var rest := Lines(s[1..]);
      [[s[0]] + rest[0]] + rest[1..]
  }

  /** What follows the prefix on the first line that has it. */
  function FindLine(lines: seq<Bytes>, prefix: Bytes): Option<Bytes> {
    if lines == [] then None
    else if Reference.StartsWith(lines[0], prefix) then Some(lines[0][|prefix|..])
    else FindLine(lines[1..], prefix)
  }

  /** A quoted string at the start, and what follows it. */
  function Token(s: Bytes): Option<(Bytes, Bytes)> {
    if s == [] || s[0] != QUOTE then None
    else
      var end := Delimited.StringEnd(s[1..]);
      if end == |s| - 1 then None
      else
        match Unquote(s[1..][..end])
        case Some(value) => Some((value, s[1..][end + 1..]))
        case None => None
  }

  /**
   The quoted values of a command line, percent signs undoubled. White space before each is passed over;
   trimming the end as well changes nothing, since a value ends with a quotation mark.
   */
  function Values(s: Bytes): Option<seq<Bytes>>
    decreases |s|
  {
    if s == [] then Some([])
    else if RuneSize(s) > 0 && Space(s[..RuneSize(s)]) then Values(s[RuneSize(s)..])
    else
      match Token(s)
      case None => None
      case Some((value, rest)) =>
        match (if |rest| < |s| then Values(rest) else None)
        case Some(values) => Some([Undoubled(value)] + values)
        case None => None
  }

  function ReadExec(unit: Bytes): Option<seq<Bytes>> {
    match FindLine(Lines(unit), EXEC)
    case Some(rest) => Values(rest)
    case None => None
  }

  /** strings.Cut at the first equals sign. */
  function Cut(s: Bytes): Option<(Bytes, Bytes)> {
    if s == [] then None
    else if s[0] == 61 then Some(([], s[1..]))
    else
      match Cut(s[1..])
      case Some((name, value)) => Some(([s[0]] + name, value))
      case None => None
  }

  /** A variable: the name as it stands, the value with percent signs undoubled. */
  function ReadVariable(s: Bytes): Option<(Bytes, Bytes)> {
    match Token(s)
    case Some((text, rest)) =>
      if rest != [] then None
      else
        (match Cut(text)
         case Some((name, value)) => Some((name, Undoubled(value)))
         case None => None)
    case None => None
  }

  /** The variables of the lines that set one, or nothing when one cannot be read. */
  function ReadEnvironment(lines: seq<Bytes>): Option<map<Bytes, Bytes>> {
    if lines == [] then Some(map[])
    else
      match ReadEnvironment(lines[..|lines| - 1])
      case None => None
      case Some(before) =>
        var line := lines[|lines| - 1];
        if !Reference.StartsWith(line, ENVIRONMENT) then Some(before)
        else
          match ReadVariable(line[|ENVIRONMENT|..])
          case Some((name, value)) => Some(before[name := value])
          case None => None
  }

  // ---- Round trip ----

  lemma TokenQuoted(isPrint: Printable, value: Bytes, rest: Bytes)
    ensures Token(Quoted(isPrint, value) + rest) == Some((Doubled(value), rest))
    ensures 10 !in Quoted(isPrint, value)
  {
    hide Unquote;
    hide QuoteContents;
    hide Doubled;
    var contents := QuoteContents(isPrint, Doubled(value));
    var s := Quoted(isPrint, value) + rest;
    QuoteEnds(isPrint, Doubled(value), rest);
    UnquoteQuote(isPrint, Doubled(value));
    assert s[1..] == contents + [QUOTE] + rest;
    assert s[1..][..|contents|] == contents && s[1..][|contents| + 1..] == rest;
  }

  lemma SpaceIsPassed(t: Bytes)
    ensures Values([32] + t) == Values(t)
  {
    hide Token;
    var s := [32] + t;
    assert RuneSize(s) == 1 && s[..1] == [32] && s[1..] == t;
  }

  lemma TokenIsTaken(s: Bytes, value: Bytes, rest: Bytes)
    requires s != [] && s[0] == QUOTE && Token(s) == Some((value, rest)) && |rest| < |s|
    ensures Values(s) == match Values(rest)
                         case Some(values) => Some([Undoubled(value)] + values)
                         case None => None
  {
    hide Token;
    hide Undoubled;
    assert RuneSize(s) == 1 && !Space(s[..1]);
  }

  lemma {:induction false} ValuesParts(isPrint: Printable, values: seq<Bytes>)
    ensures Values(Parts(isPrint, values)) == Some(values)
    ensures 10 !in Parts(isPrint, values)
    decreases |values|
  {
    hide Token;
    hide Doubled;
    hide Undoubled;
    hide Values;
    hide QuoteContents;
    if values == [] {
      NoValues();
    } else {
      var first, more := values[0], values[1..];
      var rest := if more == [] then [] else [32] + Parts(isPrint, more);
      TokenQuoted(isPrint, first, rest);
      UndoubledDoubled(first);
      ValuesParts(isPrint, more);
      SpaceIsPassed(Parts(isPrint, more));
      NoValues();
      assert Quoted(isPrint, first)[0] == QUOTE;
      var s := Parts(isPrint, values);
      assert s == Quoted(isPrint, first) + rest;
      TokenIsTaken(s, Doubled(first), rest);
      assert values == [first] + more;
    }
  }

  lemma NoValues()
    ensures Values([]) == Some([])
  {
  }

  lemma {:induction false} LinesStep(line: Bytes, rest: Bytes)
    requires 10 !in line
    ensures Lines(line + [10] + rest) == [line] + Lines(rest)
    decreases |line|
  {
    var s := line + [10] + rest;
    if line == [] {
      assert s == [10] + rest;
      assert s[1..] == rest;
    } else {
      assert s[1..] == line[1..] + [10] + rest;
      LinesStep(line[1..], rest);
      assert [line[0]] + line[1..] == line;
    }
  }

  lemma {:induction false} LinesText(lines: seq<Bytes>)
    requires forall i | 0 <= i < |lines| :: 10 !in lines[i]
    ensures Lines(UnitText(lines)) == lines + [[]]
    decreases |lines|
  {
    if lines != [] {
      LinesText(lines[1..]);
      LinesStep(lines[0], UnitText(lines[1..]));
      assert lines == [lines[0]] + lines[1..];
    }
  }

  lemma OneLine(s: string)
    requires forall i | 0 <= i < |s| :: ' ' <= s[i] <= '~'
    ensures 10 !in Ascii(s)
  {
  }

  lemma StartsSame(line: Bytes, prefix: Bytes)
    requires Reference.StartsWith(line, prefix)
    ensures forall i | 0 <= i < |prefix| :: line[i] == prefix[i]
  {
    assert forall i | 0 <= i < |prefix| :: line[i] == line[..|prefix|][i];
  }

  lemma OtherStart(line: Bytes, prefix: Bytes, i: nat)
    requires i < |line| && i < |prefix| && line[i] != prefix[i]
    ensures !Reference.StartsWith(line, prefix)
  {
    hide Reference.StartsWith;
    if Reference.StartsWith(line, prefix) {
      StartsSame(line, prefix);
    }
  }

  lemma HeadingLines()
    ensures 10 !in Ascii("[Service]") && 10 !in Ascii("Type=simple") && 10 !in Ascii("Restart=no")
    ensures 10 !in EXEC && 10 !in ENVIRONMENT
    ensures !Reference.StartsWith(Ascii("[Service]"), EXEC) && !Reference.StartsWith(Ascii("Type=simple"), EXEC)
    ensures !Reference.StartsWith(Ascii("[Service]"), ENVIRONMENT)
    ensures !Reference.StartsWith(Ascii("Type=simple"), ENVIRONMENT)
    ensures !Reference.StartsWith(Ascii("Restart=no"), ENVIRONMENT)
    ensures EXEC[1] != ENVIRONMENT[1]
  {
    hide Reference.StartsWith;
    OneLine("[Service]");
    OneLine("Type=simple");
    OneLine("Restart=no");
    OneLine("ExecStart=");
    OneLine("Environment=");
    OtherStart(Ascii("[Service]"), EXEC, 0);
    OtherStart(Ascii("Type=simple"), EXEC, 0);
    OtherStart(Ascii("[Service]"), ENVIRONMENT, 0);
    OtherStart(Ascii("Type=simple"), ENVIRONMENT, 0);
    OtherStart(Ascii("Restart=no"), ENVIRONMENT, 0);
  }

  lemma {:induction false} EnvironmentLinesHaveNoBreaks(isPrint: Printable, vs: seq<Variable>)
    ensures var lines := EnvironmentLines(isPrint, vs);
      |lines| == |vs| && forall i | 0 <= i < |lines| :: 10 !in lines[i]
    decreases |vs|
  {
    hide Quoted;
    if vs != [] {
      var v := vs[|vs| - 1];
      EnvironmentLinesHaveNoBreaks(isPrint, vs[..|vs| - 1]);
      TokenQuoted(isPrint, v.name + [61] + v.value, []);
      HeadingLines();
    }
  }

  lemma UnitLinesAre(isPrint: Printable, d: Definition)
    ensures Lines(UnitText(UnitLines(isPrint, d))) == UnitLines(isPrint, d) + [[]]
  {
    hide Ascii;
    hide Parts;
    hide UnitText;
    hide Lines;
    hide EnvironmentLines;
    HeadingLines();
    ValuesParts(isPrint, [d.executable] + d.arguments);
    EnvironmentLinesHaveNoBreaks(isPrint, d.environment);
    LinesText(UnitLines(isPrint, d));
  }

  /** The command line is read back as the executable and its arguments, whatever bytes they hold. */
  lemma ExecRoundTrip(isPrint: Printable, d: Definition)
    ensures ReadExec(UnitText(UnitLines(isPrint, d))) == Some([d.executable] + d.arguments)
  {
    hide Ascii;
    hide Parts;
    hide UnitText;
    hide Lines;
    hide EnvironmentLines;
    hide Values;
    UnitLinesAre(isPrint, d);
    HeadingLines();
    var values := [d.executable] + d.arguments;
    ValuesParts(isPrint, values);
    var lines := UnitLines(isPrint, d) + [[]];
    var line := EXEC + Parts(isPrint, values);
    assert lines[2] == line && line[..|EXEC|] == EXEC && line[|EXEC|..] == Parts(isPrint, values);
    assert lines[1..][0] == lines[1] && lines[1..][1..] == lines[2..] && lines[2..][0] == line;
    assert FindLine(lines[2..], EXEC) == Some(Parts(isPrint, values));
    assert FindLine(lines[1..], EXEC) == FindLine(lines[1..][1..], EXEC);
    assert FindLine(lines, EXEC) == FindLine(lines[1..], EXEC);
  }

  lemma {:induction false} CutAtEquals(name: Bytes, value: Bytes)
    requires 61 !in name
    ensures Cut(name + [61] + value) == Some((name, value))
    decreases |name|
  {
    var s := name + [61] + value;
    if name == [] {
      assert s == [61] + value;
      assert s[1..] == value;
    } else {
      assert s[1..] == name[1..] + [61] + value;
      CutAtEquals(name[1..], value);
      assert [name[0]] + name[1..] == name;
    }
  }

  lemma VariableRoundTrip(isPrint: Printable, v: Variable)
    requires 61 !in v.name
    ensures ReadVariable(Quoted(isPrint, v.name + [61] + v.value)) == Some((Doubled(v.name), v.value))
  {
    hide Token;
    hide Quoted;
    hide Undoubled;
    hide Doubled;
    var text := v.name + [61] + v.value;
    TokenQuoted(isPrint, text, []);
    assert Quoted(isPrint, text) + [] == Quoted(isPrint, text);
    DoubledJoin(v.name + [61], v.value);
    DoubledJoin(v.name, [61]);
    EqualsStays();
    DoubledBytes(v.name);
    CutAtEquals(Doubled(v.name), Doubled(v.value));
    UndoubledDoubled(v.value);
  }

  lemma EqualsStays()
    ensures Doubled([61]) == [61]
  {
    assert [61][1..] == [];
    assert Doubled([]) == [];
  }

  /** The variables by name, but with percent signs in names doubled: the reader leaves names as they stand. */
  function Variables(vs: seq<Variable>): map<Bytes, Bytes> {
    if vs == [] then map[] else Variables(vs[..|vs| - 1])[Doubled(vs[|vs| - 1].name) := vs[|vs| - 1].value]
  }

  lemma {:induction false} EnvironmentLinesRead(isPrint: Printable, before: seq<Bytes>, vs: seq<Variable>)
    requires forall i | 0 <= i < |vs| :: 61 !in vs[i].name
    requires ReadEnvironment(before) == Some(map[])
    ensures ReadEnvironment(before + EnvironmentLines(isPrint, vs)) == Some(Variables(vs))
    decreases |vs|
  {
    hide ReadVariable;
    hide Quoted;
    hide Ascii;
    hide Doubled;
    if vs == [] {
      assert before + [] == before;
    } else {
      var init, v := vs[..|vs| - 1], vs[|vs| - 1];
      EnvironmentLinesRead(isPrint, before, init);
      VariableRoundTrip(isPrint, v);
      var lines := before + EnvironmentLines(isPrint, vs);
      var line := EnvironmentLine(isPrint, v);
      assert lines == before + EnvironmentLines(isPrint, init) + [line];
      assert lines[..|lines| - 1] == before + EnvironmentLines(isPrint, init);
      assert line[..|ENVIRONMENT|] == ENVIRONMENT && line[|ENVIRONMENT|..] == Quoted(isPrint, v.name + [61] + v.value);
    }
  }

  lemma HeadingSetsNothing(isPrint: Printable, d: Definition)
    ensures ReadEnvironment([Ascii("[Service]"), Ascii("Type=simple"),
                             EXEC + Parts(isPrint, [d.executable] + d.arguments), Ascii("Restart=no")]) == Some(map[])
  {
    hide Ascii;
    hide Parts;
    HeadingLines();
    var exec := EXEC + Parts(isPrint, [d.executable] + d.arguments);
    assert exec[1] == EXEC[1];
    OtherStart(exec, ENVIRONMENT, 1);
    var a, b, c := [Ascii("[Service]")], [Ascii("[Service]"), Ascii("Type=simple")],
                   [Ascii("[Service]"), Ascii("Type=simple"), exec];
    var e := c + [Ascii("Restart=no")];
    assert a[..0] == [] && b[..1] == a && c[..2] == b && e[..3] == c;
    assert ReadEnvironment(a) == Some(map[]);
    assert ReadEnvironment(b) == Some(map[]);
    assert ReadEnvironment(c) == Some(map[]);
    assert ReadEnvironment(e) == Some(map[]);
    assert e == [Ascii("[Service]"), Ascii("Type=simple"), exec, Ascii("Restart=no")];
  }

  /** The environment is read back, with its names' percent signs doubled. */
  lemma EnvironmentRoundTrip(isPrint: Printable, d: Definition)
    requires ValidDefinition(d)
    ensures ReadEnvironment(Lines(UnitText(UnitLines(isPrint, d)))) == Some(Variables(d.environment))
  {
    hide Ascii;
    hide Parts;
    hide UnitText;
    hide Lines;
    hide EnvironmentLines;
    UnitLinesAre(isPrint, d);
    HeadingSetsNothing(isPrint, d);
    var heading := [Ascii("[Service]"), Ascii("Type=simple"), EXEC + Parts(isPrint, [d.executable] + d.arguments),
                    Ascii("Restart=no")];
    EnvironmentLinesRead(isPrint, heading, d.environment);
    var lines := UnitLines(isPrint, d);
    assert lines == heading + EnvironmentLines(isPrint, d.environment);
    assert (lines + [[]])[..|lines|] == lines;
  }

  /** The variables as the definition has them. */
  function Defined(vs: seq<Variable>): map<Bytes, Bytes> {
    if vs == [] then map[] else Defined(vs[..|vs| - 1])[vs[|vs| - 1].name := vs[|vs| - 1].value]
  }

  ghost predicate PercentFree(vs: seq<Variable>) {
    forall i | 0 <= i < |vs| :: PERCENT !in vs[i].name
  }

  lemma {:induction false} PercentFreeIsDefined(vs: seq<Variable>)
    requires PercentFree(vs)
    ensures Variables(vs) == Defined(vs)
    decreases |vs|
  {
    if vs != [] {
      DoubledBytes(vs[|vs| - 1].name);
      PercentFreeIsDefined(vs[..|vs| - 1]);
    }
  }

  lemma {:induction false} VariableNames(vs: seq<Variable>, key: Bytes)
    ensures key in Variables(vs) <==> exists i :: 0 <= i < |vs| && Doubled(vs[i].name) == key
    ensures key in Defined(vs) <==> exists i :: 0 <= i < |vs| && vs[i].name == key
    decreases |vs|
  {
    hide Doubled;
    if vs != [] {
      var last := |vs| - 1;
      VariableNames(vs[..last], key);
      assert forall i | 0 <= i < last :: vs[..last][i] == vs[i];
    }
  }

  /** Of the names with percent signs the shortest is not read back. */
  lemma {:induction false} SomeNameIsLost(vs: seq<Variable>, i: nat) returns (lost: nat)
    requires i < |vs| && PERCENT in vs[i].name
    ensures lost < |vs| && vs[lost].name !in Variables(vs)
    decreases |vs[i].name|
  {
    hide Doubled;
    VariableNames(vs, vs[i].name);
    if vs[i].name !in Variables(vs) {
      lost := i;
    } else {
      var k :| 0 <= k < |vs| && Doubled(vs[k].name) == vs[i].name;
      DoubledBytes(vs[k].name);
      lost := SomeNameIsLost(vs, k);
    }
  }

  /**
   Reading the unit recovers the executable and the arguments of every definition that is accepted, and the
   environment of exactly those whose names have no percent sign.
   */
  lemma UnitRoundTrip(isPrint: Printable, d: Definition)
    requires ValidDefinition(d)
    ensures ReadExec(UnitText(UnitLines(isPrint, d))) == Some([d.executable] + d.arguments)
    ensures ReadEnvironment(Lines(UnitText(UnitLines(isPrint, d)))) == Some(Defined(d.environment))
            <==> PercentFree(d.environment)
  {
    hide UnitText;
    hide UnitLines;
    hide Lines;
    hide ValidDefinition;
    hide ReadEnvironment;
    ExecRoundTrip(isPrint, d);
    EnvironmentRoundTrip(isPrint, d);
    var vs := d.environment;
    if PercentFree(vs) {
      PercentFreeIsDefined(vs);
    } else {
      var i :| 0 <= i < |vs| && PERCENT in vs[i].name;
      var lost := SomeNameIsLost(vs, i);
      VariableNames(vs, vs[lost].name);
      assert vs[lost].name in Defined(vs);
    }
  }

  /** A variable named with a percent sign is read back under two of them. */
  lemma PercentNameIsDoubled(isPrint: Printable)
    ensures var d := Definition([97], [], [Variable([PERCENT], [98])], [], []);
      && ValidDefinition(d)
      && ReadEnvironment(Lines(UnitText(UnitLines(isPrint, d)))) == Some(map[[PERCENT, PERCENT] := [98]])
  {
    hide UnitText;
    hide UnitLines;
    hide Lines;
    hide ReadEnvironment;
    var variable := Variable([PERCENT], [98]);
    var d := Definition([97], [], [variable], [], []);
    EnvironmentRoundTrip(isPrint, d);
    assert [PERCENT][1..] == [] && Doubled([]) == [] && Doubled([PERCENT]) == [PERCENT, PERCENT];
    assert [variable][..0] == [] && Variables([]) == map[];
  }
}
