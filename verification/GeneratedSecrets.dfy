/**
 The generated-secrets file (packages/config/src/container-runtime.ts): its printer and
 parser, and the write-then-rename protocol of one process under crashes at any point.
 */
module GeneratedSecrets {
  import opened Common

  type Values = map<string, string>

  datatype LoadError = InvalidLine(line: string) | MissingVariable(name: string)

  /** String.prototype.trim removes these. */
  predicate IsSpace(c: char) {
    || c in {'\t', '\n', '\U{0b}', '\U{0c}', '\r', ' ', '\U{a0}', '\U{1680}'}
    || '\U{2000}' <= c <= '\U{200a}'
    || c in {'\U{2028}', '\U{2029}', '\U{202f}', '\U{205f}', '\U{3000}', '\U{feff}'}
  }

  predicate IsBlank(s: string) {
    forall c | c in s :: IsSpace(c)
  }

  /** What the printer needs of the variable names. */
  predicate GoodNames(names: seq<string>) {
    && names != [] && NoDuplicates(names)
    && forall name | name in names :: !IsBlank(name) && '=' !in name && '\n' !in name
  }

  // ---------- The ten names ----------

  const API := "MISTLE_SERVICES_" + "CONTROL_PLANE_" + "API_"
  const TOKENS := "MISTLE_SANDBOX_" + "TOKENS_"
  const PUBLISH := "MISTLE_SANDBOX_" + "PUBLISH_"

  const GENERATED_SECRET_ENV_VARS: seq<string> := [
    API + "AUTH_SECRET",
    API + "MCP_" + "AUTH_SECRET",
    API + "INTEGRATIONS_" + "MASTER_" + "ENCRYPTION_" + "KEYS_JSON",
    "MISTLE_INTERNAL_" + "AUTH_" + "SHARED_TOKEN",
    TOKENS + "CONNECT_SECRET",
    TOKENS + "BOOTSTRAP_" + "SECRET",
    TOKENS + "EGRESS_SECRET",
    TOKENS + "PTY_" + "TRANSPORT_" + "SECRET",
    PUBLISH + "ACCESS_" + "TOKEN_SECRET",
    PUBLISH + "SESSION_" + "COOKIE_" + "SIGNING_SECRET"
  ]

  predicate IsVariableName(name: string) {
    name != "" && forall c | c in name :: 'A' <= c <= 'Z' || c == '_'
  }

  lemma Joined(a: string, b: string)
    requires IsVariableName(a) && IsVariableName(b)
    ensures IsVariableName(a + b)
  {
  }

  lemma PrefixesAreVariableNames()
    ensures IsVariableName(API) && IsVariableName(TOKENS) && IsVariableName(PUBLISH)
  {
    assert IsVariableName("MISTLE_SERVICES_") && IsVariableName("CONTROL_PLANE_") && IsVariableName("API_");
    Joined("MISTLE_SERVICES_", "CONTROL_PLANE_");
    Joined("MISTLE_SERVICES_" + "CONTROL_PLANE_", "API_");
    assert IsVariableName("MISTLE_SANDBOX_") && IsVariableName("TOKENS_") && IsVariableName("PUBLISH_");
    Joined("MISTLE_SANDBOX_", "TOKENS_");
    Joined("MISTLE_SANDBOX_", "PUBLISH_");
  }

  lemma Joined3(a: string, b: string, c: string)
    requires IsVariableName(a) && IsVariableName(b) && IsVariableName(c)
    ensures IsVariableName(a + b + c)
  {
    Joined(a, b);
    Joined(a + b, c);
  }

  lemma ServiceNames()
    ensures IsVariableName(API + "AUTH_SECRET") && IsVariableName(API + "MCP_" + "AUTH_SECRET")
    ensures IsVariableName(API + "INTEGRATIONS_" + "MASTER_" + "ENCRYPTION_" + "KEYS_JSON")
    ensures IsVariableName("MISTLE_INTERNAL_" + "AUTH_" + "SHARED_TOKEN")
  {
    PrefixesAreVariableNames();
    Joined(API, "AUTH_SECRET");
    Joined3(API, "MCP_", "AUTH_SECRET");
    Joined3(API, "INTEGRATIONS_", "MASTER_");
    Joined3(API + "INTEGRATIONS_" + "MASTER_", "ENCRYPTION_", "KEYS_JSON");
    Joined3("MISTLE_INTERNAL_", "AUTH_", "SHARED_TOKEN");
  }

  lemma TokenNames()
    ensures IsVariableName(TOKENS + "CONNECT_SECRET") && IsVariableName(TOKENS + "BOOTSTRAP_" + "SECRET")
    ensures IsVariableName(TOKENS + "EGRESS_SECRET") && IsVariableName(TOKENS + "PTY_" + "TRANSPORT_" + "SECRET")
  {
    PrefixesAreVariableNames();
    Joined(TOKENS, "CONNECT_SECRET");
    Joined3(TOKENS, "BOOTSTRAP_", "SECRET");
    Joined(TOKENS, "EGRESS_SECRET");
    Joined3(TOKENS, "PTY_", "TRANSPORT_");
    Joined(TOKENS + "PTY_" + "TRANSPORT_", "SECRET");
  }

  lemma PublishNames()
    ensures IsVariableName(PUBLISH + "ACCESS_" + "TOKEN_SECRET")
    ensures IsVariableName(PUBLISH + "SESSION_" + "COOKIE_" + "SIGNING_SECRET")
  {
    PrefixesAreVariableNames();
    Joined3(PUBLISH, "ACCESS_", "TOKEN_SECRET");
    Joined3(PUBLISH, "SESSION_", "COOKIE_");
    Joined(PUBLISH + "SESSION_" + "COOKIE_", "SIGNING_SECRET");
  }

  lemma NamesAreDistinct()
    ensures NoDuplicates(GENERATED_SECRET_ENV_VARS)
  {
    var names := GENERATED_SECRET_ENV_VARS;
    assert |names[0]| == 45 && |names[1]| == 49 && |names[2]| == 74 && |names[3]| == 33 && |names[4]| == 36;
    assert |names[5]| == 38 && |names[6]| == 35 && |names[7]| == 42 && |names[8]| == 42 && |names[9]| == 52;
    assert names[7][15] == TOKENS[15] == 'T' && names[8][15] == PUBLISH[15] == 'P';
  }

  /** The names of the source are good ones. */
  lemma TheNamesAreGood()
    ensures GoodNames(GENERATED_SECRET_ENV_VARS) && |GENERATED_SECRET_ENV_VARS| == 10
  {
    ServiceNames();
    TokenNames();
    PublishNames();
    NamesAreDistinct();
    forall name | name in GENERATED_SECRET_ENV_VARS ensures !IsBlank(name) && '=' !in name && '\n' !in name {
      VariableNamesAreGood(name);
    }
  }

  lemma VariableNamesAreGood(name: string)
    requires IsVariableName(name)
    ensures !IsBlank(name) && '=' !in name && '\n' !in name
  {
    assert name[0] in name;
  }

  // ---------- Printing ----------

  function Line(name: string, values: Values): string
    requires name in values
  {
    name + "=" + values[name]
  }

  function LinesOf(names: seq<string>, values: Values): (lines: seq<string>)
    requires forall name :: name in names ==> name in values
    ensures |lines| == |names|
  {
    if names == [] then []
    else LinesOf(names[..|names| - 1], values) + [Line(names[|names| - 1], values)]
  }

  function Join(lines: seq<string>): string {
    if lines == [] then ""
    else if |lines| == 1 then lines[0]
    else lines[0] + "\n" + Join(lines[1..])
  }

  function Render(names: seq<string>, values: Values): string
    requires forall name :: name in names ==> name in values
  {
    Join(LinesOf(names, values)) + "\n"
  }

  // ---------- Parsing ----------

  function ReadLine(line: string, result: Values): Result<Values, LoadError> {
    if IsBlank(line) then Ok(result)
    else
      match IndexOf(line, "=")
      case None => Err(InvalidLine(line))
      case Some(i) => if i < 1 then Err(InvalidLine(line)) else Ok(result[line[..i] := line[i + 1..]])
  }

  function ReadLines(lines: seq<string>): Result<Values, LoadError> {
    if lines == [] then Ok(map[])
    else
      match ReadLines(lines[..|lines| - 1])
      case Err(error) => Err(error)
      case Ok(result) => ReadLine(lines[|lines| - 1], result)
  }

  predicate Present(values: Values, name: string) {
    name in values && !IsBlank(values[name])
  }

  function CheckNames(names: seq<string>, values: Values): Result<Values, LoadError> {
    if names == [] then Ok(values)
    else if !Present(values, names[0]) then Err(MissingVariable(names[0]))
    else CheckNames(names[1..], values)
  }

  function Parse(names: seq<string>, content: string): Result<Values, LoadError> {
    match ReadLines(Split(content, "\n"))
    case Err(error) => Err(error)
    case Ok(values) => CheckNames(names, values)
  }

  method ParseGeneratedSecretsFile(names: seq<string>, content: string) returns (result: Result<Values, LoadError>)
    ensures result == Parse(names, content)
  {
    var lines := Split(content, "\n");
    var values: Values := map[];
    for i := 0 to |lines|
      invariant ReadLines(lines[..i]) == Ok(values)
    {
      var line := lines[i];
      assert lines[..i + 1][..i] == lines[..i];
      if IsBlank(line) {
        continue;
      }
      var separatorIndex := IndexOf(line, "=");
      if separatorIndex.None? || separatorIndex.value < 1 {
        BadLineFailsAll(lines, i + 1);
        return Err(InvalidLine(line));
      }
      values := values[line[..separatorIndex.value] := line[separatorIndex.value + 1..]];
    }
    assert lines[..|lines|] == lines;
    for i := 0 to |names|
      invariant CheckNames(names, values) == CheckNames(names[i..], values)
    {
      if names[i] !in values || IsBlank(values[names[i]]) {
        return Err(MissingVariable(names[i]));
      }
    }
    result := Ok(values);
  }

  lemma {:induction false} BadLineFailsAll(lines: seq<string>, k: nat)
    requires k <= |lines| && ReadLines(lines[..k]).Err?
    ensures ReadLines(lines) == ReadLines(lines[..k])
    decreases |lines|
  {
    if k == |lines| {
      assert lines[..k] == lines;
    } else {
      assert lines[..|lines| - 1][..k] == lines[..k];
      BadLineFailsAll(lines[..|lines| - 1], k);
    }
  }

  lemma {:induction false} CheckedNamesArePresent(names: seq<string>, values: Values)
    ensures CheckNames(names, values).Ok? <==> forall name :: name in names ==> Present(values, name)
    ensures CheckNames(names, values).Ok? ==> CheckNames(names, values).value == values
  {
    if names != [] {
      CheckedNamesArePresent(names[1..], values);
      assert forall name :: name in names <==> name == names[0] || name in names[1..];
    }
  }

  // ---------- What a file means ----------

  /** The line gives the name a value: the name ends at its first equals sign. */
  ghost predicate Assigns(line: string, name: string, value: string) {
    name != "" && '=' !in name && !IsBlank(line) && line == name + "=" + value
  }

  /** A line is skipped if it is blank, and otherwise must assign a value. */
  lemma LinesAssign(line: string, result: Values)
    ensures ReadLine(line, result).Ok? <==> IsBlank(line) || exists name, value :: Assigns(line, name, value)
    ensures IsBlank(line) ==> ReadLine(line, result) == Ok(result)
    ensures forall name, value :: Assigns(line, name, value) ==> ReadLine(line, result) == Ok(result[name := value])
    ensures ReadLine(line, result).Err? ==> ReadLine(line, result).error == InvalidLine(line)
  {
    forall name, value | Assigns(line, name, value) ensures ReadLine(line, result) == Ok(result[name := value]) {
      IndexAfterOtherText(name, "=", value);
      assert line[..|name|] == name && line[|name| + 1..] == value;
    }
    if !IsBlank(line) && ReadLine(line, result).Ok? {
      var i := IndexOf(line, "=").value;
      IndexOfIsFirst(line, "=");
      forall j | 0 <= j < i ensures line[j] != '=' {
        OneCharacterOccurs(line, '=', j);
      }
      OneCharacterOccurs(line, '=', i);
      assert line == line[..i] + "=" + line[i + 1..];
      assert Assigns(line, line[..i], line[i + 1..]);
    }
  }

  /** The line at `i` is the last to give the name a value, and gives it this one. */
  ghost predicate AssignedLastBy(lines: seq<string>, name: string, value: string, i: int) {
    && 0 <= i < |lines| && Assigns(lines[i], name, value)
    && forall j, other :: i < j < |lines| ==> !Assigns(lines[j], name, other)
  }

  /** The lines are read iff each is blank or assigns a value, and then the last line that
      assigns a name decides. */
  lemma {:induction false} LastAssignmentCounts(lines: seq<string>, name: string, value: string)
    ensures ReadLines(lines).Ok?
            <==> forall line :: line in lines ==> IsBlank(line) || exists n, v :: Assigns(line, n, v)
    ensures ReadLines(lines).Ok? ==>
      (name in ReadLines(lines).value && ReadLines(lines).value[name] == value
       <==> exists i :: AssignedLastBy(lines, name, value, i))
  {
    if lines != [] {
      var n := |lines| - 1;
      var earlier, last := lines[..n], lines[n];
      assert lines == earlier + [last];
      assert forall line :: line in lines <==> line in earlier || line == last;
      LastAssignmentCounts(earlier, name, value);
      if ReadLines(earlier).Ok? {
        LinesAssign(last, ReadLines(earlier).value);
        if ReadLines(lines).Ok? {
          LastLineDecides(lines, name, value);
        }
      }
    }
  }

  lemma LastLineDecides(lines: seq<string>, name: string, value: string)
    requires lines != []
    ensures
      var n := |lines| - 1;
      if exists v :: Assigns(lines[n], name, v)
      then (exists i :: AssignedLastBy(lines, name, value, i)) <==> Assigns(lines[n], name, value)
      else (exists i :: AssignedLastBy(lines, name, value, i))
           <==> exists i :: AssignedLastBy(lines[..n], name, value, i)
  {
    var n := |lines| - 1;
    if Assigns(lines[n], name, value) {
      assert AssignedLastBy(lines, name, value, n);
    }
    if i :| AssignedLastBy(lines, name, value, i) {
      if i < n {
        assert AssignedLastBy(lines[..n], name, value, i);
      }
    }
    if i :| AssignedLastBy(lines[..n], name, value, i) {
      if !exists v :: Assigns(lines[n], name, v) {
        forall j, other | i < j < |lines| ensures !Assigns(lines[j], name, other) {
          assert j < n ==> lines[..n][j] == lines[j];
        }
        assert AssignedLastBy(lines, name, value, i);
      }
    }
  }

  /** A file that cannot be read is refused for its first bad line. */
  lemma {:induction false} FirstBadLineIsReported(lines: seq<string>) returns (i: nat)
    requires ReadLines(lines).Err?
    ensures i < |lines| && ReadLines(lines) == Err(InvalidLine(lines[i]))
    ensures !IsBlank(lines[i]) && forall n, v :: !Assigns(lines[i], n, v)
    ensures forall j :: 0 <= j < i ==> IsBlank(lines[j]) || exists n, v :: Assigns(lines[j], n, v)
  {
    var n := |lines| - 1;
    var earlier := lines[..n];
    if ReadLines(earlier).Err? {
      i := FirstBadLineIsReported(earlier);
      forall j | 0 <= j < i ensures IsBlank(lines[j]) || exists n, v :: Assigns(lines[j], n, v) {
        assert earlier[j] == lines[j];
      }
    } else {
      i := n;
      LinesAssign(lines[n], ReadLines(earlier).value);
      LastAssignmentCounts(earlier, "", "");
      forall j | 0 <= j < n ensures IsBlank(lines[j]) || exists n, v :: Assigns(lines[j], n, v) {
        assert earlier[j] in earlier;
      }
    }
  }

  /** A file that was read is accepted iff every name has a value that is not blank, and is
      otherwise refused for the first name that has none. */
  lemma {:induction false} FirstMissingNameIsReported(names: seq<string>, values: Values) returns (i: nat)
    ensures CheckNames(names, values).Ok? <==> forall name :: name in names ==> Present(values, name)
    ensures CheckNames(names, values).Ok? ==> CheckNames(names, values).value == values
    ensures CheckNames(names, values).Err? ==>
      && i < |names| && CheckNames(names, values) == Err(MissingVariable(names[i]))
      && !Present(values, names[i]) && forall j :: 0 <= j < i ==> Present(values, names[j])
  {
    i := 0;
    CheckedNamesArePresent(names, values);
    if names != [] && Present(values, names[0]) {
      var rest := FirstMissingNameIsReported(names[1..], values);
      i := rest + 1;
    }
  }

  /** The printed file has a line NAME=value for each name, in order, and a newline at its end. */
  lemma FileHasALinePerName(names: seq<string>, values: Values)
    requires GoodNames(names) && forall name :: name in names ==> name in values && Writable(values[name])
    ensures
      var parts := Split(Render(names, values), "\n");
      && |parts| == |names| + 1 && parts[|names|] == ""
      && forall i :: 0 <= i < |names| ==> parts[i] == names[i] + "=" + values[names[i]]
  {
    PrintedLinesAreLines(names, values);
    SplitOfJoin(LinesOf(names, values));
    LineAt(names, values);
  }

  lemma {:induction false} LineAt(names: seq<string>, values: Values)
    requires forall name :: name in names ==> name in values
    ensures forall i :: 0 <= i < |names| ==> LinesOf(names, values)[i] == names[i] + "=" + values[names[i]]
  {
    if names != [] {
      LineAt(names[..|names| - 1], values);
    }
  }

  // ---------- Round trip ----------

  /** A value that survives: not blank, and on one line. It may contain "=". */
  predicate Writable(value: string) {
    !IsBlank(value) && '\n' !in value
  }

  lemma JoinFirst(line: string, rest: seq<string>)
    requires rest != []
    ensures Join([line] + rest) + "\n" == line + "\n" + (Join(rest) + "\n")
  {
    assert ([line] + rest)[1..] == rest;
  }

  lemma SplitOfOneLine(line: string)
    requires '\n' !in line
    ensures Split(line + "\n", "\n") == [line, ""]
  {
    SplitFirst(line, "\n", "");
    SplitFirst("", "\n", "");
    assert line + "\n" + "" == line + "\n";
  }

  lemma {:induction false} SplitOfJoin(lines: seq<string>)
    requires lines != [] && forall line :: line in lines ==> '\n' !in line
    ensures Split(Join(lines) + "\n", "\n") == lines + [""]
  {
    var line, rest := lines[0], lines[1..];
    assert lines == [line] + rest && line in lines;
    if rest == [] {
      SplitOfOneLine(line);
      assert [line, ""] == lines + [""];
    } else {
      SplitOfJoin(rest);
      JoinFirst(line, rest);
      SplitFirst(line, "\n", Join(rest) + "\n");
      assert [line] + (rest + [""]) == lines + [""];
    }
  }

  function Restrict(names: seq<string>, values: Values): Values {
    map name | name in values && name in names :: values[name]
  }

  lemma PrintedLineIsRead(name: string, values: Values, result: Values)
    requires name in values && !IsBlank(name) && '=' !in name
    ensures ReadLine(Line(name, values), result) == Ok(result[name := values[name]])
  {
    var line := Line(name, values);
    IndexAfterOtherText(name, "=", values[name]);
    assert line[..|name|] == name && line[|name| + 1..] == values[name];
    var c :| c in name && !IsSpace(c);
    assert c in line;
  }

  lemma {:induction false} PrintedLinesAreRead(names: seq<string>, values: Values)
    requires forall name :: name in names ==> name in values && !IsBlank(name) && '=' !in name
    ensures ReadLines(LinesOf(names, values)) == Ok(Restrict(names, values))
  {
    if names != [] {
      var n := |names| - 1;
      PrintedLinesAreRead(names[..n], values);
      PrintedLineIsRead(names[n], values, Restrict(names[..n], values));
      RestrictOneMore(names[..n], names[n], values);
      assert names == names[..n] + [names[n]];
      assert LinesOf(names, values)[..n] == LinesOf(names[..n], values);
    }
  }

  lemma RestrictOneMore(names: seq<string>, name: string, values: Values)
    requires name in values
    ensures Restrict(names + [name], values) == Restrict(names, values)[name := values[name]]
  {
  }

  lemma {:induction false} PrintedLinesAreLines(names: seq<string>, values: Values)
    requires forall name :: name in names ==> name in values && '\n' !in name && '\n' !in values[name]
    ensures forall line :: line in LinesOf(names, values) ==> '\n' !in line
  {
    if names != [] {
      PrintedLinesAreLines(names[..|names| - 1], values);
    }
  }

  lemma PrintedSecretsAreRead(names: seq<string>, values: Values)
    requires GoodNames(names) && forall name :: name in names ==> name in values && Writable(values[name])
    ensures Parse(names, Render(names, values)) == Ok(Restrict(names, values))
  {
    var lines := LinesOf(names, values);
    PrintedLinesAreLines(names, values);
    SplitOfJoin(lines);
    PrintedLinesAreRead(names, values);
    assert (lines + [""])[..|lines|] == lines;
    CheckedNamesArePresent(names, Restrict(names, values));
  }

  lemma {:induction false} SplitPartsHaveNoNewline(s: string)
    ensures forall part :: part in Split(s, "\n") ==> '\n' !in part
    decreases |s|
  {
    FirstNewline(s);
    var i := IndexOf(s, "\n");
    if i.Some? {
      SplitPartsHaveNoNewline(s[i.value + 1..]);
    }
  }

  lemma {:induction false} FirstNewline(s: string)
    ensures var i := IndexOf(s, "\n"); if i.None? then '\n' !in s else '\n' !in s[..i.value]
  {
    if s != "" && s[0] != '\n' {
      FirstNewline(s[1..]);
      assert forall c :: c in s <==> c == s[0] || c in s[1..];
      var i := IndexOf(s[1..], "\n");
      if i.Some? {
        assert s[..i.value + 1] == [s[0]] + s[1..][..i.value];
      }
    }
  }

  lemma {:induction false} ReadValuesHaveNoNewline(lines: seq<string>)
    requires forall line :: line in lines ==> '\n' !in line
    ensures ReadLines(lines).Ok? ==>
      forall name :: name in ReadLines(lines).value ==> '\n' !in ReadLines(lines).value[name]
  {
    if lines != [] {
      ReadValuesHaveNoNewline(lines[..|lines| - 1]);
      assert lines[|lines| - 1] in lines;
    }
  }

  predicate ReadsBack(names: seq<string>, values: Values)
    requires forall name :: name in names ==> name in values
  {
    var read := Parse(names, Render(names, values));
    read.Ok? && forall name | name in names :: name in read.value && read.value[name] == values[name]
  }

  /** Written values are read back exactly when each of them is non-blank and on one line. */
  lemma SecretsReadBackIff(names: seq<string>, values: Values)
    requires GoodNames(names) && forall name :: name in names ==> name in values
    ensures ReadsBack(names, values) <==> forall name :: name in names ==> Writable(values[name])
  {
    if forall name :: name in names ==> Writable(values[name]) {
      PrintedSecretsAreRead(names, values);
    }
    if ReadsBack(names, values) {
      var lines := Split(Render(names, values), "\n");
      SplitPartsHaveNoNewline(Render(names, values));
      ReadValuesHaveNoNewline(lines);
      CheckedNamesArePresent(names, ReadLines(lines).value);
    }
  }

  // ---------- Crashes ----------

  datatype Disk = Disk(target: Option<string>, temp: Option<string>)

  /** Where the process is in loadOrCreateGeneratedSecrets. */
  datatype Phase =
    | Down
    | Created(values: Values)
    | Writing(values: Values, written: nat)
    | Complete(values: Values)
    | Running(values: Values)

  datatype System = System(disk: Disk, phase: Phase)

  /** A crash, or any other end of the process, can come between any two steps. `generated`
      are the values a load creates when there is no file. */
  datatype Event =
    | LoadEvent(generated: Values)
    | OpenTempEvent
    | WriteEvent(upTo: nat)
    | CloseTempEvent
    | RenameEvent
    | CrashEvent

  ghost predicate Generated(names: seq<string>, values: Values) {
    (forall name :: name in values <==> name in names) && forall name :: name in names ==> Writable(values[name])
  }

  ghost predicate Enabled(names: seq<string>, s: System, e: Event) {
    match e
    case LoadEvent(generated) => s.phase.Down? && Generated(names, generated)
    case OpenTempEvent => s.phase.Created?
    case WriteEvent(upTo) =>
      && s.phase.Writing? && Generated(names, s.phase.values)
      && s.phase.written <= upTo <= |Render(names, s.phase.values)|
    case CloseTempEvent =>
      s.phase.Writing? && Generated(names, s.phase.values) && s.phase.written == |Render(names, s.phase.values)|
    case RenameEvent => s.phase.Complete?
    case CrashEvent => true
  }

  ghost function Step(names: seq<string>, s: System, e: Event): System
    requires Enabled(names, s, e)
  {
    match e
    case LoadEvent(generated) =>
      if s.disk.target.None? then s.(phase := Created(generated))
      else
        (match Parse(names, s.disk.target.value)
         case Ok(values) => s.(phase := Running(values))
         case Err(_) => s)
    case OpenTempEvent => System(s.disk.(temp := Some("")), Writing(s.phase.values, 0))
    case WriteEvent(upTo) =>
      System(s.disk.(temp := Some(Render(names, s.phase.values)[..upTo])), Writing(s.phase.values, upTo))
    case CloseTempEvent => s.(phase := Complete(s.phase.values))
    case RenameEvent => System(Disk(s.disk.temp, None), Running(s.phase.values))
    case CrashEvent => s.(phase := Down)
  }

  const Initial: System := System(Disk(None, None), Down)

  ghost predicate Runnable(names: seq<string>, s: System, events: seq<Event>)
    decreases |events|
  {
    events == [] || (Enabled(names, s, events[0]) && Runnable(names, Step(names, s, events[0]), events[1..]))
  }

  ghost function Run(names: seq<string>, s: System, events: seq<Event>): System
    requires Runnable(names, s, events)
    decreases |events|
  {
    if events == [] then s else Run(names, Step(names, s, events[0]), events[1..])
  }

  /** The file holds the printed form of generated values. */
  ghost predicate Holds(names: seq<string>, file: Option<string>, values: Values) {
    Generated(names, values) && file == Some(Render(names, values))
  }

  /** The target is absent or complete; while a new file is being made it is absent. */
  ghost predicate Invariant(names: seq<string>, s: System) {
    && (s.disk.target.Some? ==> exists values :: Holds(names, s.disk.target, values))
    && match s.phase
       case Down => true
       case Created(values) => s.disk.target.None? && Generated(names, values)
       case Writing(values, written) =>
         && s.disk.target.None? && Generated(names, values) && written <= |Render(names, values)|
         && s.disk.temp == Some(Render(names, values)[..written])
       case Complete(values) => s.disk.target.None? && Holds(names, s.disk.temp, values)
       case Running(values) => Holds(names, s.disk.target, values)
  }

  lemma LoadGivesWhatIsHeld(names: seq<string>, content: string, values: Values)
    requires GoodNames(names) && Holds(names, Some(content), values)
    ensures Parse(names, content) == Ok(values)
  {
    PrintedSecretsAreRead(names, values);
    assert Restrict(names, values) == values;
  }

  lemma StepKeepsInvariant(names: seq<string>, s: System, e: Event)
    requires GoodNames(names) && Invariant(names, s) && Enabled(names, s, e)
    ensures Invariant(names, Step(names, s, e))
    ensures s.disk.target.Some? ==> Step(names, s, e).disk.target == s.disk.target
  {
    if e.LoadEvent? && s.disk.target.Some? {
      var values :| Holds(names, s.disk.target, values);
      LoadGivesWhatIsHeld(names, s.disk.target.value, values);
    }
    if e.CloseTempEvent? {
      var content := Render(names, s.phase.values);
      assert content[..|content|] == content;
    }
    if e.RenameEvent? {
      assert Holds(names, Step(names, s, e).disk.target, s.phase.values);
    }
  }

  /** Whatever crashes happen, the target is absent or complete, and once there is a target it
      never changes. */
  lemma {:induction false} TargetIsAbsentOrComplete(names: seq<string>, s: System, events: seq<Event>)
    requires GoodNames(names) && Invariant(names, s) && Runnable(names, s, events)
    ensures Invariant(names, Run(names, s, events))
    ensures s.disk.target.Some? ==> Run(names, s, events).disk.target == s.disk.target
    decreases |events|
  {
    if events != [] {
      StepKeepsInvariant(names, s, events[0]);
      TargetIsAbsentOrComplete(names, Step(names, s, events[0]), events[1..]);
    }
  }

  /** The values a process once ran with are those every later process runs with. */
  lemma SecretsSurviveRestarts(names: seq<string>, before: seq<Event>, after: seq<Event>)
    requires GoodNames(names) && Runnable(names, Initial, before)
    requires Runnable(names, Run(names, Initial, before), after)
    requires Run(names, Initial, before).phase.Running?
    ensures var later := Run(names, Run(names, Initial, before), after);
      later.phase.Running? ==> later.phase.values == Run(names, Initial, before).phase.values
  {
    var first := Run(names, Initial, before);
    TargetIsAbsentOrComplete(names, Initial, before);
    TargetIsAbsentOrComplete(names, first, after);
    var later := Run(names, first, after);
    if later.phase.Running? {
      LoadGivesWhatIsHeld(names, first.disk.target.value, first.phase.values);
      LoadGivesWhatIsHeld(names, later.disk.target.value, later.phase.values);
    }
  }

  /** So do the values of the ten variables the source generates. */
  lemma GeneratedSecretsSurviveRestarts(before: seq<Event>, after: seq<Event>)
    requires Runnable(GENERATED_SECRET_ENV_VARS, Initial, before)
    requires Runnable(GENERATED_SECRET_ENV_VARS, Run(GENERATED_SECRET_ENV_VARS, Initial, before), after)
    requires Run(GENERATED_SECRET_ENV_VARS, Initial, before).phase.Running?
    ensures
      var first := Run(GENERATED_SECRET_ENV_VARS, Initial, before);
      var later := Run(GENERATED_SECRET_ENV_VARS, first, after);
      later.phase.Running? ==> later.phase.values == first.phase.values
  {
    TheNamesAreGood();
    SecretsSurviveRestarts(GENERATED_SECRET_ENV_VARS, before, after);
  }
}
