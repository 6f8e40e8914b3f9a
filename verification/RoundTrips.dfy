/** What a client encodes, sends in any pieces and the server parses is what the client meant. */
module RoundTrips {
  import opened Sequences
  import opened Framing
  import opened Protocol

  function Line(name: string, s: string): string { name + ":" + s + "\r\n" }

  /** A client's message; the value line is there only for a client that gives a value. */
  function Encode(name: string, key: string, value: Option<string>): string {
    Line("Method", name) + (Line("Key", key) + ((if value.Some? then Line("Value", value.value) else "") + "\r\n"))
  }

  function Name(kind: CommandType): string {
    match kind
    case ADD => "ADD"
    case UPDATE => "UPDATE"
    case GET => "GET"
    case DELETE => "DELETE"
    case INVALID => ""
  }

  /** What a client can ask for: a value goes with add and update alone. */
  predicate Askable(c: Command) { c.kind != INVALID && (!NeedsValue(c.kind) ==> c.value == "") }

  function Message(c: Command): string {
    Encode(Name(c.kind), c.key, if NeedsValue(c.kind) then Some(c.value) else None)
  }

  /** Text that survives the line format: no newline inside, no blank at either end. */
  predicate Clean(s: string) { '\n' !in s && Trimmed(s) }

  // ---- One line ----

  lemma IndexAt(s: string, c: char, i: nat)
    requires i < |s| && s[i] == c && forall j :: 0 <= j < i ==> s[j] != c
    ensures IndexOf(s, c) == i
  {
  }

  lemma LineInFront(x: string, t: string)
    requires '\n' !in x
    ensures Lines(x + "\r\n" + t) == [x + "\r"] + Lines(t)
  {
    var s := x + "\r\n" + t;
    IndexAt(s, '\n', |x| + 1);
    assert s[..|x| + 1] == x + "\r" && s[|x| + 2..] == t;
  }

  lemma FieldOfLine(name: string, s: string)
    requires ':' !in name && Trimmed(name)
    ensures FieldIn(name + ":" + s + "\r") == Some((name, Trim(s)))
  {
    var l := name + ":" + s;
    assert WithoutReturn(l + "\r") == l;
    IndexAt(l, ':', |name|);
    assert l[..|name|] == name && l[|name| + 1..] == s;
    TrimExact(name);
  }

  lemma EncodedLine(name: string, s: string, t: string)
    requires ':' !in name && '\n' !in name && Trimmed(name) && '\n' !in s
    ensures Lines(Line(name, s) + t) == [name + ":" + s + "\r"] + Lines(t)
    ensures FieldIn(name + ":" + s + "\r") == Some((name, Trim(s)))
  {
    var x := name + ":" + s;
    assert Line(name, s) + t == x + "\r\n" + t;
    LineInFront(x, t);
    FieldOfLine(name, s);
  }

  lemma EmptyLine()
    ensures Lines("\r\n") == ["\r"] && FieldIn("\r") == None
  {
    LineInFront("", "");
    assert "" + "\r\n" + "" == "\r\n" && "" + "\r" == "\r";
    assert WithoutReturn("\r") == "";
  }

  lemma LastValueEnd(lines: seq<string>, line: string, name: string)
    ensures var f := FieldIn(line);
            LastValue(lines + [line], name) == if f.Some? && f.value.0 == name then Some(f.value.1) else LastValue(lines, name)
  {
    assert (lines + [line])[..|lines|] == lines;
  }

  /** The values of three or four given lines. */
  lemma LastOfFour(a: string, b: string, c: string, d: string, name: string)
    ensures LastValue([a, b, c, d], name) == Later(d, Later(c, Later(b, Later(a, None, name), name), name), name)
    ensures LastValue([a, b, c], name) == Later(c, Later(b, Later(a, None, name), name), name)
  {
    LastValueEnd([], a, name);
    LastValueEnd([a], b, name);
    LastValueEnd([a, b], c, name);
    LastValueEnd([a, b, c], d, name);
    assert [] + [a] == [a] && [a] + [b] == [a, b] && [a, b] + [c] == [a, b, c] && [a, b, c] + [d] == [a, b, c, d];
  }

  function Later(line: string, before: Option<string>, name: string): Option<string> {
    var f := FieldIn(line);
    if f.Some? && f.value.0 == name then Some(f.value.1) else before
  }

  // ---- One message ----

  /** Encoding and parsing gives each field trimmed, whatever colons and blanks it has, if it has no newline. */
  lemma FieldsOfEncoded(name: string, key: string, value: Option<string>)
    requires '\n' !in name && '\n' !in key && (value.Some? ==> '\n' !in value.value)
    ensures var lines := Lines(Encode(name, key, value));
            && LastValue(lines, "Method") == Some(Trim(name))
            && LastValue(lines, "Key") == Some(Trim(key))
            && LastValue(lines, "Value") == if value.Some? then Some(Trim(value.value)) else None
  {
    hide Lines, FieldIn, LastValue, Trim, Line;
    EmptyLine();
    var m, k := "Method" + ":" + name + "\r", "Key" + ":" + key + "\r";
    var tail := (if value.Some? then Line("Value", value.value) else "") + "\r\n";
    EncodedLine("Method", name, Line("Key", key) + tail);
    EncodedLine("Key", key, tail);
    if value.Some? {
      var v := "Value" + ":" + value.value + "\r";
      EncodedLine("Value", value.value, "\r\n");
      assert Lines(Encode(name, key, value)) == [m, k, v, "\r"];
      forall n ensures LastValue([m, k, v, "\r"], n) == Later("\r", Later(v, Later(k, Later(m, None, n), n), n), n) {
        LastOfFour(m, k, v, "\r", n);
      }
    } else {
      assert tail == "\r\n";
      assert Lines(Encode(name, key, value)) == [m, k, "\r"];
      forall n ensures LastValue([m, k, "\r"], n) == Later("\r", Later(k, Later(m, None, n), n), n) {
        LastOfFour(m, k, "\r", "", n);
      }
    }
  }

  lemma AlreadyUpper(s: string)
    requires forall i :: 0 <= i < |s| ==> Upper(s[i]) == s[i]
    ensures Uppercase(s) == s
  {
  }

  lemma KnownName(kind: CommandType)
    requires kind != INVALID
    ensures StringToCommand(Name(kind)) == kind && Clean(Name(kind)) && Trim(Name(kind)) == Name(kind)
  {
    hide TrimLeft, TrimRight;
    TrimExact(Name(kind));
    AlreadyUpper(Name(kind));
  }

  ghost predicate NoNewlines(lines: seq<string>) { forall l :: l in lines ==> '\n' !in l }

  lemma LineMore(line: string, lines: seq<string>)
    requires '\n' !in line && NoNewlines(lines)
    ensures NoNewlines([line] + lines)
  {
  }

  lemma {:induction false} LinesAreLines(s: string)
    ensures NoNewlines(Lines(s))
    decreases |s|
  {
    hide NoNewlines, Lines;
    if s == "" {
      NoLines();
    } else {
      LinesStep(s);
      var i := IndexOf(s, '\n');
      var rest := if i == |s| then "" else s[i + 1..];
      LinesAreLines(rest);
      LineMore(s[..i], Lines(rest));
    }
  }

  lemma NoLines()
    ensures NoNewlines(Lines(""))
  {
  }

  lemma {:induction false} ValuesAreClean(lines: seq<string>, name: string)
    requires NoNewlines(lines)
    ensures LastValue(lines, name).Some? ==> Clean(LastValue(lines, name).value)
  {
    if lines != [] {
      var line := lines[|lines| - 1];
      assert line in lines;
      ValuesAreClean(lines[..|lines| - 1], name);
      if FieldIn(line).Some? { FieldIsClean(line); }
    }
  }

  lemma FieldIsClean(line: string)
    requires '\n' !in line && FieldIn(line).Some?
    ensures Clean(FieldIn(line).value.1)
  {
    var l := WithoutReturn(line);
    var i := IndexOf(l, ':');
    TrimExact(l[i + 1..]);
    assert forall c :: c in l[i + 1..] ==> c in line;
  }

  /** No message at all parses to a command with a key or value that is not clean. */
  lemma ParsedIsClean(message: string)
    requires Parsed(message).kind != INVALID
    ensures Clean(Parsed(message).key) && Clean(Parsed(message).value)
  {
    LinesAreLines(message);
    ValuesAreClean(Lines(message), "Key");
    ValuesAreClean(Lines(message), "Value");
  }

  /** A command survives encoding and parsing if and only if its key and value are clean; colons do no harm. */
  lemma RoundTrip(c: Command)
    requires Askable(c)
    ensures Parsed(Message(c)) == c <==> Clean(c.key) && Clean(c.value)
  {
    if Clean(c.key) && Clean(c.value) {
      KnownName(c.kind);
      FieldsOfEncoded(Name(c.kind), c.key, if NeedsValue(c.kind) then Some(c.value) else None);
      TrimExact(c.key);
      TrimExact(c.value);
    }
    if Parsed(Message(c)) == c {
      ParsedIsClean(Message(c));
    }
  }

  // ---- Messages in a stream ----

  /** A line in front: a terminator in the whole is one in what follows, or the line's own end and an empty line. */
  lemma EndsAfterLine(x: string, t: string, j: nat)
    requires '\n' !in x
    ensures EndsAt(x + "\r\n" + t, j) <==>
              (j == |x| && |t| >= 2 && t[..2] == "\r\n") || (j >= |x| + 2 && EndsAt(t, j - |x| - 2))
  {
    var s := x + "\r\n" + t;
    if j + 4 <= |s| {
      var w := s[j..j + 4];
      assert w[0] == s[j] && w[1] == s[j + 1] && w[2] == s[j + 2] && w[3] == s[j + 3];
      assert w == Terminator <==> w[0] == '\r' && w[1] == '\n' && w[2] == '\r' && w[3] == '\n';
      if j < |x| {
        assert s[j + 1] == if j + 1 < |x| then x[j + 1] else '\r';
      } else if j >= |x| + 2 {
        assert t[j - |x| - 2..][..4] == w;
      }
    }
  }

  lemma LastLineEnds(x: string)
    requires '\n' !in x
    ensures OneMessage(x + "\r\n" + "\r\n")
  {
    forall j: nat ensures EndsAt(x + "\r\n" + "\r\n", j) <==> j == |x| {
      EndsAfterLine(x, "\r\n", j);
    }
  }

  lemma LineBefore(x: string, t: string)
    requires '\n' !in x && OneMessage(t) && t[0] != '\r'
    ensures OneMessage(x + "\r\n" + t)
  {
    forall j: nat ensures EndsAt(x + "\r\n" + t, j) <==> j >= |x| + 2 && EndsAt(t, j - |x| - 2) {
      EndsAfterLine(x, t, j);
      assert |t| >= 2 ==> t[..2][0] == t[0];
    }
  }

  /** An encoded message ends at its only terminator, if its texts have no newline. */
  lemma EncodedIsMessage(name: string, key: string, value: Option<string>)
    requires '\n' !in name && '\n' !in key && (value.Some? ==> '\n' !in value.value)
    ensures OneMessage(Encode(name, key, value))
  {
    hide OneMessage;
    var m, k := "Method" + ":" + name, "Key" + ":" + key;
    var tail := k + "\r\n" + "\r\n";
    if value.Some? {
      var v := "Value" + ":" + value.value;
      LastLineEnds(v);
      LineBefore(k, v + "\r\n" + "\r\n");
      tail := k + "\r\n" + (v + "\r\n" + "\r\n");
    } else {
      LastLineEnds(k);
      assert "" + "\r\n" == "\r\n";
    }
    LineBefore(m, tail);
    assert Encode(name, key, value) == m + "\r\n" + tail;
  }

  /** A command that a client can ask for and that survives the trip, copying as a C string included. */
  predicate Sendable(c: Command) {
    Askable(c) && Clean(c.key) && Clean(c.value) && '\0' !in c.key && '\0' !in c.value
  }

  function Messages(cmds: seq<Command>): (ms: seq<string>)
    ensures |ms| == |cmds|
  {
    if cmds == [] then [] else [Message(cmds[0])] + Messages(cmds[1..])
  }

  function ParsedAll(messages: seq<string>): seq<Command> {
    if messages == [] then [] else [Parsed(messages[0])] + ParsedAll(messages[1..])
  }

  lemma {:induction false} NulInJoined(ms: seq<string>)
    ensures '\0' !in Joined(ms) <==> forall m :: m in ms ==> '\0' !in m
  {
    if ms != [] {
      NulInJoined(ms[1..]);
      assert ms == [ms[0]] + ms[1..];
      assert (forall m :: m in ms ==> '\0' !in m) <==> '\0' !in ms[0] && forall m :: m in ms[1..] ==> '\0' !in m;
    }
  }

  lemma NameHasNoNul(kind: CommandType)
    ensures '\0' !in Name(kind)
  {
  }

  lemma LineHasNoNul(name: string, s: string)
    requires '\0' !in name && '\0' !in s
    ensures '\0' !in Line(name, s)
  {
  }

  lemma EncodedHasNoNul(name: string, key: string, value: Option<string>)
    requires '\0' !in name && '\0' !in key && (value.Some? ==> '\0' !in value.value)
    ensures '\0' !in Encode(name, key, value)
  {
    hide Line;
    LineHasNoNul("Method", name);
    LineHasNoNul("Key", key);
    if value.Some? { LineHasNoNul("Value", value.value); }
  }

  lemma SendableMessage(c: Command)
    requires Sendable(c)
    ensures OneMessage(Message(c)) && '\0' !in Message(c) && Parsed(Message(c)) == c
  {
    hide OneMessage, Parsed, Encode, Trimmed, Name;
    var value := if NeedsValue(c.kind) then Some(c.value) else None;
    KnownName(c.kind);
    NameHasNoNul(c.kind);
    EncodedIsMessage(Name(c.kind), c.key, value);
    EncodedHasNoNul(Name(c.kind), c.key, value);
    RoundTrip(c);
  }

  lemma {:induction false} SendableMessages(cmds: seq<Command>)
    requires forall c :: c in cmds ==> Sendable(c)
    ensures forall m :: m in Messages(cmds) ==> OneMessage(m) && '\0' !in m
    ensures ParsedAll(Messages(cmds)) == cmds
  {
    hide OneMessage, Parsed, Sendable, Message;
    if cmds != [] {
      SendableMessages(cmds[1..]);
      assert cmds[0] in cmds;
      SendableMessage(cmds[0]);
      var rest := Messages(cmds[1..]);
      assert ([Message(cmds[0])] + rest)[1..] == rest;
      assert cmds == [cmds[0]] + cmds[1..];
    }
  }

  /**
   * A pipeline of commands, encoded one after the other and cut into reads anywhere, arrives as exactly those
   * commands in that order, with nothing left over.
   */
  lemma Pipeline(cmds: seq<Command>, chunks: seq<string>)
    requires forall c :: c in cmds ==> Sendable(c)
    requires Joined(chunks) == Joined(Messages(cmds))
    ensures FeedAll("", chunks) == Cut(Messages(cmds), "") && ParsedAll(FeedAll("", chunks).messages) == cmds
  {
    hide OneMessage, Sendable, Message, FeedAll, Parsed;
    SendableMessages(cmds);
    NulInJoined(chunks);
    NulInJoined(Messages(cmds));
    ChunkingIndependent(chunks);
    var c := Cut(Messages(cmds), "");
    assert Joined(c.messages) + "" == Joined(c.messages);
    CutUnique(c, Joined(chunks));
  }
}
