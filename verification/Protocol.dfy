/** The text protocol: lines of named fields, and the commands they make. */
module Protocol {
  import opened Sequences
  import opened Framing

  datatype CommandType = ADD | UPDATE | GET | DELETE | INVALID

  datatype Command = Command(kind: CommandType, key: string, value: string)

  // ---- Text ----

  /** The position of the first c, or the length. */
  function IndexOf(s: string, c: char): (i: nat)
    ensures i <= |s| && (i < |s| ==> s[i] == c) && forall j :: 0 <= j < i ==> s[j] != c
  {
    if s == "" || s[0] == c then 0 else 1 + IndexOf(s[1..], c)
  }

  predicate Blank(c: char) { c == ' ' || c == '\t' }

  function TrimLeft(s: string): string { if s != "" && Blank(s[0]) then TrimLeft(s[1..]) else s }

  function TrimRight(s: string): string {
    if s != "" && Blank(s[|s| - 1]) then TrimRight(s[..|s| - 1]) else s
  }

  function Trim(s: string): string { TrimRight(TrimLeft(s)) }

  /** No blank at either end. */
  predicate Trimmed(s: string) { s != "" ==> !Blank(s[0]) && !Blank(s[|s| - 1]) }

  ghost predicate Blanks(s: string) { forall c :: c in s ==> Blank(c) }

  /** s is t with blanks around it. */
  ghost predicate Padded(t: string, s: string) {
    exists a: string, b: string :: Blanks(a) && Blanks(b) && s == a + t + b
  }

  lemma {:induction false} TrimLeftExact(s: string) returns (a: string)
    ensures Blanks(a) && s == a + TrimLeft(s) && (TrimLeft(s) != "" ==> !Blank(TrimLeft(s)[0]))
  {
    if s != "" && Blank(s[0]) {
      var b := TrimLeftExact(s[1..]);
      a := [s[0]] + b;
      assert s == [s[0]] + s[1..];
    } else {
      a := "";
    }
  }

  lemma {:induction false} TrimRightExact(s: string) returns (b: string)
    ensures Blanks(b) && s == TrimRight(s) + b && (TrimRight(s) != "" ==> !Blank(TrimRight(s)[|TrimRight(s)| - 1]))
  {
    if s != "" && Blank(s[|s| - 1]) {
      var a := TrimRightExact(s[..|s| - 1]);
      b := a + [s[|s| - 1]];
      assert s == s[..|s| - 1] + [s[|s| - 1]];
    } else {
      b := "";
    }
  }

  /** Trimming takes off exactly the blanks at both ends. */
  lemma TrimExact(s: string)
    ensures Trimmed(Trim(s)) && Padded(Trim(s), s)
    ensures Trim(s) == s <==> Trimmed(s)
    ensures forall c :: c in Trim(s) ==> c in s
  {
    var a := TrimLeftExact(s);
    var b := TrimRightExact(TrimLeft(s));
    assert s == a + Trim(s) + b;
    if Trim(s) != "" {
      assert Trim(s)[0] == TrimLeft(s)[0];
    }
  }

  // ---- Lines and fields ----

  /** The lines of a text; a newline at the end does not start another. */
  function Lines(s: string): seq<string>
    decreases |s|
  {
    if s == "" then []
    else
      var i := IndexOf(s, '\n');
      if i == |s| then [s] else [s[..i]] + Lines(s[i + 1..])
  }

  function WithoutReturn(line: string): string {
    if line != "" && line[|line| - 1] == '\r' then line[..|line| - 1] else line
  }

  /** The name and value that a line gives, if it has a colon. */
  function FieldIn(line: string): Option<(string, string)> {
    var l := WithoutReturn(line);
    var i := IndexOf(l, ':');
    if i == |l| then None else Some((Trim(l[..i]), Trim(l[i + 1..])))
  }

  function With(fields: map<string, string>, f: Option<(string, string)>): map<string, string> {
    if f.Some? then fields[f.value.0 := f.value.1] else fields
  }

  /** Lines added one by one: a later field replaces an earlier one of the same name. */
  function AddLines(fields: map<string, string>, lines: seq<string>): map<string, string>
    decreases |lines|
  {
    if lines == [] then fields else AddLines(With(fields, FieldIn(lines[0])), lines[1..])
  }

  /** The value of the last line that gives a field of this name. */
  function LastValue(lines: seq<string>, name: string): Option<string> {
    if lines == [] then None
    else
      var f := FieldIn(lines[|lines| - 1]);
      if f.Some? && f.value.0 == name then Some(f.value.1) else LastValue(lines[..|lines| - 1], name)
  }

  lemma {:induction false} AddLinesEnd(fields: map<string, string>, lines: seq<string>, line: string)
    ensures AddLines(fields, lines + [line]) == With(AddLines(fields, lines), FieldIn(line))
    decreases |lines|
  {
    if lines == [] {
      assert lines + [line] == [line] && [line][1..] == [];
    } else {
      TailOfConcat(lines, [line]);
      AddLinesEnd(With(fields, FieldIn(lines[0])), lines[1..], line);
    }
  }

  function Lookup(fields: map<string, string>, name: string): Option<string> {
    if name in fields then Some(fields[name]) else None
  }

  /** The fields of a message are, for each name, what its last line of that name says. */
  lemma {:induction false} LastLineWins(lines: seq<string>, name: string)
    ensures Lookup(AddLines(map[], lines), name) == LastValue(lines, name)
  {
    if lines != [] {
      var pre, line := lines[..|lines| - 1], lines[|lines| - 1];
      LastLineWins(pre, name);
      AddLinesEnd(map[], pre, line);
      assert pre + [line] == lines;
    }
  }

  /** One line: its field, if it has one, joins the others. */
  method AddField(before: map<string, string>, text: string) returns (fields: map<string, string>)
    ensures fields == With(before, FieldIn(text))
  {
    fields := before;
    var line := text;
    if line != "" && line[|line| - 1] == '\r' {
      line := line[..|line| - 1];
    }
    if line == "" {
      return;
    }
    var colonPos := IndexOf(line, ':');
    if colonPos == |line| {
      return;
    }
    var fieldName := Trim(line[..colonPos]);
    var fieldValue := Trim(line[colonPos + 1..]);
    fields := fields[fieldName := fieldValue];
  }

  /** The fields of a message, read line by line. */
  method ParseFields(message: string) returns (fields: map<string, string>)
    ensures forall name :: Lookup(fields, name) == LastValue(Lines(message), name)
  {
    hide Lines, AddLines, FieldIn, With;
    fields := map[];
    var rest := message;
    while rest != ""
      invariant AddLines(map[], Lines(message)) == AddLines(fields, Lines(rest))
      decreases |rest|
    {
      var i := IndexOf(rest, '\n');
      LinesStep(rest);
      LinesAddStep(fields, rest[..i], Lines(if i == |rest| then "" else rest[i + 1..]));
      fields := AddField(fields, rest[..i]);
      rest := if i == |rest| then "" else rest[i + 1..];
    }
    NoMoreLines(fields);
    forall name ensures Lookup(fields, name) == LastValue(Lines(message), name) {
      LastLineWins(Lines(message), name);
    }
  }

  lemma NoMoreLines(fields: map<string, string>)
    ensures AddLines(fields, Lines("")) == fields
  {
  }

  lemma LinesStep(s: string)
    requires s != ""
    ensures var i := IndexOf(s, '\n');
            Lines(s) == [s[..i]] + Lines(if i == |s| then "" else s[i + 1..])
  {
    hide IndexOf;
    var i := IndexOf(s, '\n');
    if i == |s| {
      assert s[..i] == s && Lines("") == [];
      assert [s] + [] == [s];
    }
  }

  lemma LinesAddStep(fields: map<string, string>, line: string, lines: seq<string>)
    ensures AddLines(fields, [line] + lines) == AddLines(With(fields, FieldIn(line)), lines)
  {
    TailOfConcat([line], lines);
    assert [line][1..] + lines == lines;
  }

  // ---- Commands ----

  function Upper(c: char): char { if 'a' <= c <= 'z' then (c as int - 32) as char else c }

  function Uppercase(s: string): string { seq(|s|, i requires 0 <= i < |s| => Upper(s[i])) }

  /** The command of a name in any letter case. */
  function StringToCommand(s: string): CommandType {
    var upper := Uppercase(s);
    if upper == "ADD" then ADD
    else if upper == "UPDATE" then UPDATE
    else if upper == "GET" then GET
    else if upper == "DELETE" then DELETE
    else INVALID
  }

  predicate NeedsValue(kind: CommandType) { kind == ADD || kind == UPDATE }

  /** The command that a message asks for, in terms of what its lines say last. */
  function Parsed(message: string): Command {
    var lines := Lines(message);
    var (name, key, value) := (LastValue(lines, "Method"), LastValue(lines, "Key"), LastValue(lines, "Value"));
    if name.None? || StringToCommand(name.value) == INVALID || key.None? then Command(INVALID, "", "")
    else if value.Some? then Command(StringToCommand(name.value), key.value, value.value)
    else if NeedsValue(StringToCommand(name.value)) then Command(INVALID, key.value, "")
    else Command(StringToCommand(name.value), key.value, "")
  }

  method ParseMessage(message: string) returns (cmd: Command)
    ensures cmd == Parsed(message)
  {
    hide Lines, LastValue, StringToCommand;
    cmd := Command(INVALID, "", "");
    var fields := ParseFields(message);
    ghost var lines := Lines(message);
    assert Lookup(fields, "Method") == LastValue(lines, "Method");
    assert Lookup(fields, "Key") == LastValue(lines, "Key");
    assert Lookup(fields, "Value") == LastValue(lines, "Value");
    if "Method" !in fields {
      return;
    }
    cmd := cmd.(kind := StringToCommand(fields["Method"]));
    if cmd.kind == INVALID {
      return;
    }
    if "Key" !in fields {
      cmd := cmd.(kind := INVALID);
      return;
    }
    cmd := cmd.(key := fields["Key"]);
    if "Value" in fields {
      cmd := cmd.(value := fields["Value"]);
    } else if cmd.kind == ADD || cmd.kind == UPDATE {
      cmd := cmd.(kind := INVALID);
    }
  }
}
