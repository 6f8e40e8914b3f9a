/** Which messages are commands, and which commands they are: for every message, character by character. */
module Parsing {
  import opened Sequences
  import opened Framing
  import opened Protocol
  import opened RoundTrips

  // ---- Lines ----

  function Unlines(lines: seq<string>): string {
    if lines == [] then "" else lines[0] + "\n" + Unlines(lines[1..])
  }

  /** The lines of a text have no newline and make up the text; only a newline at its very end may be missing. */
  lemma {:induction false} LinesExact(s: string)
    ensures forall l :: l in Lines(s) ==> '\n' !in l
    ensures Unlines(Lines(s)) == if s == "" || s[|s| - 1] == '\n' then s else s + "\n"
    decreases |s|
  {
    LinesAreLines(s);
    hide Lines, Unlines, IndexOf;
    if s == "" {
      NothingToJoin();
    } else {
      LinesStep(s);
      var i := IndexOf(s, '\n');
      var rest := if i == |s| then "" else s[i + 1..];
      LinesExact(rest);
      UnlinesMore(s[..i], Lines(rest));
      LineAndRest(s, i, rest, Unlines(Lines(rest)));
    }
  }

  lemma NothingToJoin()
    ensures Lines("") == [] && Unlines([]) == ""
  {
  }

  lemma LineAndRest(s: string, i: nat, rest: string, joined: string)
    requires s != "" && i <= |s| && '\n' !in s[..i] && rest == (if i == |s| then "" else s[i + 1..])
    requires i < |s| ==> s[i] == '\n'
    requires joined == if rest == "" || rest[|rest| - 1] == '\n' then rest else rest + "\n"
    ensures s[..i] + "\n" + joined == if s[|s| - 1] == '\n' then s else s + "\n"
  {
    if i == |s| {
      assert s[..i] == s && s[|s| - 1] in s[..i];
      assert s + "\n" + "" == s + "\n";
    } else {
      assert s == s[..i] + "\n" + rest;
      Associative(s[..i] + "\n", rest, "\n");
    }
  }

  lemma UnlinesMore(line: string, lines: seq<string>)
    ensures Unlines([line] + lines) == line + "\n" + Unlines(lines)
  {
    assert ([line] + lines)[1..] == lines;
  }

  // ---- Trimming ----

  lemma {:induction false} BlanksInFront(a: string, s: string)
    requires Blanks(a)
    ensures TrimLeft(a + s) == TrimLeft(s)
  {
    if a == "" {
      assert a + s == s;
    } else {
      assert a[0] in a;
      TailOfConcat(a, s);
      assert forall c :: c in a[1..] ==> c in a;
      BlanksInFront(a[1..], s);
    }
  }

  lemma {:induction false} BlanksBehind(s: string, b: string)
    requires Blanks(b)
    ensures TrimRight(s + b) == TrimRight(s)
    decreases |b|
  {
    if b == "" {
      assert s + b == s;
    } else {
      var n := |b| - 1;
      assert b[n] in b;
      assert (s + b)[..|s + b| - 1] == s + b[..n] && (s + b)[|s + b| - 1] == b[n];
      assert forall c :: c in b[..n] ==> c in b;
      BlanksBehind(s, b[..n]);
    }
  }

  /** A text without blanks at its ends is what trimming leaves of it with any blanks around it, and nothing else is. */
  lemma TrimUnique(t: string, s: string)
    ensures Trimmed(t) && Padded(t, s) <==> t == Trim(s)
  {
    TrimExact(s);
    if Trimmed(t) && Padded(t, s) {
      var a: string, b: string :| Blanks(a) && Blanks(b) && s == a + t + b;
      Associative(a, t, b);
      BlanksInFront(a, t + b);
      if t == "" {
        assert t + b == b + "" && b + "" == b;
        BlanksInFront(b, "");
      } else {
        assert (t + b)[0] == t[0];
        BlanksBehind(t, b);
      }
    }
  }

  // ---- Fields ----

  /** l is the line without the carriage return at its end, if it has one. */
  predicate Bare(line: string, l: string) {
    line == l + "\r" || (line == l && (l == "" || l[|l| - 1] != '\r'))
  }

  /** The line has a colon; the name is what stands before the first one and the value what stands after, trimmed. */
  ghost predicate Gives(line: string, name: string, value: string) {
    exists l: string, p: string, q: string ::
      && Bare(line, l) && l == p + ":" + q && ':' !in p
      && Trimmed(name) && Padded(name, p) && Trimmed(value) && Padded(value, q)
  }

  lemma BareUnique(line: string, l: string)
    ensures Bare(line, l) <==> l == WithoutReturn(line)
  {
    if line == l + "\r" { assert line[..|line| - 1] == l; }
    if line != "" && line[|line| - 1] == '\r' { assert line == line[..|line| - 1] + "\r"; }
  }

  lemma GivesExact(line: string, name: string, value: string)
    ensures Gives(line, name, value) <==> FieldIn(line) == Some((name, value))
  {
    hide Bare, Padded, Trimmed, Trim, WithoutReturn;
    var bare := WithoutReturn(line);
    var i := IndexOf(bare, ':');
    BareUnique(line, bare);
    if i < |bare| {
      var p, q := bare[..i], bare[i + 1..];
      assert bare == p + ":" + q;
      TrimUnique(name, p);
      TrimUnique(value, q);
    }
    if Gives(line, name, value) {
      var l: string, p: string, q: string :|
        && Bare(line, l) && l == p + ":" + q && ':' !in p
        && Trimmed(name) && Padded(name, p) && Trimmed(value) && Padded(value, q);
      BareUnique(line, l);
      IndexAt(l, ':', |p|);
      assert l[..|p|] == p && l[|p| + 1..] == q;
    }
  }

  // ---- What a message says last ----

  /** The last line that gives a field of this name gives it this value. */
  ghost predicate LastSays(lines: seq<string>, name: string, value: string) {
    exists i :: 0 <= i < |lines| && Gives(lines[i], name, value) && NoneAfter(lines, i, name)
  }

  ghost predicate NoneAfter(lines: seq<string>, i: int, name: string) {
    forall j, w :: i < j < |lines| && j >= 0 ==> !Gives(lines[j], name, w)
  }

  lemma {:induction false} LastSaysExact(lines: seq<string>, name: string, value: string)
    ensures LastSays(lines, name, value) <==> LastValue(lines, name) == Some(value)
  {
    hide Gives, FieldIn;
    if lines != [] {
      var n := |lines| - 1;
      var pre, f := lines[..n], FieldIn(lines[n]);
      LastSaysExact(pre, name, value);
      forall w ensures Gives(lines[n], name, w) <==> f == Some((name, w)) { GivesExact(lines[n], name, w); }
      if f.Some? && f.value.0 == name {
        LastLineSays(lines, lines[n], name, value, f.value.1);
      } else {
        EarlierLineSays(lines, lines[n], name, value);
      }
    }
  }

  lemma LastLineSays(lines: seq<string>, last: string, name: string, value: string, v: string)
    requires lines != [] && last == lines[|lines| - 1] && forall w :: Gives(last, name, w) <==> w == v
    ensures LastSays(lines, name, value) <==> value == v
  {
    hide Gives;
    var n := |lines| - 1;
    assert Gives(lines[n], name, v) && NoneAfter(lines, n, name);
  }

  lemma EarlierLineSays(lines: seq<string>, last: string, name: string, value: string)
    requires lines != [] && last == lines[|lines| - 1] && forall w :: !Gives(last, name, w)
    ensures LastSays(lines, name, value) <==> LastSays(lines[..|lines| - 1], name, value)
  {
    hide Gives;
    var n := |lines| - 1;
    var pre := lines[..n];
    forall i | 0 <= i < n ensures NoneAfter(lines, i, name) <==> NoneAfter(pre, i, name) {
      assert forall j :: 0 <= j < n ==> pre[j] == lines[j];
      if NoneAfter(lines, i, name) {
        forall j, w | i < j < n && j >= 0 ensures !Gives(pre[j], name, w) { assert !Gives(lines[j], name, w); }
      }
      if NoneAfter(pre, i, name) {
        forall j, w | i < j < |lines| && j >= 0 ensures !Gives(lines[j], name, w) {
          assert j < n ==> !Gives(pre[j], name, w);
        }
      }
    }
    if i :| 0 <= i < n && Gives(pre[i], name, value) && NoneAfter(pre, i, name) {
      assert Gives(lines[i], name, value) && NoneAfter(lines, i, name);
    }
    if i :| 0 <= i < |lines| && Gives(lines[i], name, value) && NoneAfter(lines, i, name) {
      assert i < n && Gives(pre[i], name, value);
    }
  }

  // ---- Commands ----

  /** The same letters, each as in the capital name or the small one 32 places on. */
  predicate SameButCase(s: string, name: string) {
    |s| == |name| && forall i :: 0 <= i < |s| ==> s[i] == name[i] || s[i] as int == name[i] as int + 32
  }

  lemma UpperIs(s: string, name: string)
    requires forall i :: 0 <= i < |name| ==> 'A' <= name[i] <= 'Z'
    ensures Uppercase(s) == name <==> SameButCase(s, name)
  {
    if Uppercase(s) == name {
      forall i | 0 <= i < |s| ensures s[i] == name[i] || s[i] as int == name[i] as int + 32 {
        assert Uppercase(s)[i] == Upper(s[i]);
      }
    }
    if SameButCase(s, name) {
      forall i | 0 <= i < |s| ensures Upper(s[i]) == name[i] { }
    }
  }

  /** Exactly the four names, in any mixture of capitals and small letters, are commands. */
  lemma CommandNames(s: string)
    ensures StringToCommand(s) == ADD <==> SameButCase(s, "ADD")
    ensures StringToCommand(s) == UPDATE <==> SameButCase(s, "UPDATE")
    ensures StringToCommand(s) == GET <==> SameButCase(s, "GET")
    ensures StringToCommand(s) == DELETE <==> SameButCase(s, "DELETE")
  {
    hide SameButCase, Uppercase;
    UpperIs(s, "ADD");
    UpperIs(s, "UPDATE");
    UpperIs(s, "GET");
    UpperIs(s, "DELETE");
  }

  predicate Names(s: string, kind: CommandType) {
    match kind
    case ADD => SameButCase(s, "ADD")
    case UPDATE => SameButCase(s, "UPDATE")
    case GET => SameButCase(s, "GET")
    case DELETE => SameButCase(s, "DELETE")
    case INVALID => false
  }

  /**
   * For every message: it is a command of a kind exactly if its last Method line names that kind, in whatever letter
   * case, it has a Key line, and, for an add or an update, a Value line. The key and the value are then those of the
   * last such lines; without a Value line the value is empty.
   */
  lemma MessageIsCommand(message: string, kind: CommandType)
    requires kind != INVALID
    ensures var lines, cmd := Lines(message), Parsed(message);
            && (cmd.kind == kind <==>
                  && (exists m :: LastSays(lines, "Method", m) && Names(m, kind))
                  && (exists k :: LastSays(lines, "Key", k))
                  && (kind == ADD || kind == UPDATE ==> exists v :: LastSays(lines, "Value", v)))
            && (cmd.kind == kind ==>
                  && LastSays(lines, "Key", cmd.key)
                  && (LastSays(lines, "Value", cmd.value)
                      || (cmd.value == "" && forall v :: !LastSays(lines, "Value", v))))
  {
    hide LastSays, LastValue, Lines, StringToCommand, SameButCase;
    var lines := Lines(message);
    SaysOrNot(lines, "Method");
    SaysOrNot(lines, "Key");
    SaysOrNot(lines, "Value");
    forall m ensures Names(m, kind) <==> StringToCommand(m) == kind {
      CommandNames(m);
    }
  }

  lemma SaysOrNot(lines: seq<string>, name: string)
    ensures LastValue(lines, name).Some? ==> LastSays(lines, name, LastValue(lines, name).value)
    ensures forall v :: LastSays(lines, name, v) ==> LastValue(lines, name) == Some(v)
  {
    hide LastSays, LastValue;
    forall v ensures LastSays(lines, name, v) <==> LastValue(lines, name) == Some(v) {
      LastSaysExact(lines, name, v);
    }
  }
}
