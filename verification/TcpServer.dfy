/** The cache server: from the bytes of a connection to operations on the store and responses. */
module TcpServer {
  import opened Sequences
  import opened Framing
  import opened Protocol
  import opened RoundTrips
  import opened CacheModel
  import opened Eviction
  import opened OutOfSpace
  import opened Operations
  import opened CacheRuns
  import opened PagedCaches

  // ---- Responses ----

  function FormatResponse(response: string): string { response + "\r\n" }

  const InvalidCommand: string := "ERROR: Invalid command format."
  const KeyExistsText: string := "ERROR: Key already exists."
  const NotFound: string := "ERROR: Key not found."
  const AccessDenied: string := "ERROR: Access denied to key."
  const NotEnoughSpace: string := "ERROR: Not enough contiguous space."

  function OkValue(value: string): string { "OK: Value=" + value }

  /** The text for the outcome of a command; outcomes that a command cannot have read as an invalid command. */
  function Text(kind: CommandType, reply: Reply): string {
    match kind
    case ADD => (
      match reply.outcome
      case Success => "OK: Key added successfully."
      case KeyExists => KeyExistsText
      case NoSpace => NotEnoughSpace
      case _ => InvalidCommand)
    case UPDATE => (
      match reply.outcome
      case Success => "OK: Key updated successfully."
      case KeyNotFound => NotFound
      case ClientMismatch => AccessDenied
      case NoSpace => NotEnoughSpace
      case _ => InvalidCommand)
    case GET => (
      match reply.outcome
      case Success => OkValue(if reply.value.Some? then reply.value.value else "")
      case KeyNotFound => NotFound
      case ClientMismatch => AccessDenied
      case _ => InvalidCommand)
    case DELETE => (
      match reply.outcome
      case Success => "OK: Key deleted successfully."
      case KeyNotFound => NotFound
      case ClientMismatch => AccessDenied
      case _ => InvalidCommand)
    case INVALID => InvalidCommand
  }

  function OpOf(cmd: Command, client: string, now: int): Op
    requires cmd.kind != INVALID
  {
    match cmd.kind
    case ADD => Add(cmd.key, cmd.value, client, now)
    case UPDATE => Update(cmd.key, cmd.value, client, now)
    case GET => Get(cmd.key, client, now)
    case DELETE => Delete(cmd.key, client)
  }

  /** A command is one step of the store; an invalid one leaves it alone. */
  ghost function Respond(s: State, pageSize: nat, cmd: Command, client: string, now: int): (State, string)
    requires pageSize > 0
  {
    if cmd.kind == INVALID then (s, FormatResponse(InvalidCommand))
    else
      var (t, reply) := Step(s, pageSize, OpOf(cmd, client, now));
      (t, FormatResponse(Text(cmd.kind, reply)))
  }

  /**
   * Every response, byte for byte, for every state and command: what is answered says exactly what is the case in
   * the store, and an invalid command leaves the store alone.
   */
  lemma ResponseBytes(s: State, pageSize: nat, cmd: Command, client: string, now: int)
    requires pageSize > 0 && Inv(s)
    ensures var (t, text) := Respond(s, pageSize, cmd, client, now);
            var here := cmd.key in s.entries;
            var own := here && s.entries[cmd.key].client == client;
            var room := |s.free| + |HeldByOthers(s, client)|;
            && (cmd.kind == INVALID ==> t == s && text == "ERROR: Invalid command format.\r\n")
            && (cmd.kind == ADD ==>
                  text == if here then "ERROR: Key already exists.\r\n"
                          else if cmd.value != "" && Fits(cmd.value, room, pageSize) then "OK: Key added successfully.\r\n"
                          else "ERROR: Not enough contiguous space.\r\n")
            && (cmd.kind == UPDATE ==>
                  text == if !here then "ERROR: Key not found.\r\n"
                          else if !own then "ERROR: Access denied to key.\r\n"
                          else if Fits(cmd.value, room + s.entries[cmd.key].total, pageSize) then
                            "OK: Key updated successfully.\r\n"
                          else "ERROR: Not enough contiguous space.\r\n")
            && (cmd.kind == GET ==>
                  text == if !here then "ERROR: Key not found.\r\n"
                          else if !own then "ERROR: Access denied to key.\r\n"
                          else "OK: Value=" + s.entries[cmd.key].value + "\r\n")
            && (cmd.kind == DELETE ==>
                  text == if !here then "ERROR: Key not found.\r\n"
                          else if !own then "ERROR: Access denied to key.\r\n"
                          else "OK: Key deleted successfully.\r\n")
  {
    hide AddKey, UpdateKey, GetKey, DeleteKey, Inv, Fits, HeldByOthers;
    var k, v := cmd.key, cmd.value;
    match cmd.kind
    case INVALID =>
    case ADD =>
      RefusedChangesNothing(s, pageSize, k, v, client, now);
      if k !in s.entries { AddKeyExact(s, pageSize, k, v, client, now); }
    case UPDATE =>
      RefusedChangesNothing(s, pageSize, k, v, client, now);
      if k in s.entries && s.entries[k].client == client { UpdateOutcome(s, pageSize, k, v, client, now); }
    case GET => GetExact(s, k, client, now);
    case DELETE => DeleteExact(s, k, client);
  }

  lemma UpdateOutcome(s: State, pageSize: nat, k: string, v: string, client: string, now: int)
    requires pageSize > 0 && Inv(s) && k in s.entries && s.entries[k].client == client
    ensures var r := UpdateKey(s, pageSize, k, v, client, now).1;
            && (r == Success || r == NoSpace)
            && (r == Success <==> Fits(v, |s.free| + |HeldByOthers(s, client)| + s.entries[k].total, pageSize))
  {
    hide UpdateKey, Inv, HeldByOthers, OnlyGone, Used;
    if Fits(v, s.entries[k].total, pageSize) {
      UpdateInPlaceExact(s, pageSize, k, v, client, now);
      TimesMonotone(s.entries[k].total, |s.free| + |HeldByOthers(s, client)| + s.entries[k].total, pageSize);
    } else {
      UpdateGrowingExact(s, pageSize, k, v, client, now);
    }
  }

  /** A command that stored or returned a value has made its key the most recently used, at the time of the command. */
  lemma CommandUses(s: State, pageSize: nat, cmd: Command, client: string, now: int)
    requires pageSize > 0 && Inv(s)
    ensures var (t, text) := Respond(s, pageSize, cmd, client, now);
            cmd.kind != DELETE && text[0] == 'O' ==>
              cmd.key in t.entries && t.entries[cmd.key].access == now && t.lru != [] && t.lru[0] == cmd.key
  {
    hide AddKey, UpdateKey, GetKey, DeleteKey, Inv, Fits, HeldByOthers;
    var k, v := cmd.key, cmd.value;
    match cmd.kind
    case INVALID =>
    case ADD =>
      RefusedChangesNothing(s, pageSize, k, v, client, now);
      if k !in s.entries { AddKeyExact(s, pageSize, k, v, client, now); }
    case UPDATE =>
      RefusedChangesNothing(s, pageSize, k, v, client, now);
      if k in s.entries && s.entries[k].client == client {
        if Fits(v, s.entries[k].total, pageSize) {
          UpdateInPlaceExact(s, pageSize, k, v, client, now);
        } else {
          UpdateGrowingExact(s, pageSize, k, v, client, now);
        }
      }
    case GET => GetExact(s, k, client, now);
    case DELETE =>
  }

  /** Replies with different values are different replies. */
  lemma ValuesShow(v: string, w: string)
    ensures "OK: Value=" + v + "\r\n" == "OK: Value=" + w + "\r\n" <==> v == w
  {
    var a, b := "OK: Value=" + v + "\r\n", "OK: Value=" + w + "\r\n";
    assert a[10..|a| - 2] == v && b[10..|b| - 2] == w;
  }

  /** Commands of one client in order; the clock is read once for each, from reading number tick on. */
  ghost function RespondAll(s: State, pageSize: nat, cmds: seq<Command>, client: string, clock: nat -> int, tick: nat)
    : (State, seq<string>)
    requires pageSize > 0
  {
    if cmds == [] then (s, [])
    else
      var last := |cmds| - 1;
      var before := RespondAll(s, pageSize, cmds[..last], client, clock, tick);
      var r := Respond(before.0, pageSize, cmds[last], client, clock(tick + last));
      (r.0, before.1 + [r.1])
  }

  lemma RespondMore(s: State, pageSize: nat, cmds: seq<Command>, cmd: Command, client: string, clock: nat -> int, tick: nat)
    requires pageSize > 0
    ensures var before := RespondAll(s, pageSize, cmds, client, clock, tick);
            var r := Respond(before.0, pageSize, cmd, client, clock(tick + |cmds|));
            RespondAll(s, pageSize, cmds + [cmd], client, clock, tick) == (r.0, before.1 + [r.1])
  {
    hide Respond;
    assert (cmds + [cmd])[..|cmds|] == cmds;
  }

  lemma RespondNone(s: State, pageSize: nat, client: string, clock: nat -> int, tick: nat)
    requires pageSize > 0
    ensures RespondAll(s, pageSize, [], client, clock, tick) == (s, [])
  {
  }

  /** Answering in two stretches is answering at once. */
  lemma {:induction false} RespondConcat(
    s: State, pageSize: nat, a: seq<Command>, b: seq<Command>, client: string, clock: nat -> int, tick: nat)
    requires pageSize > 0
    ensures var first := RespondAll(s, pageSize, a, client, clock, tick);
            var second := RespondAll(first.0, pageSize, b, client, clock, tick + |a|);
            RespondAll(s, pageSize, a + b, client, clock, tick) == (second.0, first.1 + second.1)
    decreases |b|
  {
    hide Respond, RespondAll;
    RespondNone(s, pageSize, client, clock, tick);
    var first := RespondAll(s, pageSize, a, client, clock, tick);
    RespondNone(first.0, pageSize, client, clock, tick + |a|);
    if b == [] {
      assert a + b == a && b == [] && first.1 + [] == first.1;
    } else {
      var pre, last := b[..|b| - 1], b[|b| - 1];
      RespondConcat(s, pageSize, a, pre, client, clock, tick);
      RespondMore(s, pageSize, a + pre, last, client, clock, tick);
      RespondMore(first.0, pageSize, pre, last, client, clock, tick + |a|);
      assert a + b == a + pre + [last] && b == pre + [last];
      assert tick + |a + pre| == tick + |a| + |pre|;
      var second := RespondAll(first.0, pageSize, pre, client, clock, tick + |a|);
      var r := Respond(second.0, pageSize, last, client, clock(tick + |a| + |pre|));
      Associative(first.1, second.1, [r.1]);
    }
  }

  lemma {:induction false} RespondCount(s: State, pageSize: nat, cmds: seq<Command>, client: string, clock: nat -> int, tick: nat)
    requires pageSize > 0
    ensures |RespondAll(s, pageSize, cmds, client, clock, tick).1| == |cmds|
  {
    hide Respond;
    if cmds != [] {
      RespondCount(s, pageSize, cmds[..|cmds| - 1], client, clock, tick);
    }
  }

  lemma {:induction false} ParsedConcat(a: seq<string>, b: seq<string>)
    ensures ParsedAll(a + b) == ParsedAll(a) + ParsedAll(b) && |ParsedAll(a)| == |a|
    decreases |a|
  {
    if a == [] {
      assert a + b == b;
    } else {
      TailOfConcat(a, b);
      ParsedConcat(a[1..], b);
    }
  }

  lemma ParsedMore(ms: seq<string>, m: string)
    ensures ParsedAll(ms + [m]) == ParsedAll(ms) + [Parsed(m)] && |ParsedAll(ms)| == |ms|
  {
    hide Parsed;
    ParsedConcat(ms, [m]);
    assert [m][1..] == [];
    assert ParsedAll([m]) == [Parsed(m)];
  }

  class ClientConnection {
    const clientId: string
    var buffer: string

    constructor (id: string)
      ensures clientId == id && buffer == ""
    {
      clientId, buffer := id, "";
    }
  }

  class TCPServer {
    const cache: PagedCache

    constructor (totalPages: nat, pageSize: nat)
      requires totalPages > 0 && pageSize > 0
      ensures cache.Valid() && fresh(cache.Repr()) && cache.pageSize == pageSize
      ensures cache.Model() == Empty(totalPages)
    {
      cache := new PagedCache(totalPages, pageSize);
    }

    method ProcessCommand(cmd: Command, clientId: string, now: int) returns (response: string)
      requires cache.Valid()
      modifies cache.Repr()
      ensures cache.Valid() && fresh(cache.Repr() - old(cache.Repr()))
      ensures (cache.Model(), response) == Respond(old(cache.Model()), cache.pageSize, cmd, clientId, now)
    {
      hide PagedCache.Valid, PagedCache.Model, AddKey, UpdateKey, GetKey, DeleteKey;
      match cmd.kind {
        case ADD =>
          var r := cache.AddKey(cmd.key, cmd.value, clientId, now);
          response := FormatResponse(Text(ADD, Reply(r, None)));
        case UPDATE =>
          var r := cache.UpdateKey(cmd.key, cmd.value, clientId, now);
          response := FormatResponse(Text(UPDATE, Reply(r, None)));
        case GET =>
          var r, value := cache.GetKey(cmd.key, clientId, now);
          response := FormatResponse(Text(GET, Reply(r, value)));
        case DELETE =>
          var r := cache.DeleteKey(cmd.key, clientId);
          response := FormatResponse(Text(DELETE, Reply(r, None)));
        case INVALID =>
          response := FormatResponse(InvalidCommand);
      }
    }

    /** Takes the first n bytes off the buffer and parses them. */
    method TakeCommand(client: ClientConnection, n: nat) returns (cmd: Command)
      requires cache.Valid() && client !in cache.Repr() && n <= |client.buffer|
      modifies client`buffer
      ensures cache.Valid() && cache.Repr() == old(cache.Repr()) && cache.Model() == old(cache.Model())
      ensures cmd == Parsed(old(client.buffer[..n])) && client.buffer == old(client.buffer[n..])
    {
      hide Parsed, Inv;
      var message := client.buffer[..n];
      client.buffer := client.buffer[n..];
      cmd := ParseMessage(message);
    }

    /** Takes a message of n bytes off the buffer, parses it and answers it. */
    method HandleMessage(client: ClientConnection, n: nat, now: int) returns (response: string)
      requires cache.Valid() && client !in cache.Repr() && n <= |client.buffer|
      modifies cache.Repr(), client`buffer
      ensures cache.Valid() && fresh(cache.Repr() - old(cache.Repr())) && client !in cache.Repr()
      ensures client.buffer == old(client.buffer[n..])
      ensures (cache.Model(), response)
           == Respond(old(cache.Model()), cache.pageSize, Parsed(old(client.buffer[..n])), client.clientId, now)
    {
      hide PagedCache.Valid, PagedCache.Model, Respond, Parsed;
      PageSizePositive();
      var cmd := TakeCommand(client, n);
      response := ProcessCommand(cmd, client.clientId, now);
    }

    /** Takes the complete messages off the buffer, one by one, parses and answers them. */
    method HandleMessages(client: ClientConnection, clock: nat -> int, tick: nat) returns (responses: seq<string>)
      requires cache.Valid() && client !in cache.Repr()
      modifies cache.Repr(), client`buffer
      ensures cache.Valid() && fresh(cache.Repr() - old(cache.Repr())) && client !in cache.Repr()
      ensures client.buffer == Split(old(client.buffer)).rest
      ensures var cmds := ParsedAll(Split(old(client.buffer)).messages);
              (cache.Model(), responses) == RespondAll(old(cache.Model()), cache.pageSize, cmds, client.clientId, clock, tick)
    {
      hide PagedCache.Valid, PagedCache.Model, Respond, RespondAll, Split, Parsed, ParsedAll;
      PageSizePositive();
      responses := [];
      ghost var done: seq<string> := [];
      ghost var s, stream := cache.Model(), client.buffer;
      NoneParsed();
      RespondNone(s, cache.pageSize, client.clientId, clock, tick);
      var msgEnd := FindEnd(client.buffer);
      SplitStep(client.buffer);
      while msgEnd >= 0
        invariant cache.Valid() && fresh(cache.Repr() - old(cache.Repr())) && client !in cache.Repr()
        invariant msgEnd == FindEnd(client.buffer)
        invariant Split(stream).messages == done + Split(client.buffer).messages
        invariant Split(stream).rest == Split(client.buffer).rest
        invariant |ParsedAll(done)| == |done| == |responses|
        invariant (cache.Model(), responses)
               == RespondAll(s, cache.pageSize, ParsedAll(done), client.clientId, clock, tick)
        decreases |client.buffer|
      {
        SplitStep(client.buffer);
        ghost var message := client.buffer[..msgEnd + 4];
        var response := HandleMessage(client, msgEnd + 4, clock(tick + |responses|));
        RespondMore(s, cache.pageSize, ParsedAll(done), Parsed(message), client.clientId, clock, tick);
        ParsedMore(done, message);
        Associative(done, [message], Split(client.buffer).messages);
        responses := responses + [response];
        done := done + [message];
        msgEnd := FindEnd(client.buffer);
      }
      SplitStep(client.buffer);
      assert done + [] == done;
    }

    /** One read: its bytes, up to the first NUL, join the buffer, and the complete messages are answered. */
    method HandleRead(client: ClientConnection, read: string, clock: nat -> int, tick: nat) returns (responses: seq<string>)
      requires cache.Valid() && client !in cache.Repr()
      modifies cache.Repr(), client`buffer
      ensures cache.Valid() && fresh(cache.Repr() - old(cache.Repr())) && client !in cache.Repr()
      ensures client.buffer == Feed(old(client.buffer), read).rest
      ensures var cmds := ParsedAll(Feed(old(client.buffer), read).messages);
              (cache.Model(), responses) == RespondAll(old(cache.Model()), cache.pageSize, cmds, client.clientId, clock, tick)
    {
      hide Inv, RespondAll, ParsedAll, Split;
      client.buffer := client.buffer + CString(read);
      responses := HandleMessages(client, clock, tick);
    }

    /** All reads that are ready, one after the other. */
    method HandleClientData(client: ClientConnection, chunks: seq<string>, clock: nat -> int) returns (responses: seq<string>)
      requires cache.Valid() && client !in cache.Repr()
      modifies cache.Repr(), client`buffer
      ensures cache.Valid() && fresh(cache.Repr() - old(cache.Repr())) && client !in cache.Repr()
      ensures client.buffer == FeedAll(old(client.buffer), chunks).rest
      ensures var cmds := ParsedAll(FeedAll(old(client.buffer), chunks).messages);
              (cache.Model(), responses) == RespondAll(old(cache.Model()), cache.pageSize, cmds, client.clientId, clock, 0)
    {
      hide PagedCache.Valid, PagedCache.Model, RespondAll, ParsedAll, FeedAll, Feed;
      PageSizePositive();
      responses := [];
      ghost var s, b, cmds := cache.Model(), client.buffer, [];
      NoneParsed();
      RespondNone(s, cache.pageSize, client.clientId, clock, 0);
      FedNothing(b);
      var i: nat := 0;
      while i < |chunks|
        invariant i <= |chunks| && cache.Valid() && fresh(cache.Repr() - old(cache.Repr())) && client !in cache.Repr()
        invariant client.buffer == FeedAll(b, chunks[..i]).rest
        invariant cmds == ParsedAll(FeedAll(b, chunks[..i]).messages) && |responses| == |cmds|
        invariant (cache.Model(), responses) == RespondAll(s, cache.pageSize, cmds, client.clientId, clock, 0)
      {
        ghost var fed, t := Feed(client.buffer, chunks[i]).messages, cache.Model();
        var more := HandleRead(client, chunks[i], clock, |responses|);
        FedMore(b, chunks, i);
        ParsedConcat(FeedAll(b, chunks[..i]).messages, fed);
        RespondConcat(s, cache.pageSize, cmds, ParsedAll(fed), client.clientId, clock, 0);
        RespondCount(t, cache.pageSize, ParsedAll(fed), client.clientId, clock, |responses|);
        cmds := cmds + ParsedAll(fed);
        responses := responses + more;
        i := i + 1;
      }
      assert chunks[..i] == chunks;
    }

    lemma PageSizePositive()
      requires cache.Valid()
      ensures cache.pageSize > 0
    {
    }
  }

  lemma NoneParsed()
    ensures ParsedAll([]) == []
  {
  }

  lemma SplitStep(s: string)
    ensures var i := FindEnd(s);
            Split(s) == if i < 0 then Cut([], s)
                        else Cut([s[..i + 4]] + Split(s[i + 4..]).messages, Split(s[i + 4..]).rest)
  {
  }

  lemma FedNothing(buffer: string)
    ensures FeedAll(buffer, []) == Cut([], buffer)
  {
  }

  lemma FedMore(buffer: string, chunks: seq<string>, i: nat)
    requires i < |chunks|
    ensures chunks[..0] == []
    ensures var c := Feed(FeedAll(buffer, chunks[..i]).rest, chunks[i]);
            FeedAll(buffer, chunks[..i + 1]) == Cut(FeedAll(buffer, chunks[..i]).messages + c.messages, c.rest)
  {
    assert chunks[..i + 1][..i] == chunks[..i];
  }

  // ---- Sessions ----

  function OpsOf(cmds: seq<Command>, client: string, clock: nat -> int): (ops: seq<Op>)
    requires forall c :: c in cmds ==> c.kind != INVALID
  {
    seq(|cmds|, i requires 0 <= i < |cmds| => OpOf(cmds[i], client, clock(i)))
  }

  lemma OpsAt(cmds: seq<Command>, client: string, clock: nat -> int, i: nat)
    requires i < |cmds| && forall c :: c in cmds ==> c.kind != INVALID
    ensures |OpsOf(cmds, client, clock)| == |cmds|
    ensures cmds[i] in cmds && OpsOf(cmds, client, clock)[i] == OpOf(cmds[i], client, clock(i))
  {
  }

  lemma RunStep(r: Run, i: nat)
    requires r.Proper() && i < |r.ops|
    ensures r.At(0) == Empty(r.size)
    ensures r.At(i + 1) == Step(r.At(i), r.pageSize, r.ops[i]).0 && r.ReplyTo(i) == Step(r.At(i), r.pageSize, r.ops[i]).1
  {
    hide Step;
  }

  lemma RespondIsStep(s: State, pageSize: nat, cmd: Command, client: string, now: int)
    requires pageSize > 0 && cmd.kind != INVALID
    ensures var next := Step(s, pageSize, OpOf(cmd, client, now));
            Respond(s, pageSize, cmd, client, now) == (next.0, FormatResponse(Text(cmd.kind, next.1)))
  {
    hide Step, Text;
  }

  /** Answering valid commands from an empty store is the run of their operations, with its replies as text. */
  lemma {:induction false} SessionIsRun(
    size: nat, pageSize: nat, cmds: seq<Command>, client: string, clock: nat -> int, i: nat)
    requires pageSize > 0 && i <= |cmds| && forall c :: c in cmds ==> c.kind != INVALID
    ensures var r := Run(size, pageSize, OpsOf(cmds, client, clock));
            var done := RespondAll(Empty(size), pageSize, cmds[..i], client, clock, 0);
            && done.0 == r.At(i) && |done.1| == i
            && forall j :: 0 <= j < i ==> done.1[j] == FormatResponse(Text(cmds[j].kind, r.ReplyTo(j)))
  {
    hide Step, Text, FormatResponse, Respond, RespondAll, OpsOf, OpOf, Run.ReplyTo;
    var r := Run(size, pageSize, OpsOf(cmds, client, clock));
    if i == 0 {
      RespondNone(Empty(size), pageSize, client, clock, 0);
      assert cmds[..0] == [];
    } else {
      var cmd := cmds[i - 1];
      SessionIsRun(size, pageSize, cmds, client, clock, i - 1);
      RespondMore(Empty(size), pageSize, cmds[..i - 1], cmd, client, clock, 0);
      assert cmds[..i] == cmds[..i - 1] + [cmd];
      OpsAt(cmds, client, clock, i - 1);
      RunStep(r, i - 1);
      RespondIsStep(r.At(i - 1), pageSize, cmd, client, clock(i - 1));
    }
  }

  /**
   * A client that pipelines commands to a fresh server, with the stream cut into reads anywhere, drives the store
   * through exactly the run of its commands, and the responses are those of the run, in order.
   */
  lemma PipelinedSession(
    size: nat, pageSize: nat, cmds: seq<Command>, chunks: seq<string>, client: string, clock: nat -> int)
    requires pageSize > 0 && (forall c :: c in cmds ==> Sendable(c)) && Joined(chunks) == Joined(Messages(cmds))
    ensures forall c :: c in cmds ==> c.kind != INVALID
    ensures var r := Run(size, pageSize, OpsOf(cmds, client, clock));
            var fed := FeedAll("", chunks);
            var done := RespondAll(Empty(size), pageSize, ParsedAll(fed.messages), client, clock, 0);
            && fed.rest == "" && done.0 == r.At(|cmds|) && |done.1| == |cmds|
            && forall j :: 0 <= j < |cmds| ==> done.1[j] == FormatResponse(Text(cmds[j].kind, r.ReplyTo(j)))
  {
    hide Clean, Text, FormatResponse, RespondAll, FeedAll, ParsedAll;
    Pipeline(cmds, chunks);
    assert cmds[..|cmds|] == cmds;
    SessionIsRun(size, pageSize, cmds, client, clock, |cmds|);
  }

  /** In such a session a GET is answered with a value only if the latest write of the key in it gave that value. */
  lemma SessionGet(
    size: nat, pageSize: nat, cmds: seq<Command>, client: string, clock: nat -> int, j: nat)
    requires pageSize > 0 && (forall c :: c in cmds ==> c.kind != INVALID) && j < |cmds| && cmds[j].kind == GET
    ensures var r := Run(size, pageSize, OpsOf(cmds, client, clock));
            r.ReplyTo(j).outcome == Success ==>
            exists v :: r.LatestWrite(j, cmds[j].key, client, v)
                        && FormatResponse(Text(GET, r.ReplyTo(j))) == "OK: Value=" + v + "\r\n"
  {
    hide Step, OpsOf, Run.At, Run.ReplyTo, Run.LatestWrite;
    var r := Run(size, pageSize, OpsOf(cmds, client, clock));
    OpsAt(cmds, client, clock, j);
    if r.ReplyTo(j).outcome == Success {
      GetReturnsLatestWrite(r, j);
      assert FormatResponse(Text(GET, r.ReplyTo(j))) == "OK: Value=" + r.ReplyTo(j).value.value + "\r\n";
    }
  }
}
