/** Several connections at once: their reads come in any order, each with its own buffer, on one store. */
module Connections {
  import opened Sequences
  import opened Framing
  import opened Protocol
  import opened RoundTrips
  import opened CacheModel
  import opened Eviction
  import opened Operations
  import opened CacheRuns
  import opened PagedCaches
  import opened TcpServer

  /** One read of one connection. */
  datatype Chunk = Chunk(client: string, bytes: string)

  /** A command as it reached the store, in the order of all of them. */
  datatype Asked = Asked(client: string, cmd: Command)

  /** The store, the leftover buffers, what has been asked and answered so far, and what was sent to each client. */
  datatype System = System(
    store: State, buffers: map<string, string>, log: seq<Asked>, replies: seq<string>, sent: map<string, seq<string>>)

  function BufferOf(s: System, c: string): string { if c in s.buffers then s.buffers[c] else "" }

  function SentTo(s: System, c: string): seq<string> { if c in s.sent then s.sent[c] else [] }

  function AllAsked(cmds: seq<Command>, client: string): (log: seq<Asked>)
    ensures |log| == |cmds|
  {
    if cmds == [] then [] else AllAsked(cmds[..|cmds| - 1], client) + [Asked(client, cmds[|cmds| - 1])]
  }

  /** A read: the connection's complete messages are taken off its buffer and answered, one after the other. */
  ghost function ReadStep(s: System, pageSize: nat, r: Chunk, clock: nat -> int): System
    requires pageSize > 0
  {
    var c := Feed(BufferOf(s, r.client), r.bytes);
    var cmds := ParsedAll(c.messages);
    var done := RespondAll(s.store, pageSize, cmds, r.client, clock, |s.log|);
    System(done.0, s.buffers[r.client := c.rest], s.log + AllAsked(cmds, r.client), s.replies + done.1,
           s.sent[r.client := SentTo(s, r.client) + done.1])
  }

  ghost function ReadAll(s: System, pageSize: nat, chunks: seq<Chunk>, clock: nat -> int): System
    requires pageSize > 0
  {
    if chunks == [] then s
    else ReadStep(ReadAll(s, pageSize, chunks[..|chunks| - 1], clock), pageSize, chunks[|chunks| - 1], clock)
  }

  function Fresh(store: State): System { System(store, map[], [], [], map[]) }

  // ---- What one client sees ----

  /** The reads of client c alone. */
  function OwnBytes(chunks: seq<Chunk>, c: string): seq<string> {
    if chunks == [] then []
    else
      var last := chunks[|chunks| - 1];
      OwnBytes(chunks[..|chunks| - 1], c) + if last.client == c then [last.bytes] else []
  }

  /** The commands of client c alone, in order. */
  function OwnCommands(log: seq<Asked>, c: string): seq<Command> {
    if log == [] then []
    else
      var last := log[|log| - 1];
      OwnCommands(log[..|log| - 1], c) + if last.client == c then [last.cmd] else []
  }

  /** The replies to the commands of client c alone, in order. */
  function OwnReplies(log: seq<Asked>, replies: seq<string>, c: string): seq<string>
    requires |log| == |replies|
  {
    if log == [] then []
    else
      var n := |log| - 1;
      OwnReplies(log[..n], replies[..n], c) + if log[n].client == c then [replies[n]] else []
  }

  lemma {:induction false} OwnOfConcat(a: seq<Asked>, x: seq<string>, b: seq<Asked>, y: seq<string>, c: string)
    requires |a| == |x| && |b| == |y|
    ensures OwnCommands(a + b, c) == OwnCommands(a, c) + OwnCommands(b, c)
    ensures OwnReplies(a + b, x + y, c) == OwnReplies(a, x, c) + OwnReplies(b, y, c)
    decreases |b|
  {
    if b == [] {
      assert a + b == a && x + y == x;
    } else {
      var n := |b| - 1;
      OwnOfConcat(a, x, b[..n], y[..n], c);
      assert (a + b)[..|a + b| - 1] == a + b[..n] && (x + y)[..|a + b| - 1] == x + y[..n];
    }
  }

  lemma {:induction false} OwnOfAsked(cmds: seq<Command>, replies: seq<string>, client: string, c: string)
    requires |cmds| == |replies|
    ensures OwnCommands(AllAsked(cmds, client), c) == if client == c then cmds else []
    ensures OwnReplies(AllAsked(cmds, client), replies, c) == if client == c then replies else []
    decreases |cmds|
  {
    hide AllAsked;
    if cmds == [] {
      NoneAsked(client);
    } else {
      var n := |cmds| - 1;
      OwnOfAsked(cmds[..n], replies[..n], client, c);
      LastAsked(cmds, client);
      assert cmds == cmds[..n] + [cmds[n]] && replies == replies[..n] + [replies[n]];
      if client != c {
        assert OwnCommands(AllAsked(cmds, client), c) == [] + [];
        assert OwnReplies(AllAsked(cmds, client), replies, c) == [] + [];
      }
    }
  }

  lemma NoneAsked(client: string)
    ensures AllAsked([], client) == []
  {
  }

  lemma LastAsked(cmds: seq<Command>, client: string)
    requires cmds != []
    ensures var n, log := |cmds| - 1, AllAsked(cmds, client);
            log[..n] == AllAsked(cmds[..n], client) && log[n] == Asked(client, cmds[n])
  {
  }

  /** What holds of client c after the given reads, whatever the others did in between. */
  ghost predicate Sees(s: System, start: string, own: seq<string>, c: string) {
    && BufferOf(s, c) == FeedAll(start, own).rest
    && OwnCommands(s.log, c) == ParsedAll(FeedAll(start, own).messages)
    && |s.log| == |s.replies| && SentTo(s, c) == OwnReplies(s.log, s.replies, c)
  }

  lemma SeesRead(s: System, pageSize: nat, r: Chunk, clock: nat -> int, start: string, own: seq<string>, c: string)
    requires pageSize > 0 && Sees(s, start, own, c)
    ensures Sees(ReadStep(s, pageSize, r, clock), start, own + if r.client == c then [r.bytes] else [], c)
  {
    hide RespondAll, ParsedAll, FeedAll, Feed, OwnCommands, OwnReplies;
    var f := Feed(BufferOf(s, r.client), r.bytes);
    var cmds := ParsedAll(f.messages);
    var done := RespondAll(s.store, pageSize, cmds, r.client, clock, |s.log|);
    RespondCount(s.store, pageSize, cmds, r.client, clock, |s.log|);
    OwnOfConcat(s.log, s.replies, AllAsked(cmds, r.client), done.1, c);
    OwnOfAsked(cmds, done.1, r.client, c);
    if r.client == c {
      FedMore(start, own + [r.bytes], |own|);
      assert (own + [r.bytes])[..|own|] == own && (own + [r.bytes])[..|own| + 1] == own + [r.bytes];
      ParsedConcat(FeedAll(start, own).messages, f.messages);
    } else {
      assert own + [] == own;
      assert OwnCommands(s.log, c) + [] == OwnCommands(s.log, c);
    }
  }

  /**
   * Connections do not disturb each other's streams: whatever the interleaving of reads, client c's commands are
   * those of its own stream in order, its buffer is its own leftover, and it is sent exactly the replies to its own
   * commands in order.
   */
  lemma {:induction false} OwnStream(store: State, pageSize: nat, chunks: seq<Chunk>, clock: nat -> int, c: string)
    requires pageSize > 0
    ensures Sees(ReadAll(Fresh(store), pageSize, chunks, clock), "", OwnBytes(chunks, c), c)
  {
    hide Sees, ReadStep;
    if chunks == [] {
      NothingSeen(store, c);
    } else {
      var n := |chunks| - 1;
      OwnStream(store, pageSize, chunks[..n], clock, c);
      SeesRead(ReadAll(Fresh(store), pageSize, chunks[..n], clock), pageSize, chunks[n], clock, "", OwnBytes(chunks[..n], c), c);
    }
  }

  lemma NothingSeen(store: State, c: string)
    ensures Sees(Fresh(store), "", [], c)
  {
    FedNothing("");
    NoneParsed();
  }

  // ---- What happens to the store ----

  /** The logged commands answered in order; the clock is read once for each. */
  ghost function Serve(store: State, pageSize: nat, log: seq<Asked>, clock: nat -> int): (State, seq<string>)
    requires pageSize > 0
  {
    if log == [] then (store, [])
    else
      var n := |log| - 1;
      var before := Serve(store, pageSize, log[..n], clock);
      var r := Respond(before.0, pageSize, log[n].cmd, log[n].client, clock(n));
      (r.0, before.1 + [r.1])
  }

  lemma ServeMore(store: State, pageSize: nat, log: seq<Asked>, a: Asked, clock: nat -> int)
    requires pageSize > 0
    ensures var before := Serve(store, pageSize, log, clock);
            var r := Respond(before.0, pageSize, a.cmd, a.client, clock(|log|));
            Serve(store, pageSize, log + [a], clock) == (r.0, before.1 + [r.1])
  {
    hide Respond;
    assert (log + [a])[..|log|] == log;
  }

  /** The commands of one read, after those logged before. */
  lemma {:induction false} ServeRead(
    store: State, pageSize: nat, log: seq<Asked>, cmds: seq<Command>, client: string, clock: nat -> int)
    requires pageSize > 0
    ensures var before := Serve(store, pageSize, log, clock);
            var done := RespondAll(before.0, pageSize, cmds, client, clock, |log|);
            Serve(store, pageSize, log + AllAsked(cmds, client), clock) == (done.0, before.1 + done.1)
    decreases |cmds|
  {
    hide Respond, RespondAll, Serve, AllAsked;
    var before := Serve(store, pageSize, log, clock);
    if cmds == [] {
      NoneAsked(client);
      RespondNone(before.0, pageSize, client, clock, |log|);
      assert log + [] == log && before.1 + [] == before.1 && cmds == [];
    } else {
      var n := |cmds| - 1;
      var pre, last := cmds[..n], cmds[n];
      ServeRead(store, pageSize, log, pre, client, clock);
      LastAsked(cmds, client);
      var asked := AllAsked(pre, client);
      assert AllAsked(cmds, client) == asked + [Asked(client, last)];
      Associative(log, asked, [Asked(client, last)]);
      ServeMore(store, pageSize, log + asked, Asked(client, last), clock);
      RespondMore(before.0, pageSize, pre, last, client, clock, |log|);
      assert pre + [last] == cmds && |log + asked| == |log| + |pre|;
      var done := RespondAll(before.0, pageSize, pre, client, clock, |log|);
      var r := Respond(done.0, pageSize, last, client, clock(|log| + |pre|));
      Associative(before.1, done.1, [r.1]);
    }
  }

  /** The interleaved reads drive the store through the logged commands, one at a time. */
  lemma {:induction false} StoreServes(store: State, pageSize: nat, chunks: seq<Chunk>, clock: nat -> int)
    requires pageSize > 0
    ensures var s := ReadAll(Fresh(store), pageSize, chunks, clock);
            (s.store, s.replies) == Serve(store, pageSize, s.log, clock)
  {
    hide RespondAll, Serve, ParsedAll, AllAsked;
    if chunks == [] {
      NothingServed(store, pageSize, clock);
    } else {
      var n := |chunks| - 1;
      StoreServes(store, pageSize, chunks[..n], clock);
      var s, r := ReadAll(Fresh(store), pageSize, chunks[..n], clock), chunks[n];
      ServeRead(store, pageSize, s.log, ParsedAll(Feed(BufferOf(s, r.client), r.bytes).messages), r.client, clock);
    }
  }

  lemma NothingServed(store: State, pageSize: nat, clock: nat -> int)
    requires pageSize > 0
    ensures Serve(store, pageSize, [], clock) == (store, [])
  {
  }

  /** Whatever the commands, the store keeps its invariant. */
  lemma {:induction false} ServeKeepsInv(store: State, pageSize: nat, log: seq<Asked>, clock: nat -> int)
    requires pageSize > 0 && Inv(store)
    ensures Inv(Serve(store, pageSize, log, clock).0)
  {
    hide Inv, Step, Text, FormatResponse;
    if log != [] {
      var n := |log| - 1;
      ServeKeepsInv(store, pageSize, log[..n], clock);
      var before, a := Serve(store, pageSize, log[..n], clock).0, log[n];
      if a.cmd.kind != INVALID {
        StepKeepsInv(before, pageSize, OpOf(a.cmd, a.client, clock(n)));
      }
    }
  }

  // ---- The run behind it ----

  /** The operations of the logged commands; invalid ones are none. */
  function OpsIn(log: seq<Asked>, clock: nat -> int): seq<Op> {
    if log == [] then []
    else
      var n := |log| - 1;
      OpsIn(log[..n], clock)
      + if log[n].cmd.kind == INVALID then [] else [OpOf(log[n].cmd, log[n].client, clock(n))]
  }

  function Extended(r: Run, ops: seq<Op>): Run { Run(r.size, r.pageSize, r.ops + ops) }

  /** More operations at the end change nothing about the states and replies before. */
  lemma {:induction false} SameStart(r: Run, ops: seq<Op>, i: nat)
    requires r.Proper() && i <= |r.ops|
    ensures Extended(r, ops).At(i) == r.At(i)
    ensures i < |r.ops| ==> Extended(r, ops).ReplyTo(i) == r.ReplyTo(i)
  {
    hide Step;
    if i > 0 { SameStart(r, ops, i - 1); }
  }

  lemma RunMoreOps(r: Run, ops: seq<Op>, op: Op)
    requires r.Proper()
    ensures var e, f, n := Extended(r, ops), Extended(r, ops + [op]), |r.ops| + |ops|;
            && f == Extended(e, [op]) && |e.ops| == n && f.At(n) == e.At(n)
            && f.At(n + 1) == Step(e.At(n), r.pageSize, op).0 && f.ReplyTo(n) == Step(e.At(n), r.pageSize, op).1
  {
    hide Step;
    Associative(r.ops, ops, [op]);
    SameStart(Extended(r, ops), [op], |r.ops| + |ops|);
  }

  /** A valid command of the log has its operation in its place among the operations. */
  lemma {:induction false} OpsPrefix(log: seq<Asked>, clock: nat -> int, i: nat)
    requires i < |log| && log[i].cmd.kind != INVALID
    ensures var at := |OpsIn(log[..i], clock)|;
            at < |OpsIn(log, clock)| && OpsIn(log, clock)[at] == OpOf(log[i].cmd, log[i].client, clock(i))
  {
    var n := |log| - 1;
    if i < n {
      OpsPrefix(log[..n], clock, i);
      assert log[..n][..i] == log[..i];
    }
  }

  /** The reply to logged command i, as the run gives it. */
  ghost function ReplyIn(r: Run, log: seq<Asked>, clock: nat -> int, i: nat): string
    requires r.Proper() && i < |log|
  {
    if log[i].cmd.kind == INVALID then FormatResponse(InvalidCommand)
    else
      OpsPrefix(log, clock, i);
      var at := |r.ops| + |OpsIn(log[..i], clock)|;
      FormatResponse(Text(log[i].cmd.kind, Extended(r, OpsIn(log, clock)).ReplyTo(at)))
  }

  /** Replies do not change as the log grows. */
  lemma SameReply(r: Run, log: seq<Asked>, a: Asked, clock: nat -> int, i: nat)
    requires r.Proper() && i < |log|
    ensures ReplyIn(r, log + [a], clock, i) == ReplyIn(r, log, clock, i)
  {
    hide Step, Text, FormatResponse, Run.ReplyTo, OpOf;
    var more := log + [a];
    assert more[..|log|] == log && more[..i] == log[..i] && more[i] == log[i];
    if log[i].cmd.kind != INVALID {
      OpsPrefix(log, clock, i);
      var ops := OpsIn(log, clock);
      if a.cmd.kind == INVALID {
        assert OpsIn(more, clock) == ops;
      } else {
        var op := OpOf(a.cmd, a.client, clock(|log|));
        assert OpsIn(more, clock) == ops + [op];
        RunMoreOps(r, ops, op);
        SameStart(Extended(r, ops), [op], |r.ops| + |OpsIn(log[..i], clock)|);
      }
    }
  }

  /** The logged commands, from any point of any run on, are the operations of one longer run, with its replies. */
  lemma {:induction false} LogIsRun(r: Run, log: seq<Asked>, clock: nat -> int)
    requires r.Proper()
    ensures var e, done := Extended(r, OpsIn(log, clock)), Serve(r.At(|r.ops|), r.pageSize, log, clock);
            && done.0 == e.At(|e.ops|) && |done.1| == |log|
            && forall i :: 0 <= i < |log| ==> done.1[i] == ReplyIn(r, log, clock, i)
  {
    hide Step, Text, FormatResponse, Respond, Serve, ReplyIn, Run.At, Run.ReplyTo, OpOf;
    if log == [] {
      NothingServed(r.At(|r.ops|), r.pageSize, clock);
      SameStart(r, [], |r.ops|);
      assert r.ops + [] == r.ops;
    } else {
      var n := |log| - 1;
      var pre, a := log[..n], log[n];
      LogIsRun(r, pre, clock);
      assert pre + [a] == log;
      ServeMore(r.At(|r.ops|), r.pageSize, pre, a, clock);
      forall i | 0 <= i < n ensures ReplyIn(r, log, clock, i) == ReplyIn(r, pre, clock, i) {
        SameReply(r, pre, a, clock, i);
      }
      LastReply(r, pre, a, clock);
    }
  }

  lemma LastReply(r: Run, pre: seq<Asked>, a: Asked, clock: nat -> int)
    requires r.Proper()
    ensures var e, f := Extended(r, OpsIn(pre, clock)), Extended(r, OpsIn(pre + [a], clock));
            Respond(e.At(|e.ops|), r.pageSize, a.cmd, a.client, clock(|pre|))
            == (f.At(|f.ops|), ReplyIn(r, pre + [a], clock, |pre|))
  {
    hide Step, Text, FormatResponse, Run.At, Run.ReplyTo, OpOf, OpsIn;
    OpsMore(pre, a, clock);
    if a.cmd.kind != INVALID {
      LastValidReply(r, pre, a, clock);
    }
  }

  lemma OpsMore(pre: seq<Asked>, a: Asked, clock: nat -> int)
    ensures (pre + [a])[..|pre|] == pre && (pre + [a])[|pre|] == a
    ensures OpsIn(pre + [a], clock)
         == OpsIn(pre, clock) + if a.cmd.kind == INVALID then [] else [OpOf(a.cmd, a.client, clock(|pre|))]
    ensures OpsIn(pre, clock) + [] == OpsIn(pre, clock)
  {
    hide OpOf;
    assert (pre + [a])[..|pre|] == pre;
  }

  lemma LastValidReply(r: Run, pre: seq<Asked>, a: Asked, clock: nat -> int)
    requires r.Proper() && a.cmd.kind != INVALID
    ensures var e, f := Extended(r, OpsIn(pre, clock)), Extended(r, OpsIn(pre + [a], clock));
            Respond(e.At(|e.ops|), r.pageSize, a.cmd, a.client, clock(|pre|))
            == (f.At(|f.ops|), ReplyIn(r, pre + [a], clock, |pre|))
  {
    hide Step, Text, FormatResponse, Run.At, Run.ReplyTo, OpOf, OpsIn, Respond;
    var e, op := Extended(r, OpsIn(pre, clock)), OpOf(a.cmd, a.client, clock(|pre|));
    OpsMore(pre, a, clock);
    RunMoreOps(r, OpsIn(pre, clock), op);
    RespondIsStep(e.At(|e.ops|), r.pageSize, a.cmd, a.client, clock(|pre|));
    OpsPrefix(pre + [a], clock, |pre|);
  }

  /**
   * Any interleaving of the reads of any connections, from any point of any run of the store on, drives the store
   * through one longer run whose operations are the connections' commands, interleaved: each connection's are those
   * of its own stream in order, and it is sent exactly their replies in that run.
   */
  lemma InterleavedSessions(r: Run, chunks: seq<Chunk>, clock: nat -> int, c: string)
    requires r.Proper()
    ensures var s := ReadAll(Fresh(r.At(|r.ops|)), r.pageSize, chunks, clock);
            var e, own := Extended(r, OpsIn(s.log, clock)), FeedAll("", OwnBytes(chunks, c));
            && s.store == e.At(|e.ops|) && Inv(s.store)
            && |s.replies| == |s.log| && (forall i :: 0 <= i < |s.log| ==> s.replies[i] == ReplyIn(r, s.log, clock, i))
            && OwnCommands(s.log, c) == ParsedAll(own.messages) && BufferOf(s, c) == own.rest
            && SentTo(s, c) == OwnReplies(s.log, s.replies, c)
  {
    hide Step, Serve, ReadAll, ReplyIn, ParsedAll, FeedAll, Inv, Run.At;
    var s := ReadAll(Fresh(r.At(|r.ops|)), r.pageSize, chunks, clock);
    StoreServes(r.At(|r.ops|), r.pageSize, chunks, clock);
    OwnStream(r.At(|r.ops|), r.pageSize, chunks, clock, c);
    LogIsRun(r, s.log, clock);
    var e := Extended(r, OpsIn(s.log, clock));
    RunInv(e, |e.ops|);
  }

  /** A client that pipelines commands is served exactly those, whatever the other connections send in between. */
  lemma PipelineAmongOthers(r: Run, chunks: seq<Chunk>, clock: nat -> int, c: string, cmds: seq<Command>)
    requires r.Proper() && (forall x :: x in cmds ==> Sendable(x))
    requires Joined(OwnBytes(chunks, c)) == Joined(Messages(cmds))
    ensures var s := ReadAll(Fresh(r.At(|r.ops|)), r.pageSize, chunks, clock);
            OwnCommands(s.log, c) == cmds && BufferOf(s, c) == "" && |SentTo(s, c)| == |cmds|
  {
    hide Serve, ReadAll, ReplyIn, ParsedAll, FeedAll, Inv, Sendable, Messages, Run.At;
    InterleavedSessions(r, chunks, clock, c);
    Pipeline(cmds, OwnBytes(chunks, c));
    var s := ReadAll(Fresh(r.At(|r.ops|)), r.pageSize, chunks, clock);
    SameLength(s.log, s.replies, c);
  }

  lemma {:induction false} SameLength(log: seq<Asked>, replies: seq<string>, c: string)
    requires |log| == |replies|
    ensures |OwnReplies(log, replies, c)| == |OwnCommands(log, c)|
  {
    if log != [] { SameLength(log[..|log| - 1], replies[..|log| - 1], c); }
  }

  // ---- What a client can rely on, by commands and replies alone ----

  /** Command i was answered as a successful add or update of key k. */
  predicate Stored(log: seq<Asked>, replies: seq<string>, i: nat, k: string)
    requires i < |log| <= |replies|
  {
    log[i].cmd.key == k
    && ((log[i].cmd.kind == ADD && replies[i] == "OK: Key added successfully.\r\n")
        || (log[i].cmd.kind == UPDATE && replies[i] == "OK: Key updated successfully.\r\n"))
  }

  /** Command i was answered as a successful delete of key k. */
  predicate Removed(log: seq<Asked>, replies: seq<string>, i: nat, k: string)
    requires i < |log| <= |replies|
  {
    log[i].cmd.key == k && log[i].cmd.kind == DELETE && replies[i] == "OK: Key deleted successfully.\r\n"
  }

  /** Before command n, this client's command i was the last answered as storing key k, and no delete has followed. */
  ghost predicate StoredLast(log: seq<Asked>, replies: seq<string>, n: nat, i: nat, k: string, client: string, value: string)
    requires n <= |log| <= |replies|
  {
    && i < n && Stored(log, replies, i, k) && log[i].client == client && log[i].cmd.value == value
    && forall m :: i < m < n ==> !Stored(log, replies, m, k) && !Removed(log, replies, m, k)
  }

  /** Every entry is what some command was answered as having stored last. */
  ghost predicate Backed(s: State, log: seq<Asked>, replies: seq<string>, n: nat)
    requires n <= |log| <= |replies|
  {
    forall k :: k in s.entries ==>
      exists i: nat :: StoredLast(log, replies, n, i, k, s.entries[k].client, s.entries[k].value)
  }

  /** A reply tells whether the command stored or removed its key; every other entry kept its data. */
  lemma ReplyTells(s: State, pageSize: nat, a: Asked, now: int)
    requires pageSize > 0 && Inv(s)
    ensures var (t, text) := Respond(s, pageSize, a.cmd, a.client, now);
            var stored := Stored([a], [text], 0, a.cmd.key);
            && (stored ==> a.cmd.key in t.entries && t.entries[a.cmd.key].value == a.cmd.value
                           && t.entries[a.cmd.key].client == a.client)
            && (forall k :: k in t.entries && !(stored && k == a.cmd.key) ==>
                  k in s.entries && SameData(s.entries[k], t.entries[k]))
            && (Removed([a], [text], 0, a.cmd.key) ==> a.cmd.key !in t.entries)
  {
    hide Step, Inv, HeldByOthers, Fits;
    ResponseBytes(s, pageSize, a.cmd, a.client, now);
    if a.cmd.kind != INVALID {
      var op := OpOf(a.cmd, a.client, now);
      StepEffect(s, pageSize, op);
      RespondIsStep(s, pageSize, a.cmd, a.client, now);
      SuccessText(a.cmd.kind, Step(s, pageSize, op).1);
    }
  }

  /** A command that stores or deletes has its success text exactly when it has succeeded. */
  lemma SuccessText(kind: CommandType, reply: Reply)
    ensures kind == ADD ==>
              (FormatResponse(Text(kind, reply)) == "OK: Key added successfully.\r\n" <==> reply.outcome == Success)
    ensures kind == UPDATE ==>
              (FormatResponse(Text(kind, reply)) == "OK: Key updated successfully.\r\n" <==> reply.outcome == Success)
    ensures kind == DELETE ==>
              (FormatResponse(Text(kind, reply)) == "OK: Key deleted successfully.\r\n" <==> reply.outcome == Success)
  {
    var text := Text(kind, reply);
    assert FormatResponse(text)[0] == text[0];
    assert reply.outcome != Success ==> text[0] == 'E';
  }

  lemma OneMoreBacked(s: State, t: State, log: seq<Asked>, replies: seq<string>, a: Asked, text: string)
    requires |log| == |replies| && Backed(s, log, replies, |log|)
    requires var stored := Stored([a], [text], 0, a.cmd.key);
             && (stored ==> a.cmd.key in t.entries && t.entries[a.cmd.key].value == a.cmd.value
                            && t.entries[a.cmd.key].client == a.client)
             && (forall k :: k in t.entries && !(stored && k == a.cmd.key) ==>
                   k in s.entries && SameData(s.entries[k], t.entries[k]))
             && (Removed([a], [text], 0, a.cmd.key) ==> a.cmd.key !in t.entries)
    ensures Backed(t, log + [a], replies + [text], |log| + 1)
  {
    var n, after, more, texts := |log|, |log| + 1, log + [a], replies + [text];
    forall k | k in t.entries
      ensures exists i: nat :: StoredLast(more, texts, after, i, k, t.entries[k].client, t.entries[k].value)
    {
      if Stored([a], [text], 0, k) {
        assert StoredLast(more, texts, after, n, k, t.entries[k].client, t.entries[k].value);
      } else {
        var i: nat :| StoredLast(log, replies, n, i, k, s.entries[k].client, s.entries[k].value);
        StillLast(log, replies, a, text, i, k, s.entries[k].client, s.entries[k].value);
      }
    }
  }

  lemma StillLast(
    log: seq<Asked>, replies: seq<string>, a: Asked, text: string, i: nat, k: string, client: string, value: string)
    requires |log| == |replies| && StoredLast(log, replies, |log|, i, k, client, value)
    requires !Stored([a], [text], 0, k) && !Removed([a], [text], 0, k)
    ensures StoredLast(log + [a], replies + [text], |log| + 1, i, k, client, value)
  {
    var n, more, texts := |log|, log + [a], replies + [text];
    forall m | i < m < n + 1 ensures !Stored(more, texts, m, k) && !Removed(more, texts, m, k) {
      assert m < n ==> !Stored(log, replies, m, k) && !Removed(log, replies, m, k);
    }
  }

  /** From an empty store, every entry is backed by the commands and the replies to them. */
  lemma {:induction false} AlwaysBacked(size: nat, pageSize: nat, log: seq<Asked>, clock: nat -> int)
    requires pageSize > 0
    ensures var done := Serve(Empty(size), pageSize, log, clock);
            |done.1| == |log| && Inv(done.0) && Backed(done.0, log, done.1, |log|)
  {
    hide Inv, Respond, Backed, Stored, Removed;
    if log == [] {
      EmptyInv(size);
      NothingBacked(size);
    } else {
      var n := |log| - 1;
      var before := Serve(Empty(size), pageSize, log[..n], clock);
      AlwaysBacked(size, pageSize, log[..n], clock);
      EmptyInv(size);
      ServeKeepsInv(Empty(size), pageSize, log, clock);
      ReplyTells(before.0, pageSize, log[n], clock(n));
      var r := Respond(before.0, pageSize, log[n].cmd, log[n].client, clock(n));
      OneMoreBacked(before.0, r.0, log[..n], before.1, log[n], r.1);
      assert log[..n] + [log[n]] == log;
    }
  }

  lemma NothingBacked(size: nat)
    ensures Backed(Empty(size), [], [], 0)
  {
  }

  lemma {:induction false} ServePrefix(store: State, pageSize: nat, log: seq<Asked>, clock: nat -> int, j: nat)
    requires pageSize > 0 && j < |log|
    ensures var before, all := Serve(store, pageSize, log[..j], clock), Serve(store, pageSize, log, clock);
            && |all.1| == |log| && |before.1| == j && all.1[..j] == before.1
            && all.1[j] == Respond(before.0, pageSize, log[j].cmd, log[j].client, clock(j)).1
  {
    hide Respond;
    var n := |log| - 1;
    ServeLength(store, pageSize, log, clock);
    ServeLength(store, pageSize, log[..j], clock);
    ServeLength(store, pageSize, log[..n], clock);
    if j < n {
      ServePrefix(store, pageSize, log[..n], clock, j);
      assert log[..n][..j] == log[..j];
    }
  }

  lemma {:induction false} ServeLength(store: State, pageSize: nat, log: seq<Asked>, clock: nat -> int)
    requires pageSize > 0
    ensures |Serve(store, pageSize, log, clock).1| == |log|
  {
    hide Respond;
    if log != [] { ServeLength(store, pageSize, log[..|log| - 1], clock); }
  }

  /**
   * Whatever any clients ask of a fresh store, a GET that is answered with a value is answered with the value of the
   * last command that was answered as storing its key; that command came from the same client, and no command has
   * been answered as deleting the key since. All of it in terms of commands and bytes of replies.
   */
  lemma AnsweredWithLatest(size: nat, pageSize: nat, log: seq<Asked>, clock: nat -> int, j: nat, v: string)
    requires pageSize > 0 && j < |log| && log[j].cmd.kind == GET
    ensures |Serve(Empty(size), pageSize, log, clock).1| == |log|
    ensures var replies := Serve(Empty(size), pageSize, log, clock).1;
            replies[j] == "OK: Value=" + v + "\r\n" ==>
              exists i: nat :: StoredLast(log, replies, j, i, log[j].cmd.key, log[j].client, v)
  {
    hide Inv, Respond, Serve, Stored, Removed;
    var a, before, replies := log[j], Serve(Empty(size), pageSize, log[..j], clock), Serve(Empty(size), pageSize, log, clock).1;
    AlwaysBacked(size, pageSize, log[..j], clock);
    ServePrefix(Empty(size), pageSize, log, clock, j);
    ResponseBytes(before.0, pageSize, a.cmd, a.client, clock(j));
    if replies[j] == "OK: Value=" + v + "\r\n" {
      assert replies[j][0] == 'O';
      var e := before.0.entries[a.cmd.key];
      ValuesShow(v, e.value);
      var i: nat :| StoredLast(log[..j], before.1, j, i, a.cmd.key, e.client, e.value);
      LongerLog(log, replies, j, i, a.cmd.key, a.client, v);
    }
  }

  lemma LongerLog(log: seq<Asked>, replies: seq<string>, j: nat, i: nat, k: string, client: string, value: string)
    requires j <= |log| == |replies| && StoredLast(log[..j], replies[..j], j, i, k, client, value)
    ensures StoredLast(log, replies, j, i, k, client, value)
  {
    forall m | i < m < j ensures !Stored(log, replies, m, k) && !Removed(log, replies, m, k) {
      assert !Stored(log[..j], replies[..j], m, k) && !Removed(log[..j], replies[..j], m, k);
    }
  }

  // ---- The same on the heap ----

  /** Each connection is filed under its client's id and is no part of the store. */
  ghost predicate Connected(server: TCPServer, clients: map<string, ClientConnection>)
    reads server.cache, server.cache.allocator.Repr(), server.cache.allocator, server.cache.cacheMap.Values
  {
    forall c :: c in clients ==> clients[c].clientId == c && clients[c] !in server.cache.Repr()
  }

  /** The buffers of all connections are those of the system. */
  ghost predicate BuffersOf(clients: map<string, ClientConnection>, s: System)
    reads clients.Values
  {
    forall c :: c in clients ==> clients[c].buffer == BufferOf(s, c)
  }

  lemma ReadMore(s: System, pageSize: nat, chunks: seq<Chunk>, clock: nat -> int, i: nat)
    requires pageSize > 0 && i < |chunks|
    ensures ReadAll(s, pageSize, chunks[..i + 1], clock) == ReadStep(ReadAll(s, pageSize, chunks[..i], clock), pageSize, chunks[i], clock)
  {
    hide ReadStep;
    assert chunks[..i + 1][..i] == chunks[..i];
  }

  /** Reads of several connections in any order, each handled for its own connection. */
  method HandleReads(server: TCPServer, clients: map<string, ClientConnection>, chunks: seq<Chunk>, clock: nat -> int)
    returns (replies: seq<string>)
    requires server.cache.Valid() && Connected(server, clients)
    requires (forall c :: c in clients ==> clients[c].buffer == "") && forall i :: 0 <= i < |chunks| ==> chunks[i].client in clients
    modifies server.cache.Repr(), clients.Values
    ensures server.cache.Valid() && Connected(server, clients)
    ensures var s := ReadAll(Fresh(old(server.cache.Model())), server.cache.pageSize, chunks, clock);
            server.cache.Model() == s.store && replies == s.replies && BuffersOf(clients, s)
  {
    hide PagedCache.Valid, PagedCache.Model, RespondAll, ReadStep, ReadAll, ParsedAll, Feed, BuffersOf, Connected;
    server.PageSizePositive();
    replies := [];
    EmptyBuffers(clients, server.cache.Model());
    ghost var start := Fresh(server.cache.Model());
    ghost var s := start;
    NoReads(start, server.cache.pageSize, chunks, clock);
    var i: nat := 0;
    while i < |chunks|
      invariant i <= |chunks| && server.cache.Valid() && Connected(server, clients)
      invariant fresh(server.cache.Repr() - old(server.cache.Repr()))
      invariant s == ReadAll(start, server.cache.pageSize, chunks[..i], clock)
      invariant server.cache.Model() == s.store && replies == s.replies && |s.log| == |replies| && BuffersOf(clients, s)
      decreases |chunks| - i
    {
      var r := chunks[i];
      ReadMore(start, server.cache.pageSize, chunks, clock, i);
      var more := HandleOne(server, clients, r, s, clock, |replies|);
      replies := replies + more;
      s := ReadStep(s, server.cache.pageSize, r, clock);
      i := i + 1;
    }
    assert chunks[..i] == chunks;
  }

  method HandleOne(server: TCPServer, clients: map<string, ClientConnection>, r: Chunk, ghost s: System, clock: nat -> int, tick: nat)
    returns (more: seq<string>)
    requires server.cache.Valid() && Connected(server, clients) && r.client in clients
    requires server.cache.Model() == s.store && BuffersOf(clients, s) && |s.log| == tick
    modifies server.cache.Repr(), clients.Values
    ensures server.cache.Valid() && Connected(server, clients)
    ensures fresh(server.cache.Repr() - old(server.cache.Repr()))
    ensures var t := ReadStep(s, server.cache.pageSize, r, clock);
            server.cache.Model() == t.store && s.replies + more == t.replies && BuffersOf(clients, t) && |t.log| == tick + |more|
  {
    hide PagedCache.Valid, PagedCache.Model, RespondAll, ReadStep, ParsedAll, Feed;
    server.PageSizePositive();
    StepParts(s, server.cache.pageSize, r, clock);
    more := server.HandleRead(clients[r.client], r.bytes, clock, tick);
  }

  lemma EmptyBuffers(clients: map<string, ClientConnection>, store: State)
    requires forall c :: c in clients ==> clients[c].buffer == ""
    ensures BuffersOf(clients, Fresh(store))
  {
  }

  /** What one read makes of each part of the system. */
  lemma StepParts(s: System, pageSize: nat, r: Chunk, clock: nat -> int)
    requires pageSize > 0
    ensures var t, c := ReadStep(s, pageSize, r, clock), Feed(BufferOf(s, r.client), r.bytes);
            var done := RespondAll(s.store, pageSize, ParsedAll(c.messages), r.client, clock, |s.log|);
            && t.store == done.0 && t.replies == s.replies + done.1 && |t.log| == |s.log| + |done.1|
            && BufferOf(t, r.client) == c.rest && forall k :: k != r.client ==> BufferOf(t, k) == BufferOf(s, k)
  {
    hide RespondAll, ParsedAll, Feed;
    var c := Feed(BufferOf(s, r.client), r.bytes);
    RespondCount(s.store, pageSize, ParsedAll(c.messages), r.client, clock, |s.log|);
  }

  lemma NoReads(s: System, pageSize: nat, chunks: seq<Chunk>, clock: nat -> int)
    requires pageSize > 0
    ensures ReadAll(s, pageSize, chunks[..0], clock) == s
  {
    assert chunks[..0] == [];
  }
}
