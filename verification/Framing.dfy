/** Cutting the byte stream of a connection into messages. */
module Framing {
  import opened Sequences

  /** What ends a message. */
  const Terminator: string := "\r\n\r\n"

  predicate EndsAt(s: string, i: nat) { i + 4 <= |s| && s[i..i + 4] == Terminator }

  /** The position of the first terminator, or -1. */
  function FindEnd(s: string): (i: int)
    ensures i == -1 || 0 <= i <= |s| - 4
  {
    if |s| < 4 then -1
    else if s[..4] == Terminator then 0
    else
      var i := FindEnd(s[1..]);
      if i < 0 then -1 else i + 1
  }

  lemma {:induction false} FindEndExact(s: string)
    ensures FindEnd(s) >= 0 ==> EndsAt(s, FindEnd(s))
    ensures forall j: nat :: EndsAt(s, j) ==> 0 <= FindEnd(s) <= j
  {
    if |s| >= 4 {
      FindEndExact(s[1..]);
      EndsShift(s);
      assert s[..4] == s[0..4];
      forall j: nat | EndsAt(s, j) ensures 0 <= FindEnd(s) <= j {
        if j > 0 { assert EndsAt(s[1..], j - 1); }
      }
    }
  }

  lemma EndsShift(s: string)
    requires |s| >= 1
    ensures forall j: nat :: EndsAt(s, j + 1) <==> EndsAt(s[1..], j)
  {
    forall j: nat ensures EndsAt(s, j + 1) <==> EndsAt(s[1..], j) {
      if j + 5 <= |s| { assert s[1..][j..j + 4] == s[j + 1..j + 5]; }
    }
  }

  datatype Cut = Cut(messages: seq<string>, rest: string)

  /** All complete messages at the front of s, terminators included, and what is left over. */
  function Split(s: string): Cut
    decreases |s|
  {
    var i := FindEnd(s);
    if i < 0 then Cut([], s)
    else
      var c := Split(s[i + 4..]);
      Cut([s[..i + 4]] + c.messages, c.rest)
  }

  // ---- What a cut is ----

  function Joined(messages: seq<string>): string {
    if messages == [] then "" else messages[0] + Joined(messages[1..])
  }

  /** A message ends with the terminator and has no other. */
  ghost predicate OneMessage(m: string) {
    |m| >= 4 && EndsAt(m, |m| - 4) && forall j: nat :: EndsAt(m, j) ==> j == |m| - 4
  }

  ghost predicate NoEnd(s: string) { forall j: nat :: !EndsAt(s, j) }

  ghost predicate IsCut(c: Cut, s: string) {
    && s == Joined(c.messages) + c.rest
    && (forall m :: m in c.messages ==> OneMessage(m))
    && NoEnd(c.rest)
  }

  lemma EndsWithin(s: string, n: nat, j: nat)
    requires n <= |s|
    ensures EndsAt(s[..n], j) <==> EndsAt(s, j) && j + 4 <= n
  {
    if j + 4 <= n { assert s[..n][j..j + 4] == s[j..j + 4]; }
  }

  lemma FirstIsMessage(s: string)
    requires FindEnd(s) >= 0
    ensures OneMessage(s[..FindEnd(s) + 4])
  {
    FindEndExact(s);
    var n := FindEnd(s) + 4;
    forall j: nat ensures EndsAt(s[..n], j) <==> EndsAt(s, j) && j + 4 <= n { EndsWithin(s, n, j); }
  }

  lemma {:induction false} SplitIsCut(s: string)
    ensures IsCut(Split(s), s)
    decreases |s|
  {
    var i := FindEnd(s);
    FindEndExact(s);
    if i < 0 {
      assert Joined([]) + s == s;
    } else {
      var c := Split(s[i + 4..]);
      SplitIsCut(s[i + 4..]);
      FirstIsMessage(s);
      assert ([s[..i + 4]] + c.messages)[1..] == c.messages;
      assert s == s[..i + 4] + s[i + 4..];
      Associative(s[..i + 4], Joined(c.messages), c.rest);
    }
  }

  /** A message in front is what the first terminator marks. */
  lemma MessageInFront(m: string, t: string)
    requires OneMessage(m)
    ensures FindEnd(m + t) == |m| - 4
  {
    FindEndExact(m + t);
    assert (m + t)[..|m|] == m;
    forall j: nat ensures EndsAt(m, j) <==> EndsAt(m + t, j) && j + 4 <= |m| { EndsWithin(m + t, |m|, j); }
  }

  lemma LongEnough(m: string)
    requires OneMessage(m)
    ensures |m| >= 4
  {
  }

  lemma NothingToCut(s: string)
    requires NoEnd(s)
    ensures FindEnd(s) == -1
  {
    FindEndExact(s);
  }

  /** There is only one way to cut a stream: Split is the cut. */
  lemma {:induction false} CutUnique(c: Cut, s: string)
    requires IsCut(c, s)
    ensures c == Split(s)
    decreases |c.messages|
  {
    hide OneMessage, NoEnd, FindEnd;
    if c.messages == [] {
      assert s == c.rest;
      NothingToCut(s);
    } else {
      var m, d := c.messages[0], Cut(c.messages[1..], c.rest);
      var t := Joined(d.messages) + d.rest;
      assert s == m + t by { Associative(m, Joined(d.messages), d.rest); }
      MessageInFront(m, t);
      assert s[|m|..] == t && s[..|m|] == m;
      assert |m| >= 4 by { LongEnough(m); }
      assert forall x :: x in d.messages ==> x in c.messages;
      CutUnique(d, t);
      assert c.messages == [m] + d.messages;
    }
  }

  lemma {:induction false} JoinedConcat(a: seq<string>, b: seq<string>)
    ensures Joined(a + b) == Joined(a) + Joined(b)
  {
    if a == [] {
      assert a + b == b;
    } else {
      TailOfConcat(a, b);
      JoinedConcat(a[1..], b);
      Associative(a[0], Joined(a[1..]), Joined(b));
    }
  }

  /** More bytes after a cut: the messages stay, and the rest is cut together with the new bytes. */
  lemma SplitMore(a: string, b: string)
    ensures Split(a + b).messages == Split(a).messages + Split(Split(a).rest + b).messages
    ensures Split(a + b).rest == Split(Split(a).rest + b).rest
  {
    var c := Split(a);
    var d := Split(c.rest + b);
    SplitIsCut(a);
    SplitIsCut(c.rest + b);
    var e := Cut(c.messages + d.messages, d.rest);
    JoinedConcat(c.messages, d.messages);
    Associative(Joined(c.messages), c.rest, b);
    Associative(Joined(c.messages), Joined(d.messages), d.rest);
    assert IsCut(e, a + b);
    CutUnique(e, a + b);
  }

  // ---- Reads ----

  /** A read is copied as a C string: it ends at its first NUL. */
  function CString(chunk: string): (r: string)
    ensures r <= chunk && '\0' !in r
    ensures r == chunk <==> '\0' !in chunk
    ensures |r| < |chunk| ==> chunk[|r|] == '\0'
  {
    if chunk == "" || chunk[0] == '\0' then "" else [chunk[0]] + CString(chunk[1..])
  }

  /** One read: the bytes join the leftover buffer, and every complete message is taken off its front. */
  function Feed(buffer: string, chunk: string): Cut { Split(buffer + CString(chunk)) }

  /** Reads one after the other, from a leftover buffer on: the messages in order, and the buffer in the end. */
  function FeedAll(buffer: string, chunks: seq<string>): Cut {
    if chunks == [] then Cut([], buffer)
    else
      var before := FeedAll(buffer, chunks[..|chunks| - 1]);
      var c := Feed(before.rest, chunks[|chunks| - 1]);
      Cut(before.messages + c.messages, c.rest)
  }

  function CStrings(chunks: seq<string>): seq<string> {
    if chunks == [] then [] else CStrings(chunks[..|chunks| - 1]) + [CString(chunks[|chunks| - 1])]
  }

  lemma JoinedEnd(chunks: seq<string>, c: string)
    ensures Joined(chunks + [c]) == Joined(chunks) + c
  {
    JoinedConcat(chunks, [c]);
    assert Joined([c]) == c + Joined([]);
  }

  /** However the bytes arrive, the messages are those of the whole stream of copied bytes. */
  lemma {:induction false} FedIsSplit(buffer: string, chunks: seq<string>)
    requires NoEnd(buffer)
    ensures FeedAll(buffer, chunks) == Split(buffer + Joined(CStrings(chunks)))
  {
    if chunks == [] {
      assert buffer + Joined([]) == buffer;
      NothingToCut(buffer);
    } else {
      var pre, c := chunks[..|chunks| - 1], CString(chunks[|chunks| - 1]);
      FedIsSplit(buffer, pre);
      JoinedEnd(CStrings(pre), c);
      Associative(buffer, Joined(CStrings(pre)), c);
      SplitMore(buffer + Joined(CStrings(pre)), c);
    }
  }

  lemma {:induction false} CopiedLength(chunks: seq<string>)
    ensures |Joined(CStrings(chunks))| <= |Joined(chunks)|
    ensures |Joined(CStrings(chunks))| == |Joined(chunks)| <==> forall c :: c in chunks ==> '\0' !in c
    ensures (forall c :: c in chunks ==> '\0' !in c) ==> CStrings(chunks) == chunks
  {
    if chunks != [] {
      var pre, c := chunks[..|chunks| - 1], chunks[|chunks| - 1];
      CopiedLength(pre);
      JoinedEnd(pre, c);
      JoinedEnd(CStrings(pre), CString(c));
      assert chunks == pre + [c];
      assert (forall x :: x in chunks ==> '\0' !in x) <==> (forall x :: x in pre ==> '\0' !in x) && '\0' !in c;
    }
  }

  /**
   * Framing does not depend on how the stream is cut into reads, exactly for streams without NUL: the messages
   * and the leftover are those of splitting the whole stream at once if and only if no read contains a NUL.
   */
  lemma ChunkingIndependent(chunks: seq<string>)
    ensures FeedAll("", chunks) == Split(Joined(chunks)) <==> forall c :: c in chunks ==> '\0' !in c
  {
    FedIsSplit("", chunks);
    assert "" + Joined(CStrings(chunks)) == Joined(CStrings(chunks));
    CopiedLength(chunks);
    SplitIsCut(Joined(chunks));
    SplitIsCut(Joined(CStrings(chunks)));
  }
}
