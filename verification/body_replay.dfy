/** Buffering a form body in the CSRF middleware and replaying it to the application.

    A receive channel is the sequence of messages it will deliver; a channel that runs dry leaves
    its reader waiting. */
module BodyReplay {
  type Bytes = seq<bv8>

  datatype Message =
    | Chunk(body: Bytes, more: bool)
    | Disconnect
    | Other  // any other message type, which readers skip

  const CAP := 1048576

  // ---------------------------------------------------------------------------
  // What a channel says
  // ---------------------------------------------------------------------------

  datatype End = Done | Gone | Pending

  /** All the bytes of the body, however they are cut into messages. */
  function Body(ms: seq<Message>): Bytes {
    if ms == [] || ms[0].Disconnect? then []
    else if ms[0].Other? then Body(ms[1..])
    else if ms[0].more then ms[0].body + Body(ms[1..])
    else ms[0].body
  }

  /** Whether the body is completed, cut off by a disconnect, or still pending. */
  function Ending(ms: seq<Message>): End {
    if ms == [] then Pending
    else if ms[0].Disconnect? then Gone
    else if ms[0].Chunk? && !ms[0].more then Done
    else Ending(ms[1..])
  }

  // ---------------------------------------------------------------------------
  // Reading with a cap
  // ---------------------------------------------------------------------------

  datatype Reading = Read(body: Bytes) | TooLarge | Waiting

  /** The reader stops with the body as soon as the body ends, and gives up at the first chunk that
      would take the buffer over the cap. */
  function ReadAll(ms: seq<Message>, buffer: Bytes): Reading {
    if ms == [] then Waiting
    else
      match ms[0]
      case Disconnect => Read(buffer)
      case Other => ReadAll(ms[1..], buffer)
      case Chunk(body, more) =>
        if |buffer| + |body| > CAP then TooLarge
        else if more then ReadAll(ms[1..], buffer + body)
        else Read(buffer + body)
  }

  /** For every channel: the reader gives up exactly when the body is longer than the cap, even if
      it never ends; otherwise it returns the body exactly when the body ends, by completion or by
      a disconnect, and waits for ever exactly when it does not. */
  lemma {:induction false} ReadingCharacterised(ms: seq<Message>, buffer: Bytes)
    requires |buffer| <= CAP
    ensures ReadAll(ms, buffer) == TooLarge <==> |buffer| + |Body(ms)| > CAP
    ensures ReadAll(ms, buffer).Read? <==> |buffer| + |Body(ms)| <= CAP && Ending(ms) != Pending
    ensures ReadAll(ms, buffer).Read? ==> ReadAll(ms, buffer).body == buffer + Body(ms)
  {
    if ms == [] || ms[0].Disconnect? {
      assert buffer + [] == buffer;
    } else if ms[0].Other? {
      ReadingCharacterised(ms[1..], buffer);
    } else if ms[0].more && |buffer| + |ms[0].body| <= CAP {
      ReadingCharacterised(ms[1..], buffer + ms[0].body);
      assert buffer + ms[0].body + Body(ms[1..]) == buffer + (ms[0].body + Body(ms[1..]));
    }
  }

  function Concat(chunks: seq<Bytes>): Bytes {
    if chunks == [] then [] else chunks[0] + Concat(chunks[1..])
  }

  /** The messages of a body sent in these chunks. */
  function Chunked(chunks: seq<Bytes>): seq<Message>
    requires chunks != []
  {
    seq(|chunks|, i requires 0 <= i < |chunks| => Chunk(chunks[i], i + 1 < |chunks|))
  }

  lemma {:induction false} ChunkingIsInvisible(chunks: seq<Bytes>)
    requires chunks != []
    ensures Body(Chunked(chunks)) == Concat(chunks) && Ending(Chunked(chunks)) == Done
  {
    if |chunks| == 1 {
      assert Concat(chunks[1..]) == [];
    } else {
      ChunkingIsInvisible(chunks[1..]);
      assert Chunked(chunks)[1..] == Chunked(chunks[1..]);
    }
  }

  /** For every chunking of a body, the reader returns the body or, if and only if it is longer
      than 1 MiB, gives up. */
  lemma EveryChunkingReads(chunks: seq<Bytes>)
    requires chunks != []
    ensures ReadAll(Chunked(chunks), []) == if |Concat(chunks)| > 1048576 then TooLarge else Read(Concat(chunks))
  {
    ChunkingIsInvisible(chunks);
    ReadingCharacterised(Chunked(chunks), []);
  }

  /** Messages of other types are skipped, wherever they come. */
  lemma {:induction false} OthersAreSkipped(a: seq<Message>, b: seq<Message>, buffer: Bytes)
    ensures ReadAll(a + [Other] + b, buffer) == ReadAll(a + b, buffer)
    ensures Body(a + [Other] + b) == Body(a + b) && Ending(a + [Other] + b) == Ending(a + b)
    decreases a
  {
    var with, without := a + [Other] + b, a + b;
    if a == [] {
      assert with[1..] == b && without == b;
    } else {
      assert with[1..] == a[1..] + [Other] + b && without[1..] == a[1..] + b;
      OthersAreSkipped(a[1..], b, buffer);
      if a[0].Chunk? {
        OthersAreSkipped(a[1..], b, buffer + a[0].body);
      }
    }
  }

  /** These chunks, each announcing more, and then a disconnect. */
  function CutOff(chunks: seq<Bytes>): seq<Message> {
    if chunks == [] then [Disconnect] else [Chunk(chunks[0], true)] + CutOff(chunks[1..])
  }

  lemma {:induction false} CutOffBody(chunks: seq<Bytes>)
    ensures Body(CutOff(chunks)) == Concat(chunks) && Ending(CutOff(chunks)) == Gone
  {
    if chunks != [] {
      CutOffBody(chunks[1..]);
      assert CutOff(chunks)[1..] == CutOff(chunks[1..]);
    }
  }

  /** A body cut off by a disconnect is read as far as it had come, not as an empty one. */
  lemma CutOffBodyIsKept(chunks: seq<Bytes>)
    ensures ReadAll(CutOff(chunks), []) == if |Concat(chunks)| > 1048576 then TooLarge else Read(Concat(chunks))
  {
    CutOffBody(chunks);
    ReadingCharacterised(CutOff(chunks), []);
  }

  /** The reading loop. `peak` is the largest size the buffer ever has. */
  method ReadFullBody(ms: seq<Message>) returns (result: Reading, peak: nat)
    ensures result == ReadAll(ms, [])
    ensures peak <= 1048576 && (result.Read? ==> |result.body| <= peak)
  {
    var buffer: Bytes := [];
    var i := 0;
    peak := 0;
    while i < |ms|
      invariant 0 <= i <= |ms| && |buffer| <= peak <= CAP
      invariant ReadAll(ms, []) == ReadAll(ms[i..], buffer)
    {
      var message := ms[i];
      assert ms[i..][1..] == ms[i + 1..];
      i := i + 1;
      if message.Disconnect? {
        return Read(buffer), peak;
      }
      if !message.Chunk? {
        continue;
      }
      var chunk := message.body;
      if |buffer| + |chunk| > CAP {
        return TooLarge, peak;
      }
      buffer := buffer + chunk;
      peak := if |buffer| > peak then |buffer| else peak;
      if !message.more {
        return Read(buffer), peak;
      }
    }
    return Waiting, peak;
  }

  // ---------------------------------------------------------------------------
  // Replaying
  // ---------------------------------------------------------------------------

  /** What the replacing channel delivers to `n` reads: the whole body once, then disconnects. */
  function Replay(body: Bytes, n: nat): seq<Message> {
    seq(n, i => if i == 0 then Chunk(body, false) else Disconnect)
  }

  class ReplayChannel {
    const body: Bytes
    var sent: bool
    ghost var delivered: seq<Message>

    ghost predicate Valid()
      reads this
    {
      delivered == Replay(body, |delivered|) && (sent <==> delivered != [])
    }

    constructor (body: Bytes)
      ensures Valid() && this.body == body && delivered == []
    {
      this.body := body;
      sent := false;
      delivered := [];
    }

    method Receive() returns (message: Message)
      requires Valid()
      modifies this
      ensures Valid() && delivered == old(delivered) + [message]
      ensures message == if old(delivered) == [] then Chunk(body, false) else Disconnect
    {
      if !sent {
        sent := true;
        message := Chunk(body, false);
      } else {
        message := Disconnect;
      }
      delivered := delivered + [message];
    }
  }

  /** Reading what was replayed gives back what was read, for as many reads as anybody makes. */
  lemma ReadReplayRead(ms: seq<Message>, n: nat)
    requires ReadAll(ms, []).Read? && n > 0
    ensures ReadAll(Replay(ReadAll(ms, []).body, n), []) == ReadAll(ms, [])
    ensures Body(Replay(ReadAll(ms, []).body, n)) == Body(ms)
    ensures Ending(Replay(ReadAll(ms, []).body, n)) == Done
  {
    ReadingCharacterised(ms, []);
    var b := ReadAll(ms, []).body;
    assert Replay(b, n)[0] == Chunk(b, false);
    assert [] + b == b;
  }

  // ---------------------------------------------------------------------------
  // The middleware's body branch
  // ---------------------------------------------------------------------------

  /** One request as the middleware sees it. `guarded`: unsafe method on a path that is not exempt. */
  datatype Incoming = Incoming(guarded: bool, headerToken: string, isForm: bool, cookieToken: string, ms: seq<Message>)

  datatype Outcome =
    | Forward(ms: seq<Message>)  // what the application can read
    | BodyTooLarge               // 413
    | TokenInvalid               // 403
    | NoAnswer                   // still waiting for the body

  predicate Buffers(r: Incoming) {
    r.guarded && r.headerToken == "" && r.isForm
  }

  /** What the application can read, in `times` reads. */
  function Forwarded(r: Incoming, times: nat): seq<Message> {
    if Buffers(r) then Replay(Body(r.ms), times) else r.ms
  }

  /** `extract` finds the token in a form body, `matches` is the token manager's check. */
  method Handle(r: Incoming, extract: Bytes -> string, matches: (string, string) -> bool, times: nat) returns (o: Outcome)
    ensures !r.guarded ==> o == Forward(r.ms)
    ensures r.guarded && (r.headerToken != "" || !r.isForm) ==>
              o == if matches(r.cookieToken, r.headerToken) then Forward(r.ms) else TokenInvalid
    ensures r.guarded && r.headerToken == "" && r.isForm ==>
              && (o == BodyTooLarge <==> |Body(r.ms)| > 1048576)
              && (o == NoAnswer <==> |Body(r.ms)| <= 1048576 && Ending(r.ms) == Pending)
              && (o.TokenInvalid? || o.Forward? ==> (o.Forward? <==> matches(r.cookieToken, extract(Body(r.ms)))))
    ensures o.Forward? ==> o.ms == Forwarded(r, times)
  {
    var outgoing := r.ms;
    if r.guarded {
      var token := r.headerToken;
      if token == "" && r.isForm {
        ReadingCharacterised(r.ms, []);
        var reading, _ := ReadFullBody(r.ms);
        if reading.TooLarge? {
          return BodyTooLarge;
        }
        if reading.Waiting? {
          return NoAnswer;
        }
        assert reading.body == Body(r.ms);
        token := extract(reading.body);
        outgoing := Replay(reading.body, times);
      }
      if !matches(r.cookieToken, token) {
        return TokenInvalid;
      }
    }
    return Forward(outgoing);
  }

  /** Body preservation: whatever the middleware forwards, the application reads exactly the bytes
      the client sent; and it also sees them end as they did, except that a form body cut off by a
      disconnect reaches it as if it were complete. */
  lemma ForwardPreservesBody(r: Incoming, times: nat)
    requires times > 0 && Ending(r.ms) != Pending
    requires Buffers(r) ==> |Body(r.ms)| <= CAP
    ensures Body(Forwarded(r, times)) == Body(r.ms)
    ensures Ending(Forwarded(r, times)) == Ending(r.ms) <==> !(Buffers(r) && Ending(r.ms) == Gone)
  {
    if Buffers(r) {
      ReadingCharacterised(r.ms, []);
      assert [] + Body(r.ms) == Body(r.ms);
      ReadReplayRead(r.ms, times);
    }
  }
}
