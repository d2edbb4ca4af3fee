/**
 The chunk protocol of streaming service invocation: the sender cuts a body into numbered payloads behind one
 leading message, and the receiver puts the body together again or reports an error.
 */
module InvokeStream {
  import opened Text

  /** Sequence numbers are 64-bit and wrap around. */
  const SEQ_MODULUS := 0x1_0000_0000_0000_0000

  /** The 64-bit successor. */
  function Succ(seqNo: int): (next: int)
    ensures 0 <= seqNo < 0x1_0000_0000_0000_0000 ==> next == (seqNo + 1) % 0x1_0000_0000_0000_0000
  {
    if seqNo + 1 == SEQ_MODULUS then 0 else seqNo + 1
  }

  datatype Payload = Payload(data: Bytes, seqNo: int)

  /** A message on the stream: whether it carries the request (or response) metadata, and a payload. */
  datatype Chunk = Chunk(metadata: bool, payload: Option<Payload>)

  function Data(c: Chunk): (data: Bytes)
  {
    if c.payload.Some? then c.payload.value.data else []
  }

  /** The bytes that chunks carry. */
  function Body(chunks: seq<Chunk>): (bytes: Bytes)
  {
    if chunks == [] then [] else Data(chunks[0]) + Body(chunks[1..])
  }

  /** The payloads of the chunks, in order. */
  function Payloads(chunks: seq<Chunk>): (payloads: seq<Payload>)
  {
    if chunks == [] then []
    else if chunks[0].payload.Some? then [chunks[0].payload.value] + Payloads(chunks[1..])
    else Payloads(chunks[1..])
  }

  /** The payloads are numbered consecutively from `n` on, in 64-bit numbers. */
  predicate NumberedFrom(chunks: seq<Chunk>, n: nat)
  {
    chunks == [] ||
    if chunks[0].payload.Some? then
      chunks[0].payload.value.seqNo == n % SEQ_MODULUS && NumberedFrom(chunks[1..], n + 1)
    else NumberedFrom(chunks[1..], n)
  }

  /** Each payload's number is its position after `n`. */
  predicate InPosition(payloads: seq<Payload>, n: nat)
  {
    forall i :: 0 <= i < |payloads| ==> payloads[i].seqNo == (n + i) % SEQ_MODULUS
  }

  lemma InPositionCons(p: Payload, payloads: seq<Payload>, n: nat)
    ensures InPosition([p] + payloads, n) <==> p.seqNo == n % SEQ_MODULUS && InPosition(payloads, n + 1)
  {
    var all := [p] + payloads;
    if InPosition(all, n) {
      assert all[0] == p;
      forall i | 0 <= i < |payloads| ensures payloads[i].seqNo == (n + 1 + i) % SEQ_MODULUS {
        assert all[i + 1] == payloads[i];
      }
    }
  }

  /** Numbering consecutively is numbering by position. */
  lemma {:induction false} NumberedByPosition(chunks: seq<Chunk>, n: nat)
    ensures NumberedFrom(chunks, n) <==> InPosition(Payloads(chunks), n)
  {
    if chunks != [] {
      if chunks[0].payload.None? {
        NumberedByPosition(chunks[1..], n);
      } else {
        NumberedByPosition(chunks[1..], n + 1);
        InPositionCons(chunks[0].payload.value, Payloads(chunks[1..]), n);
      }
    }
  }

  predicate NoMetadata(chunks: seq<Chunk>)
  {
    chunks == [] || (!chunks[0].metadata && NoMetadata(chunks[1..]))
  }

  /** The streams the protocol allows: metadata in the leading chunk only, payloads numbered from zero. */
  predicate WellFormed(chunks: seq<Chunk>)
    requires chunks != []
  {
    NoMetadata(chunks[1..]) && NumberedFrom(chunks, 0)
  }

  // ----- the receive loop -----

  /** What the receiver meets: the chunks that arrive, the leading one first; whether the stream then ends or fails;
      whether the context is done at each round; and how many bytes of each write the pipe takes before failing
      (None when it takes all). The reader of a response has no context check, the reader of a request has one. */
  datatype Inbound =
    Inbound(chunks: seq<Chunk>, ends: bool, contextDone: nat -> bool, writes: nat -> Option<nat>)

  /** Neither the context nor the pipe gets in the way of the chunks from round `k` on. */
  predicate Undisturbed(i: Inbound, chunks: seq<Chunk>, k: nat)
  {
    chunks == [] ||
    (!i.contextDone(k) && (Data(chunks[0]) != [] ==> i.writes(k).None?) && Undisturbed(i, chunks[1..], k + 1))
  }

  /** `ReadChunk`: the payload's bytes go to the pipe, all of them unless the pipe fails. */
  method ReadChunk(data: Bytes, takes: Option<nat>) returns (written: Bytes, ok: bool)
    ensures written <= data
    ensures ok <==> data == [] || takes.None?
    ensures ok ==> written == data
    ensures !ok ==> |written| == if takes.value < |data| then takes.value else |data|
  {
    if data == [] || takes.None? {
      return data, true;
    }
    return data[..if takes.value < |data| then takes.value else |data|], false;
  }

  lemma NextNumber(n: nat)
    ensures (n + 1) % SEQ_MODULUS == Succ(n % SEQ_MODULUS)
  {
  }

  /** Chunk `k` passes: the context is live, the metadata is in the leading chunk only, the pipe takes the bytes, and
      a payload has the number of payloads before it. */
  predicate Passes(i: Inbound, k: nat)
    requires k < |i.chunks|
  {
    var c := i.chunks[k];
    && !i.contextDone(k)
    && (k > 0 ==> !c.metadata)
    && (Data(c) != [] ==> i.writes(k).None?)
    && (c.payload.Some? ==> c.payload.value.seqNo == |Payloads(i.chunks[..k])| % 0x1_0000_0000_0000_0000)
  }

  /** The bytes that are delivered of a chunk that does not pass: what the pipe took, and all of them under a wrong
      number. */
  function PartOf(i: Inbound, k: nat): (bytes: Bytes)
    requires k < |i.chunks|
  {
    var c := i.chunks[k];
    if i.contextDone(k) || (k > 0 && c.metadata) then []
    else if i.writes(k).Some? && i.writes(k).value < |Data(c)| then Data(c)[..i.writes(k).value]
    else Data(c)
  }

  /** Chunk `m` is the first that does not pass, or all of them pass. */
  ghost predicate StopsAt(i: Inbound, m: nat, delivered: Bytes, clean: bool)
  {
    && m <= |i.chunks| && (forall k :: 0 <= k < m ==> Passes(i, k)) && (m < |i.chunks| ==> !Passes(i, m))
    && delivered == Body(i.chunks[..m]) + (if m < |i.chunks| then PartOf(i, m) else [])
    && clean == (m == |i.chunks| && i.ends)
  }

  lemma {:induction false} PayloadsSnoc(chunks: seq<Chunk>, c: Chunk)
    ensures |Payloads(chunks + [c])| == |Payloads(chunks)| + if c.payload.Some? then 1 else 0
  {
    if chunks != [] {
      PayloadsSnoc(chunks[1..], c);
      assert (chunks + [c])[1..] == chunks[1..] + [c];
    }
  }

  lemma OneMoreChunk(chunks: seq<Chunk>, k: nat)
    requires k < |chunks|
    ensures Body(chunks[..k + 1]) == Body(chunks[..k]) + Data(chunks[k])
    ensures chunks[k].payload.None? ==> Body(chunks[..k + 1]) == Body(chunks[..k])
    ensures |Payloads(chunks[..k + 1])| == |Payloads(chunks[..k])| + if chunks[k].payload.Some? then 1 else 0
  {
    TakeNext(chunks, k);
    BodySnoc(chunks[..k], chunks[k]);
    PayloadsSnoc(chunks[..k], chunks[k]);
  }

  /** The reader stops at a chunk of which it delivered `part`. */
  lemma Stops(i: Inbound, m: nat, part: Bytes)
    requires m < |i.chunks| && (forall k :: 0 <= k < m ==> Passes(i, k)) && !Passes(i, m) && part == PartOf(i, m)
    ensures StopsAt(i, m, Body(i.chunks[..m]) + part, false)
  {
  }

  /** The reader stops at a chunk of which it delivered nothing. */
  lemma StopsBefore(i: Inbound, m: nat)
    requires m < |i.chunks| && (forall k :: 0 <= k < m ==> Passes(i, k))
    requires i.contextDone(m) || (m > 0 && i.chunks[m].metadata)
    ensures StopsAt(i, m, Body(i.chunks[..m]), false)
  {
    assert Body(i.chunks[..m]) + [] == Body(i.chunks[..m]);
  }

  /** All chunks pass. */
  lemma PassesAll(i: Inbound)
    requires forall k :: 0 <= k < |i.chunks| ==> Passes(i, k)
    ensures StopsAt(i, |i.chunks|, Body(i.chunks), i.ends)
  {
    TakeAll(i.chunks);
    assert Body(i.chunks) + [] == Body(i.chunks);
  }

  /** Chunks from `k` on pass. */
  ghost predicate PassFrom(i: Inbound, k: nat)
  {
    forall j :: k <= j < |i.chunks| ==> Passes(i, j)
  }

  lemma PassStep(i: Inbound, k: nat)
    requires k < |i.chunks|
    ensures PassFrom(i, k) <==> Passes(i, k) && PassFrom(i, k + 1)
  {
  }

  /** One chunk's part in what the protocol allows and what may get in the way. */
  lemma ChunkStep(i: Inbound, k: nat)
    requires k < |i.chunks|
    ensures i.chunks[k..][0] == i.chunks[k] && i.chunks[k..][1..] == i.chunks[k + 1..]
    ensures var n := |Payloads(i.chunks[..k])|;
            && (Passes(i, k) && (k > 0 ==> NoMetadata(i.chunks[k + 1..]))
                && NumberedFrom(i.chunks[k + 1..], |Payloads(i.chunks[..k + 1])|) && Undisturbed(i, i.chunks[k + 1..], k + 1)
                <==>
                (k > 0 ==> NoMetadata(i.chunks[k..])) && NumberedFrom(i.chunks[k..], n) && Undisturbed(i, i.chunks[k..], k))
  {
    OneMoreChunk(i.chunks, k);
  }

  lemma {:induction false} PassFromMeans(i: Inbound, k: nat)
    requires 0 < k <= |i.chunks|
    ensures PassFrom(i, k) <==>
            && NoMetadata(i.chunks[k..]) && NumberedFrom(i.chunks[k..], |Payloads(i.chunks[..k])|)
            && Undisturbed(i, i.chunks[k..], k)
    decreases |i.chunks| - k
  {
    if k < |i.chunks| {
      PassFromMeans(i, k + 1);
      ChunkStep(i, k);
      PassStep(i, k);
    }
  }

  /** All chunks pass exactly if the stream is one that the protocol allows and nothing gets in the way. */
  lemma PassMeans(i: Inbound)
    requires i.chunks != []
    ensures PassFrom(i, 0) <==> WellFormed(i.chunks) && Undisturbed(i, i.chunks, 0)
  {
    PassFromMeans(i, 1);
    ChunkStep(i, 0);
    PassStep(i, 0);
    assert i.chunks[0..] == i.chunks && Payloads(i.chunks[..0]) == [];
  }

  /** What was delivered is a prefix, and all of it only if all chunks pass. */
  lemma StopMeans(i: Inbound, m: nat, delivered: Bytes, clean: bool)
    requires i.chunks != [] && StopsAt(i, m, delivered, clean)
    ensures delivered <= Body(i.chunks) && (clean ==> delivered == Body(i.chunks))
    ensures clean <==> i.ends && WellFormed(i.chunks) && Undisturbed(i, i.chunks, 0)
  {
    PassMeans(i);
    TakeAll(i.chunks);
    if m < |i.chunks| {
      OneMoreChunk(i.chunks, m);
      BodyTake(i.chunks, m + 1);
      assert delivered <= Body(i.chunks[..m + 1]);
    } else {
      assert Body(i.chunks) + [] == Body(i.chunks);
    }
  }

  /** The background reader of `invokeRemoteStream`, and of the request on the other side. It closes the pipe
      without an error on exactly the well-formed streams that end and meet no disturbance; then it has delivered
      exactly their bytes. In every other case it has delivered a prefix and reports an error: it stops at the first
      chunk that does not pass, with the bytes before it and what is delivered of it. */
  method ReceiveStream(i: Inbound) returns (delivered: Bytes, clean: bool)
    requires i.chunks != []
    ensures delivered <= Body(i.chunks)
    ensures clean ==> delivered == Body(i.chunks)
    ensures clean <==> i.ends && WellFormed(i.chunks) && Undisturbed(i, i.chunks, 0)
    ensures exists m: nat :: StopsAt(i, m, delivered, clean)
  {
    ghost var m;
    delivered, clean, m := ReceiveChunks(i);
    StopMeans(i, m, delivered, clean);
  }

  /** The receive loop. */
  method ReceiveChunks(i: Inbound) returns (delivered: Bytes, clean: bool, ghost m: nat)
    requires i.chunks != []
    ensures StopsAt(i, m, delivered, clean)
  {
    delivered, m := [], 0;
    var expected, round := 0, 0;
    while true
      invariant m == round < |i.chunks| && (round > 0 ==> !i.chunks[round].metadata)
      invariant delivered == Body(i.chunks[..round]) && expected == |Payloads(i.chunks[..round])| % SEQ_MODULUS
      invariant forall k :: 0 <= k < round ==> Passes(i, k)
      decreases |i.chunks| - round
    {
      var chunk := i.chunks[round];
      OneMoreChunk(i.chunks, round);
      if i.contextDone(round) {
        StopsBefore(i, round);
        return delivered, false, round;
      }
      if chunk.payload.Some? {
        var written, ok := ReadChunk(chunk.payload.value.data, i.writes(round));
        delivered := delivered + written;
        if !ok || chunk.payload.value.seqNo != expected {
          Stops(i, round, written);
          return delivered, false, round;
        }
        NextNumber(|Payloads(i.chunks[..round])|);
        expected := Succ(expected);
      }
      round, m := round + 1, round + 1;
      if round == |i.chunks| {
        PassesAll(i);
        return delivered, i.ends, round;
      }
      if i.chunks[round].metadata {
        StopsBefore(i, round);
        return delivered, false, round;
      }
    }
  }

  // ----- the send loop -----

  datatype ReadEnd = More | Eof | ReadError

  /** One call of the body reader: the bytes it gave and how it ended. */
  datatype Read = Read(data: Bytes, end: ReadEnd)

  datatype SendOutcome = Accepted | StreamEnded | SendError

  /** What the sender meets: the body reader (None for a request without one), the outcome of each send, whether
      the context is done at each round, and whether closing the send direction succeeds. */
  datatype Wire = Wire(body: Option<seq<Read>>, sends: nat -> SendOutcome, contextDone: nat -> bool, closes: bool)

  datatype SendResult = Closed(ended: bool) | ContextDone | ReadFailed | SendFailed | CloseFailed

  /** What the reader gives before its end or its failure; a reader that gives no more has reached its end. */
  function Content(body: seq<Read>): (bytes: Bytes)
  {
    if body == [] || body[0].end.ReadError? then []
    else if body[0].end.Eof? then body[0].data
    else body[0].data + Content(body[1..])
  }

  /** The reader reaches its end without failing. */
  predicate ReadsWell(body: seq<Read>)
  {
    body == [] || body[0].end.Eof? || (body[0].end.More? && ReadsWell(body[1..]))
  }

  function Script(w: Wire): (body: seq<Read>)
  {
    if w.body.Some? then w.body.value else []
  }

  /** Nothing goes wrong on the wire. */
  ghost predicate Smooth(w: Wire)
  {
    && ReadsWell(Script(w)) && w.closes
    && (forall i: nat :: w.sends(i).Accepted?)
    && (forall i: nat :: !w.contextDone(i))
  }

  /** Chunks after the leading one carry a payload, and no payload is empty. */
  predicate Full(chunks: seq<Chunk>)
  {
    forall c <- chunks :: c.payload.Some? && c.payload.value.data != []
  }

  /** What a sender may have sent: the request first and only once, then full payloads, numbered from zero. */
  predicate WellSent(sent: seq<Chunk>)
  {
    sent != [] ==>
      && WellFormed(sent)
      && sent[0].metadata && (sent[0].payload.Some? ==> sent[0].payload.value.data != [])
      && Full(sent[1..])
  }

  lemma {:induction false} BodySnoc(chunks: seq<Chunk>, c: Chunk)
    ensures Body(chunks + [c]) == Body(chunks) + Data(c)
  {
    if chunks != [] {
      BodySnoc(chunks[1..], c);
      assert (chunks + [c])[1..] == chunks[1..] + [c];
    }
  }

  lemma {:induction false} NoMetadataSnoc(chunks: seq<Chunk>, c: Chunk)
    requires NoMetadata(chunks) && !c.metadata
    ensures NoMetadata(chunks + [c])
  {
    if chunks != [] {
      NoMetadataSnoc(chunks[1..], c);
      assert (chunks + [c])[1..] == chunks[1..] + [c];
    }
  }

  lemma {:induction false} NumberedSnoc(chunks: seq<Chunk>, c: Chunk, n: nat)
    requires NumberedFrom(chunks, n)
    requires c.payload.Some? ==> c.payload.value.seqNo == (n + |Payloads(chunks)|) % SEQ_MODULUS
    ensures NumberedFrom(chunks + [c], n)
    ensures |Payloads(chunks + [c])| == |Payloads(chunks)| + if c.payload.Some? then 1 else 0
  {
    if chunks != [] {
      NumberedSnoc(chunks[1..], c, if chunks[0].payload.Some? then n + 1 else n);
      assert (chunks + [c])[1..] == chunks[1..] + [c];
    }
  }

  /** A send adds the message's bytes under the next number. */
  lemma Sent(sent: seq<Chunk>, message: Chunk)
    requires WellSent(sent)
    requires message.metadata == (sent == []) && (message.metadata || message.payload.Some?)
    requires message.payload.Some? ==>
               message.payload.value.data != [] && message.payload.value.seqNo == |Payloads(sent)| % SEQ_MODULUS
    ensures WellSent(sent + [message])
    ensures Body(sent + [message]) == Body(sent) + Data(message)
    ensures message.payload.None? ==> |Payloads(sent + [message])| == |Payloads(sent)|
    ensures message.payload.Some? ==>
              |Payloads(sent + [message])| % SEQ_MODULUS == Succ(|Payloads(sent)| % SEQ_MODULUS)
  {
    BodySnoc(sent, message);
    NumberedSnoc(sent, message, 0);
    NextNumber(|Payloads(sent)|);
    if sent != [] {
      NoMetadataSnoc(sent[1..], message);
      assert (sent + [message])[1..] == sent[1..] + [message];
    }
  }

  function NextData(script: seq<Read>, k: nat): (data: Bytes)
  {
    if k < |script| then script[k].data else []
  }

  /** The reads before `k` went well, and these are their bytes. */
  ghost predicate ReadSoFar(script: seq<Read>, k: nat, bytes: Bytes)
  {
    k <= |script| && (forall r <- script[..k] :: r.end.More?) && bytes == Content(script[..k])
  }

  lemma {:induction false} ContentConcat(script: seq<Read>, rest: seq<Read>)
    requires forall q <- script :: q.end.More?
    ensures Content(script + rest) == Content(script) + Content(rest)
    ensures ReadsWell(script + rest) == ReadsWell(rest)
  {
    if script == [] {
      assert script + rest == rest && [] + Content(rest) == Content(rest);
    } else {
      ContentConcat(script[1..], rest);
      assert (script + rest)[1..] == script[1..] + rest;
      Associates(script[0].data, Content(script[1..]), Content(rest));
    }
  }

  lemma Associates(a: Bytes, b: Bytes, c: Bytes)
    ensures (a + b) + c == a + (b + c)
  {
  }

  /** One read more, whichever way it ends. */
  lemma ReadNext(script: seq<Read>, k: nat, bytes: Bytes)
    requires ReadSoFar(script, k, bytes)
    ensures bytes <= Content(script)
    ensures k < |script| && script[k].end.ReadError? ==> !ReadsWell(script) && bytes == Content(script)
    ensures k == |script| || script[k].end.Eof? ==> ReadsWell(script) && bytes + NextData(script, k) == Content(script)
    ensures k < |script| && !script[k].end.ReadError? ==> bytes + NextData(script, k) <= Content(script)
  {
    ContentConcat(script[..k], script[k..]);
    assert script[..k] + script[k..] == script && bytes + [] == bytes;
    if k < |script| && script[k].end.More? {
      Associates(bytes, script[k].data, Content(script[k..][1..]));
    }
  }

  lemma ReadOneMore(script: seq<Read>, k: nat, bytes: Bytes)
    requires ReadSoFar(script, k, bytes) && k < |script| && script[k].end.More?
    ensures ReadSoFar(script, k + 1, bytes + script[k].data)
  {
    TakeNext(script, k);
    ContentConcat(script[..k], [script[k]]);
    assert [script[k]][1..] == [] && script[k].data + [] == script[k].data;
  }

  lemma NoData(bytes: Bytes, data: Bytes)
    ensures data == [] ==> bytes + data == bytes
  {
  }

  /** The next message: the request in the first one, and what was read, under the next number. */
  method Compose(first: bool, data: Bytes, seqNo: int) returns (message: Chunk, next: int)
    ensures message.metadata == first && (message.payload.Some? <==> data != []) && Data(message) == data
    ensures data != [] ==> message.payload.value.seqNo == seqNo
    ensures next == if data != [] then Succ(seqNo) else seqNo
  {
    message, next := Chunk(first, None), seqNo;
    if data != [] {
      message := message.(payload := Some(Payload(data, seqNo)));
      next := Succ(seqNo);
    }
  }

  /** The first `n` sends are accepted. */
  ghost predicate AllAccepted(w: Wire, n: nat)
  {
    forall i :: 0 <= i < n ==> w.sends(i).Accepted?
  }

  /** One round: the message is sent if there is anything in it. */
  method SendData(w: Wire, sent: seq<Chunk>, data: Bytes, seqNo: int)
    returns (more: seq<Chunk>, next: int, outcome: SendOutcome)
    requires WellSent(sent) && seqNo == |Payloads(sent)| % SEQ_MODULUS
    ensures WellSent(more) && next == |Payloads(more)| % SEQ_MODULUS && more != []
    ensures Body(more) == Body(sent) + data
    ensures if sent == [] || data != [] then |more| == |sent| + 1 && outcome == w.sends(|sent|)
            else more == sent && outcome == Accepted
  {
    var message;
    message, next := Compose(sent == [], data, seqNo);
    more, outcome := sent, Accepted;
    NoData(Body(sent), data);
    if message.metadata || message.payload.Some? {
      outcome := w.sends(|sent|);
      Sent(sent, message);
      more := sent + [message];
    }
  }

  /** The reader has nothing more to give at round `k`. */
  predicate LastRead(script: seq<Read>, k: nat)
  {
    k >= |script| || script[k].end.Eof?
  }

  /** The loop ends at round `k`, with this cause, and what was read by then has been sent. */
  ghost predicate EndsAt(w: Wire, sent: seq<Chunk>, result: SendResult, k: nat)
  {
    var script := Script(w);
    && k <= |script| && (forall r <- script[..k] :: r.end.More?) && (forall j :: 0 <= j < k ==> !w.contextDone(j))
    && |sent| <= k + 1 && (result.ContextDone? <==> w.contextDone(k))
    && if result.ContextDone? || result.ReadFailed? then
         && Body(sent) == Content(script[..k]) && AllAccepted(w, |sent|) && (k > 0 ==> sent != [])
         && (result.ReadFailed? ==> k < |script| && script[k].end.ReadError?)
       else
         && sent != [] && Body(sent) == Content(script[..k]) + NextData(script, k) && AllAccepted(w, |sent| - 1)
         && !(k < |script| && script[k].end.ReadError?)
         && match result
            case SendFailed => w.sends(|sent| - 1).SendError?
            case Closed(ended) => w.closes && if ended then w.sends(|sent| - 1).StreamEnded?
                                              else LastRead(script, k) && w.sends(|sent| - 1).Accepted?
            case _ => !w.closes && (w.sends(|sent| - 1).StreamEnded? ||
                                    (LastRead(script, k) && w.sends(|sent| - 1).Accepted?))
  }

  /** What the end of the loop says about what was sent. */
  lemma EndMeans(w: Wire, sent: seq<Chunk>, result: SendResult, k: nat)
    requires EndsAt(w, sent, result, k)
    ensures Body(sent) <= Content(Script(w))
    ensures result == Closed(false) || result == ReadFailed ==> Body(sent) == Content(Script(w))
    ensures result == Closed(false) ==> ReadsWell(Script(w)) && AllAccepted(w, |sent|)
    ensures result == ReadFailed ==> !ReadsWell(Script(w))
    ensures Smooth(w) ==> result == Closed(false)
  {
    ReadNext(Script(w), k, Content(Script(w)[..k]));
  }

  method SendLoop(w: Wire) returns (sent: seq<Chunk>, result: SendResult, ghost k: nat)
    ensures WellSent(sent) && EndsAt(w, sent, result, k)
  {
    sent, k := [], 0;
    var body := Script(w);
    var seqNo, round := 0, 0;
    while true
      invariant WellSent(sent)
      invariant k == round && (round == 0) == (sent == [])
      invariant seqNo == |Payloads(sent)| % SEQ_MODULUS
      invariant AllAccepted(w, |sent|)
      invariant |sent| <= round && forall k :: 0 <= k < round ==> !w.contextDone(k)
      invariant ReadSoFar(body, round, Body(sent))
      decreases |body| - round
    {
      if w.contextDone(round) {
        return sent, ContextDone, round;
      }
      if round < |body| && body[round].end.ReadError? {
        return sent, ReadFailed, round;
      }
      ghost var before := Body(sent);
      var done := round == |body| || body[round].end.Eof?;
      var outcome;
      sent, seqNo, outcome := SendData(w, sent, NextData(body, round), seqNo);
      if outcome.SendError? {
        return sent, SendFailed, round;
      }
      if done || outcome.StreamEnded? {
        return sent, if w.closes then Closed(outcome.StreamEnded?) else CloseFailed, round;
      }
      ReadOneMore(body, round, before);
      round, k := round + 1, round + 1;
    }
  }

  /** The send loop of `invokeRemoteStream`. Whatever the reader's splits and whatever it meets, the payloads are
      numbered from zero and carry a prefix of the body; when the stream is closed and was not ended by the other
      side, the request went out once and the payloads carry exactly the body. */
  method SendRequest(w: Wire) returns (sent: seq<Chunk>, result: SendResult)
    ensures WellSent(sent)
    ensures Body(sent) <= Content(Script(w))
    ensures result == Closed(false) ==> sent != [] && ReadsWell(Script(w)) && Body(sent) == Content(Script(w))
    ensures Smooth(w) ==> result == Closed(false)
    ensures forall i :: 0 <= i < |sent| - 1 ==> w.sends(i).Accepted?
    ensures result == Closed(true) ==> sent != [] && w.sends(|sent| - 1).StreamEnded?
    ensures result == SendFailed ==> sent != [] && w.sends(|sent| - 1).SendError?
    ensures result == ReadFailed ==> !ReadsWell(Script(w)) && Body(sent) == Content(Script(w))
    ensures result == CloseFailed ==> !w.closes
    ensures result.Closed? ==> w.closes
    ensures result == Closed(false) ==> forall i :: 0 <= i < |sent| ==> w.sends(i).Accepted?
    ensures result != ContextDone ==> !w.contextDone(0) && forall k :: 0 <= k < |sent| ==> !w.contextDone(k)
    ensures exists k: nat :: EndsAt(w, sent, result, k)
  {
    ghost var k;
    sent, result, k := SendLoop(w);
    EndMeans(w, sent, result, k);
  }

  /** The first chunks carry the first bytes. */
  lemma {:induction false} BodyTake(chunks: seq<Chunk>, n: nat)
    requires n <= |chunks|
    ensures Body(chunks[..n]) <= Body(chunks)
  {
    if n > 0 {
      BodyTake(chunks[1..], n - 1);
      assert chunks[..n][1..] == chunks[1..][..n - 1];
    }
  }

  /** Sender and receiver together. The transport hands over the chunks in order; `breaks` says after how many of them
      it breaks, if it does, and otherwise the stream ends as the sender ended it. However the reader splits the body
      and whatever either side meets, the receiver gets a prefix of the body, it never takes a shorter body for the
      whole one, and when nothing goes wrong the whole body arrives. */
  method RoundTrip(w: Wire, breaks: Option<nat>, contextDone: nat -> bool, writes: nat -> Option<nat>)
    returns (delivered: Bytes, clean: bool)
    ensures delivered <= Content(Script(w))
    ensures clean ==> delivered == Content(Script(w)) && ReadsWell(Script(w)) && breaks.None?
    ensures Smooth(w) && breaks.None? && (forall k: nat :: !contextDone(k) && writes(k).None?) ==> clean
  {
    var sent, result := SendRequest(w);
    var arrived := if breaks.Some? && breaks.value < |sent| then sent[..breaks.value] else sent;
    if arrived == [] {
      return [], false;
    }
    var inbound := Inbound(arrived, breaks.None? && result == Closed(false), contextDone, writes);
    if breaks.Some? && breaks.value < |sent| {
      BodyTake(sent, breaks.value);
    }
    if forall k: nat :: !contextDone(k) && writes(k).None? {
      NeverDisturbed(inbound, arrived, 0);
    }
    delivered, clean := ReceiveStream(inbound);
  }

  lemma {:induction false} NeverDisturbed(i: Inbound, chunks: seq<Chunk>, k: nat)
    requires forall k: nat :: !i.contextDone(k) && i.writes(k).None?
    ensures Undisturbed(i, chunks, k)
    decreases |chunks|
  {
    if chunks != [] {
      NeverDisturbed(i, chunks[1..], k + 1);
    }
  }
}
