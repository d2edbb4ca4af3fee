/**
 Remote service invocation: who releases the connection of each attempt, and what each attempt sends. A connection is
 released by exactly one owner, the caller or the background reader of a streamed response, and the request can be
 sent again after every attempt.
 */
module InvokeRemote {
  import opened Text
  import opened InvokeStream

  datatype Code = Unavailable | Unauthenticated | Unimplemented | Other(number: int)

  /** A pooled connection while it is checked out: how often it was released, whether a release destroyed it, and
      whether a background reader still receives from it. */
  class Connection {
    var releases: nat
    var destroyed: bool
    var reading: bool

    constructor ()
      ensures CheckedOut()
    {
      releases, destroyed, reading := 0, false, false;
    }

    /** In the caller's hands. */
    predicate CheckedOut()
      reads this
    {
      releases == 0 && !destroyed && !reading
    }

    /** In the hands of its background reader. */
    predicate HandedOver()
      reads this
    {
      releases == 0 && !destroyed && reading
    }

    predicate Released(destroy: bool)
      reads this
    {
      releases == 1 && destroyed == destroy && !reading
    }

    /** The teardown that came with the connection. To call it twice, or while a reader is at work, is an error. */
    method Teardown(destroy: bool)
      requires CheckedOut()
      modifies this
      ensures Released(destroy)
    {
      releases, destroyed := releases + 1, destroy;
    }

    /** The background reader: it receives the rest of the response, and its deferred teardown runs after that. */
    method ReadInBackground(i: Inbound) returns (delivered: Bytes, clean: bool)
      requires HandedOver() && i.chunks != []
      modifies this
      ensures Released(false)
      ensures delivered <= Body(i.chunks)
      ensures clean ==> delivered == Body(i.chunks)
      ensures clean <==> i.ends && WellFormed(i.chunks) && Undisturbed(i, i.chunks, 0)
    {
      delivered, clean := ReceiveStream(i);
      reading := false;
      Teardown(false);
    }
  }

  /** A teardown function as a value: the one of a connection, or the one that does nothing. */
  datatype Teardown = Nop | Of(conn: Connection)

  method CallTeardown(t: Teardown, destroy: bool)
    requires t.Of? ==> t.conn.CheckedOut()
    modifies if t.Of? then {t.conn} else {}
    ensures t.Of? ==> t.conn.Released(destroy)
  {
    if t.Of? {
      t.conn.Teardown(destroy);
    }
  }

  /** A request: data held in the message, or a stream of which `rest` is unread and, when it can be replayed, all
      that was read is in the replay buffer. A request marked as streaming is never buffered. */
  class Request {
    var value: Bytes
    var rest: Bytes
    var replay: Option<Bytes>
    const streaming: bool
    ghost const body: Bytes

    /** The request still holds its whole body. */
    ghost predicate Whole()
      reads this
    {
      Available() == body
    }

    predicate HasMessageData()
      reads this
    {
      value != []
    }

    predicate CanReplay()
      reads this
    {
      HasMessageData() || replay.Some?
    }

    /** What a new reader of the request's data gives: the data in the message, or the replay buffer and then the
        rest of the stream. */
    function Available(): (bytes: Bytes)
      reads this
    {
      if value != [] then value else if replay.Some? then replay.value + rest else rest
    }

    constructor InMemory(data: Bytes)
      ensures body == data && Whole() && value == data
    {
      value, rest, replay, body := data, [], None, data;
      streaming := false;
    }

    constructor Streamed(data: Bytes, streaming: bool)
      ensures body == data && Whole() && value == [] && this.streaming == streaming
    {
      value, rest, replay, body := [], data, None, data;
      this.streaming := streaming;
    }

    method WithReplay()
      modifies this`replay
      ensures Available() == old(Available())
      ensures CanReplay() <==> old(CanReplay()) || !streaming
      ensures streaming ==> replay == old(replay)
    {
      if streaming {
        return;
      }
      if !HasMessageData() && replay.None? {
        replay := Some([]);
        assert [] + rest == rest;
      }
    }

    /** Reading `n` bytes from a stream reader: the bytes come from the replay buffer first, and what comes from the
        stream goes into the buffer. */
    method Consume(n: nat)
      requires value == [] && n <= |Available()|
      modifies this`rest, this`replay
      ensures replay.Some? == old(replay.Some?)
      ensures Available() == if replay.Some? then old(Available()) else old(Available())[n..]
    {
      if replay.None? {
        rest := rest[n..];
      } else if n > |replay.value| {
        var k := n - |replay.value|;
        assert (replay.value + rest[..k]) + rest[k..] == replay.value + rest;
        replay, rest := Some(replay.value + rest[..k]), rest[k..];
      }
    }
  }

  datatype FirstReceipt = ReceiveFailed(code: Code) | NoStatus | BadResponse | Leading(inbound: Inbound)

  /** What one attempt meets on a connection: whether the stream opens; how a reader of the request's data cuts what it
      is given, and fails; the sends, contexts and closing of the send loop, with the code of an error it may end in and
      the number of bytes read beyond what is sent; the first receipt; and how a unary call ends. */
  datatype Call = Call(opens: Option<Code>, reader: Bytes -> seq<Read>, sends: nat -> SendOutcome,
                       contextDone: nat -> bool, closes: bool, sendCode: Code, readAhead: nat, first: FirstReceipt,
                       unary: Option<Code>)

  /** A reader gives the bytes it has, in order, and ends only after all of them. A received response has its leading
      chunk. */
  ghost predicate Sound(call: Call)
  {
    && (forall b: Bytes :: Content(call.reader(b)) <= b && (ReadsWell(call.reader(b)) ==> Content(call.reader(b)) == b))
    && (call.first.Leading? ==> call.first.inbound.chunks != [])
  }

  /** The send loop of a call over a reader of `data`. */
  function WireOf(call: Call, data: Bytes): (w: Wire)
  {
    Wire(Some(call.reader(data)), call.sends, call.contextDone, call.closes)
  }

  datatype Outcome = Failed(code: Code) | Answered | Streaming(inbound: Inbound)

  /** What went over the wire: the data inside the leading message, the payloads, whether the send loop closed the
      stream and whether the stream was still open then, and the data of a unary call. */
  datatype Trace = Trace(inMessage: Bytes, payloads: Bytes, closed: bool, complete: bool, unary: Option<Bytes>)

  const NOTHING := Trace([], [], false, false, None)

  const UNKNOWN := Other(2)

  /** What holds of the bytes of every attempt: they are sent once, in order, and all of them in a complete attempt
      and in a unary call. */
  predicate SendsBody(t: Trace, body: Bytes)
  {
    && t.inMessage == []
    && t.payloads <= body
    && (t.complete ==> t.payloads == body)
    && (t.unary.Some? ==> t.unary.value == body)
  }

  /** Who owns the connection after an attempt: its background reader, which got it together with the response, or the
      caller, through the teardown it received. */
  predicate OneOwner(conn: Connection, t: Teardown, o: Outcome)
    reads conn
  {
    if o.Streaming? then t == Nop && conn.HandedOver() && o.inbound.chunks != [] else t == Of(conn) && conn.CheckedOut()
  }

  /** The code of a call that failed, after the point it reached; an error without a code counts as unknown, 2. */
  function FailureCode(call: Call, canReplay: bool, t: Trace): (code: Code)
  {
    if call.opens.Some? then call.opens.value
    else if !t.closed then call.sendCode
    else if !call.first.ReceiveFailed? then Other(2)
    else if call.first.code != Unimplemented then call.first.code
    else if canReplay && call.unary.Some? then call.unary.value
    else Other(2)
  }

  /** How a call ends: when the response is streamed, when the call falls back to a unary one, which an older sidecar
      asks for, and with which code it fails. Nothing is sent on a stream that does not open, and all of the body on a
      wire on which nothing goes wrong. */
  ghost predicate Chosen(call: Call, body: Bytes, canReplay: bool, t: Trace, o: Outcome)
  {
    && (call.opens.Some? ==> t == NOTHING)
    && (call.opens.None? && Smooth(WireOf(call, body)) ==> t.complete)
    && (t.complete ==> t.closed)
    && (o.Streaming? <==> t.closed && call.first.Leading?)
    && (o.Streaming? ==> o.inbound == call.first.inbound)
    && (t.unary.Some? <==> t.closed && call.first == ReceiveFailed(Unimplemented) && canReplay)
    && (o.Answered? <==> t.unary.Some? && call.unary.None?)
    && (o.Failed? ==> o.code == FailureCode(call, canReplay, t))
  }

  /** `invokeRemoteUnary`, on a request that can be replayed. */
  method InvokeRemoteUnary(req: Request, call: Call) returns (o: Outcome, data: Bytes)
    requires req.Whole() && req.CanReplay()
    modifies req`rest, req`replay
    ensures req.Whole() && req.CanReplay() && data == req.body
    ensures o == if call.unary.Some? then Failed(call.unary.value) else Answered
  {
    data := req.Available();
    if !req.HasMessageData() {
      req.Consume(|data|);
    }
    o := if call.unary.Some? then Failed(call.unary.value) else Answered;
  }

  /** The exchange inside `invokeRemoteStream`, while the message's data is taken out of it. */
  method Exchange(req: Request, conn: Connection, call: Call, data: Bytes, saved: Bytes)
    returns (o: Outcome, t: Teardown, trace: Trace)
    requires conn.CheckedOut() && req.value == [] && data == req.body
    requires if saved != [] then saved == req.body else req.Whole()
    requires Sound(call) && call.opens.None?
    modifies req, conn`reading
    ensures OneOwner(conn, t, o) && SendsBody(trace, req.body)
    ensures Chosen(call, req.body, saved != [] || req.replay.Some?, trace, o)
    ensures saved != [] ==> req.value == [] || req.value == saved
    ensures saved == [] ==> req.value == [] && req.replay.Some? == old(req.replay.Some?)
    ensures saved == [] && req.replay.Some? ==> req.Whole()
  {
    t, trace := Of(conn), NOTHING.(inMessage := req.value);
    var sent, result := SendRequest(WireOf(call, data));
    if saved == [] {
      var n := |Body(sent)| + call.readAhead;
      req.Consume(if n < |req.Available()| then n else |req.Available()|);
    }
    trace := trace.(payloads := Body(sent), closed := result.Closed?, complete := result == Closed(false));
    if !result.Closed? {
      return Failed(call.sendCode), t, trace;
    }
    if call.first.ReceiveFailed? {
      if call.first.code != Unimplemented {
        return Failed(call.first.code), t, trace;
      }
      if saved != [] {
        req.value := saved;
      }
      if !req.CanReplay() {
        return Failed(UNKNOWN), t, trace;
      }
      var data;
      o, data := InvokeRemoteUnary(req, call);
      return o, t, trace.(unary := Some(data));
    }
    if !call.first.Leading? {
      return Failed(UNKNOWN), t, trace;
    }
    conn.reading := true;
    return Streaming(call.first.inbound), Nop, trace;
  }

  /** `invokeRemoteStream`: whichever way it returns, the connection has one owner, and the data taken out of the
      message is back in it. */
  method InvokeRemoteStream(req: Request, conn: Connection, call: Call) returns (o: Outcome, t: Teardown, trace: Trace)
    requires conn.CheckedOut() && req.Whole() && Sound(call)
    modifies req, conn`reading
    ensures OneOwner(conn, t, o) && SendsBody(trace, req.body)
    ensures Chosen(call, req.body, req.CanReplay(), trace, o)
    ensures req.value == old(req.value) && req.CanReplay() == old(req.CanReplay())
    ensures req.CanReplay() ==> req.Whole()
  {
    if call.opens.Some? {
      return Failed(call.opens.value), Of(conn), NOTHING;
    }
    var data := req.Available();
    var saved := req.value;
    req.value := [];
    o, t, trace := Exchange(req, conn, call, data, saved);
    if saved != [] {
      req.value := saved;
    }
  }

  /** How the connection of an attempt is made: it may fail, with or without a teardown to be called. */
  datatype Dial = Connects | Refused(code: Code, withTeardown: bool)

  datatype Attempt = Attempt(dial: Dial, call: Call)

  /** An attempt that was made: its connection, if it got one, how it ended and what it sent. */
  datatype Record = Record(conn: Connection?, outcome: Outcome, trace: Trace)

  /** The record is what comes of the attempt. */
  ghost predicate Met(a: Attempt, body: Bytes, canReplay: bool, r: Record)
  {
    if a.dial.Refused? then
      r.outcome == Failed(a.dial.code) && r.trace == NOTHING && (r.conn != null <==> a.dial.withTeardown)
    else r.conn != null && Chosen(a.call, body, canReplay, r.trace, r.outcome)
  }

  /** `invokeRemote`: a connection is made, and it has one owner whatever happens. */
  method InvokeOnce(req: Request, a: Attempt) returns (conn: Connection?, o: Outcome, t: Teardown, trace: Trace)
    requires req.Whole() && Sound(a.call)
    modifies req
    ensures conn == null ==> t == Nop && o.Failed?
    ensures conn != null ==> fresh(conn) && OneOwner(conn, t, o)
    ensures SendsBody(trace, req.body)
    ensures Met(a, req.body, req.CanReplay(), Record(conn, o, trace))
    ensures req.value == old(req.value) && req.CanReplay() == old(req.CanReplay())
    ensures req.CanReplay() ==> req.Whole()
  {
    if a.dial.Refused? && !a.dial.withTeardown {
      return null, Failed(a.dial.code), Nop, NOTHING;
    }
    conn := new Connection();
    if a.dial.Refused? {
      return conn, Failed(a.dial.code), Of(conn), NOTHING;
    }
    o, t, trace := InvokeRemoteStream(req, conn, a.call);
  }

  /** The failures after which the connection is destroyed and the call is tried again. */
  predicate Transient(o: Outcome)
  {
    o.Failed? && (o.code.Unavailable? || o.code.Unauthenticated?)
  }

  /** The call failed with a code that says that the other side is not there or does not know this one. */
  predicate WorthAnother(o: Outcome)
  {
    o == Failed(Unavailable) || o == Failed(Unauthenticated)
  }

  /** The connection was released once, unless a reader still has it, and destroyed only after a transient failure that
      the built-in policy handles. */
  predicate Settled(r: Record, builtIn: bool)
    reads if r.conn == null then {} else {r.conn}
  {
    if r.outcome.Streaming? then r.conn != null && r.conn.HandedOver() && r.outcome.inbound.chunks != []
    else r.conn != null ==> r.conn.Released(builtIn && WorthAnother(r.outcome))
  }

  /** One attempt of `invokeWithRetry` and the teardown that follows it. */
  method AttemptAndTearDown(req: Request, a: Attempt, builtIn: bool) returns (r: Record)
    requires req.Whole() && Sound(a.call)
    modifies req
    ensures r.conn != null ==> fresh(r.conn)
    ensures Settled(r, builtIn) && SendsBody(r.trace, req.body) && Met(a, req.body, req.CanReplay(), r)
    ensures req.value == old(req.value) && req.CanReplay() == old(req.CanReplay())
    ensures req.CanReplay() ==> req.Whole()
  {
    var conn, o, t, trace := InvokeOnce(req, a);
    CallTeardown(t, builtIn && Transient(o));
    r := Record(conn, o, trace);
  }

  /** Each attempt got its own connection. */
  ghost predicate Distinct(log: seq<Record>)
  {
    forall i, j :: 0 <= i < j < |log| && log[i].conn != null ==> log[i].conn != log[j].conn
  }

  /** What is known of each attempt under the built-in policy. */
  ghost predicate Attempted(a: Attempt, body: Bytes, r: Record)
    reads if r.conn == null then {} else {r.conn}
  {
    Settled(r, true) && SendsBody(r.trace, body) && Met(a, body, true, r)
  }

  /** The attempts under the built-in policy: only transient failures are tried again, until there are no more attempts. */
  method Retry(req: Request, attempts: seq<Attempt>) returns (log: seq<Record>)
    requires req.Whole() && req.CanReplay() && attempts != []
    requires forall a <- attempts :: Sound(a.call)
    modifies req
    ensures 0 < |log| <= |attempts| && Distinct(log)
    ensures forall i :: 0 <= i < |log| ==> Settled(log[i], true) && SendsBody(log[i].trace, req.body)
    ensures forall i :: 0 <= i < |log| ==> Met(attempts[i], req.body, true, log[i])
    ensures forall i :: 0 <= i < |log| && log[i].conn != null ==> fresh(log[i].conn)
    ensures forall i :: 0 <= i < |log| - 1 ==> WorthAnother(log[i].outcome)
    ensures WorthAnother(log[|log| - 1].outcome) ==> |log| == |attempts|
    ensures req.value == old(req.value) && req.CanReplay()
  {
    log := [];
    while |log| < |attempts|
      invariant |log| <= |attempts| && Distinct(log)
      invariant req.value == old(req.value) && req.Whole() && req.CanReplay()
      invariant forall i :: 0 <= i < |log| ==> Attempted(attempts[i], req.body, log[i]) && WorthAnother(log[i].outcome)
      invariant forall i :: 0 <= i < |log| && log[i].conn != null ==> fresh(log[i].conn)
    {
      var a := attempts[|log|];
      var r := AttemptAndTearDown(req, a, true);
      log := log + [r];
      if !Transient(r.outcome) {
        return;
      }
    }
  }

  /** The built-in policy applies: no policy is configured for the app, and the request is not a streaming one. */
  predicate BuiltIn(req: Request, policyDefined: bool)
  {
    !policyDefined && !req.streaming
  }

  /** `invokeWithRetry`: over all attempts, every connection is released exactly once, or left to its reader; each
      attempt sends the same body; and only transient failures are tried again. */
  method InvokeWithRetry(req: Request, attempts: seq<Attempt>, policyDefined: bool) returns (log: seq<Record>)
    requires req.Whole() && attempts != []
    requires forall a <- attempts :: Sound(a.call)
    modifies req
    ensures 0 < |log| <= (if BuiltIn(req, policyDefined) then |attempts| else 1) && Distinct(log)
    ensures forall i :: 0 <= i < |log| ==>
              Settled(log[i], BuiltIn(req, policyDefined)) && SendsBody(log[i].trace, req.body)
    ensures forall i :: 0 <= i < |log| ==> Met(attempts[i], req.body, req.CanReplay(), log[i])
    ensures forall i :: 0 <= i < |log| && log[i].conn != null ==> fresh(log[i].conn)
    ensures forall i :: 0 <= i < |log| - 1 ==> WorthAnother(log[i].outcome)
    ensures BuiltIn(req, policyDefined) && WorthAnother(log[|log| - 1].outcome) ==> |log| == |attempts|
    ensures req.value == old(req.value)
    ensures req.CanReplay() == (BuiltIn(req, policyDefined) || old(req.CanReplay()))
  {
    if !policyDefined && !req.streaming {
      req.WithReplay();
      log := Retry(req, attempts);
    } else {
      var r := AttemptAndTearDown(req, attempts[0], false);
      log := [r];
    }
  }

  /** An invocation to its end, the background reader of its response included: every connection that was checked out
      has been released exactly once, and the caller has read a prefix of the response, all of it if it was told so. */
  method InvokeToTheEnd(req: Request, attempts: seq<Attempt>, policyDefined: bool)
    returns (log: seq<Record>, delivered: Bytes, clean: bool)
    requires req.Whole() && attempts != []
    requires forall a <- attempts :: Sound(a.call)
    modifies req
    ensures log != [] && req.value == old(req.value)
    ensures forall i :: 0 <= i < |log| && log[i].conn != null ==>
              fresh(log[i].conn) && log[i].conn.Released(BuiltIn(req, policyDefined) && WorthAnother(log[i].outcome))
    ensures Distinct(log)
    ensures forall i :: 0 <= i < |log| ==> SendsBody(log[i].trace, req.body)
    ensures var last := log[|log| - 1].outcome;
            if last.Streaming? then
              var i := last.inbound;
              && i.chunks != [] && delivered <= Body(i.chunks) && (clean ==> delivered == Body(i.chunks))
              && (clean <==> i.ends && WellFormed(i.chunks) && Undisturbed(i, i.chunks, 0))
            else delivered == [] && !clean
  {
    log := InvokeWithRetry(req, attempts, policyDefined);
    delivered, clean := [], false;
    var last := log[|log| - 1];
    if last.outcome.Streaming? {
      delivered, clean := last.conn.ReadInBackground(last.outcome.inbound);
    }
  }
}
