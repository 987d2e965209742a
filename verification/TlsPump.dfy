/** The pump of the OpenSSL stream: the engine behind a pair of byte queues, and the
    flush/read cycle that every TLS operation goes through. The engine and the network
    are arbitrary: each is a finite list of replies, so a list that runs out is an
    operation that is still suspended. */
module TlsPump {
  import opened Basics

  type Bytes = seq<Byte>

  /** A read or write that completes moves at least one plain byte. */
  type Plain = b: Bytes | |b| > 0 witness [0]

  const BUFFER_SIZE: nat := 16384

  datatype Error =
    | Eof | StreamTruncated | NoBufferSpace | InvalidArgument
    | ConnectionReset | ConnectionAborted | BrokenPipe | OtherError(value: nat)

  datatype Status = Ok | Err(error: Error) | Pending

  /** What an engine call reports; `Partial` is the zero of SSL_shutdown. */
  datatype Code = Complete | Partial | WantRead | WantWrite | ZeroReturn | Syscall | Failure

  /** One engine call: it takes bytes from the incoming queue and adds `output` to the
      outgoing one. `plain` are the plain bytes of a call that completes, `error` the value of the
      error code made from the error queue (zero when the queue is empty). */
  datatype Reply = Reply(code: Code, taken: nat, output: Bytes, plain: Plain, error: nat,
                         peerClosed: bool, session: bool, negotiated: Bytes)

  /** What the lock and the underlying stream do for one write or read. */
  datatype NetReply =
    | LockFails(lockError: Error)
    | Fails(error: Error, sent: nat)
    | Completes(data: Bytes, room: nat)

  datatype Operation = Handshake | Read | Write | Shutdown

  /** `out` and `inp` are the two directions of the BIO pair, `session` the engine's
      resumable session, kept once a handshake was asked for (`live`). The rest is history:
      bytes sent, taken out of `out` but not sent (`held`), produced by the engine; bytes
      in `inp` at the last reset (`carried`), received since, refused by `inp` (`spill`),
      consumed by the engine; the length of `out` at each network read; the last reply. */
  datatype Link = Link(
    out: Bytes, inp: Bytes, live: bool, session: bool,
    engine: seq<Reply>, net: seq<NetReply>,
    sent: Bytes, held: Bytes, produced: Bytes,
    carried: Bytes, received: Bytes, spill: Bytes, consumed: Bytes,
    backlog: seq<nat>, last: Option<Reply>)

  function Min(a: nat, b: nat): nat { if a < b then a else b }

  // --------------------------------------------------------------- the steps

  function Call(w: Link): Link
    requires w.engine != []
  {
    var r := w.engine[0];
    var k := Min(r.taken, |w.inp|);
    w.(engine := w.engine[1..], inp := w.inp[k..], consumed := w.consumed + w.inp[..k],
       out := w.out + r.output, produced := w.produced + r.output,
       session := w.live && r.session, last := Some(r))
  }

  /** One buffer full from the outgoing queue. */
  function Taken(w: Link): Link {
    var k := Min(|w.out|, BUFFER_SIZE);
    w.(held := w.out[..k], out := w.out[k..])
  }

  /** What one write sends of the bytes held. */
  function Written(w: Link): Link
    requires w.net != []
  {
    var v := w.(net := w.net[1..]);
    match w.net[0]
    case LockFails(e) => v
    case Fails(e, n) => Sent(v, Min(n, |v.held|))
    case Completes(_, _) => v.(sent := v.sent + v.held, held := [])
  }

  /** `k` of the held bytes go out. */
  function Sent(w: Link, k: nat): Link
    requires k <= |w.held|
  {
    w.(sent := w.sent + w.held[..k], held := w.held[k..])
  }

  /** Sends until the outgoing queue is empty. */
  function Flush(w: Link): (Link, Status)
    decreases |w.out|
  {
    if w.out == [] then (w, Ok)
    else if w.net == [] then (Taken(w), Pending)
    else
      var v := Written(Taken(w));
      match w.net[0]
      case LockFails(e) => (v, Err(e))
      case Fails(e, n) => (v, Err(e))
      case Completes(_, _) => Flush(v)
  }

  /** One network read into the incoming queue. */
  function ReadInput(w: Link): (Link, Status) {
    var v := w.(backlog := w.backlog + [|w.out|]);
    if w.net == [] then (v, Pending)
    else
      var u := v.(net := w.net[1..]);
      match w.net[0]
      case LockFails(e) => (u, Err(e))
      case Fails(e, _) => (u, Err(e))
      case Completes(data, room) =>
        var d := data[..Min(|data|, BUFFER_SIZE)];
        var k := Min(room, |d|);
        (u.(inp := u.inp + d[..k], received := u.received + d, spill := d[k..]),
         if k < |d| then Err(NoBufferSpace) else Ok)
  }

  datatype Action = Finish | FlushOnly | FlushAndRead | Return(status: Status)

  /** An error code of value zero is no error. */
  function Made(error: nat): Status { if error == 0 then Ok else Err(OtherError(error)) }

  function Act(op: Operation, r: Reply): Action {
    match r.code
    case Complete => if op == Read then Return(Ok) else Finish
    case WantWrite => FlushOnly
    case WantRead => FlushAndRead
    case Partial => if op == Shutdown then FlushAndRead else Return(Made(r.error))
    case ZeroReturn => if op == Read then Return(Err(Eof)) else Return(Made(r.error))
    case Syscall => if op == Read && r.error == 0 then Return(Err(StreamTruncated)) else Return(Made(r.error))
    case Failure => Return(Made(r.error))
  }

  /** How an operation reports an error of its network read. */
  function ReadError(op: Operation, e: Error, peerClosed: bool): Error {
    match op
    case Read => if e != Eof then e else if peerClosed then Eof else StreamTruncated
    case Shutdown => if e in {Eof, ConnectionReset, ConnectionAborted, BrokenPipe} then StreamTruncated else e
    case _ => e
  }

  /** Flush, then read, as one operation does after WANT_READ. */
  function FlushRead(op: Operation, w: Link, r: Reply): (Link, Status) {
    var (v, s) := Flush(w);
    if s != Ok then (v, s) else
    var (u, t) := ReadInput(v);
    (u, if t.Err? then Err(ReadError(op, t.error, r.peerClosed)) else t)
  }

  /** The loop of an operation. */
  function Drive(op: Operation, w: Link): (Link, Status)
    decreases |w.engine|
  {
    if w.engine == [] then (w, Pending)
    else
      var r, v := w.engine[0], Call(w);
      match Act(op, r)
      case Return(s) => (v, s)
      case Finish => Flush(v)
      case FlushOnly =>
        var (u, s) := Flush(v);
        if s != Ok then (u, s) else FlushKeepsEngine(v); Drive(op, u)
      case FlushAndRead =>
        var (u, s) := FlushRead(op, v, r);
        if s != Ok then (u, s) else FlushKeepsEngine(v); Drive(op, u)
  }

  lemma {:induction false} FlushKeepsEngine(w: Link)
    ensures var v := Flush(w).0;
            v == w.(net := v.net, out := v.out, sent := v.sent, held := v.held)
    decreases |w.out|
  {
    if w.out != [] && w.net != [] && w.net[0].Completes? {
      FlushKeepsEngine(Written(Taken(w)));
    }
  }

  // -------------------------------------------------------------- conservation

  /** The engine's output is what was sent, then what is held, then what is queued. */
  predicate Delivered(w: Link) { w.sent + w.held + w.out == w.produced }

  /** What a reset left queued and what was received since is what the engine consumed,
      then what is queued, then what the queue refused. */
  predicate Fed(w: Link) { w.consumed + w.inp + w.spill == w.carried + w.received }

  lemma TakenDelivers(w: Link)
    requires Delivered(w) && w.held == []
    ensures Delivered(Taken(w))
  {
    var t := Taken(w);
    assert w.sent + [] + w.out == w.sent + t.held + t.out;
  }

  lemma SentDelivers(w: Link, k: nat)
    requires Delivered(w) && k <= |w.held|
    ensures Delivered(Sent(w, k)) && w.sent <= Sent(w, k).sent
  {
    var v := Sent(w, k);
    assert v.sent + v.held + v.out == w.sent + w.held + w.out;
  }

  lemma {:induction false} FlushDelivers(w: Link)
    requires Delivered(w) && w.held == []
    ensures var (v, s) := Flush(w);
            && Delivered(v)
            && (s == Ok ==> v.out == [] && v.held == [])
            && w.sent <= v.sent
    decreases |w.out|
  {
    hide Delivered;
    if w.out != [] {
      TakenDelivers(w);
      if w.net != [] {
        WrittenDelivers(Taken(w));
        if w.net[0].Completes? { FlushDelivers(Written(Taken(w))); }
      }
    }
  }

  lemma WrittenDelivers(w: Link)
    requires Delivered(w) && w.net != []
    ensures Delivered(Written(w)) && w.sent <= Written(w).sent
  {
    hide Delivered;
    var v := w.(net := w.net[1..]);
    SameDelivered(w, v);
    match w.net[0]
    case LockFails(e) =>
    case Fails(e, n) => SentDelivers(v, Min(n, |v.held|));
    case Completes(_, _) =>
      SentDelivers(v, |v.held|);
      assert Sent(v, |v.held|) == Written(w);
  }

  lemma SameDelivered(w: Link, v: Link)
    requires v == w.(net := v.net) && Delivered(w)
    ensures Delivered(v)
  {
  }

  lemma CallDelivers(w: Link)
    requires w.engine != [] && Delivered(w) && w.held == []
    ensures Delivered(Call(w)) && Call(w).held == []
  {
    var x := w.engine[0].output;
    assert w.sent + [] + (w.out + x) == (w.sent + [] + w.out) + x;
  }

  lemma CallFeeds(w: Link)
    requires w.engine != [] && Fed(w)
    ensures Fed(Call(w))
  {
    var k := Min(w.engine[0].taken, |w.inp|);
    assert w.inp == w.inp[..k] + w.inp[k..];
    assert (w.consumed + w.inp[..k]) + w.inp[k..] + w.spill == w.consumed + (w.inp[..k] + w.inp[k..]) + w.spill;
  }

  lemma ReadFeeds(w: Link)
    requires Fed(w) && w.spill == []
    ensures var (v, s) := ReadInput(w); Fed(v) && (s == Ok ==> v.spill == [])
  {
    if w.net != [] && w.net[0].Completes? {
      var d := w.net[0].data[..Min(|w.net[0].data|, BUFFER_SIZE)];
      var k := Min(w.net[0].room, |d|);
      assert d == d[..k] + d[k..];
      assert w.consumed + (w.inp + d[..k]) + d[k..] == (w.consumed + w.inp + []) + (d[..k] + d[k..]);
      assert w.carried + (w.received + d) == (w.carried + w.received) + d;
    }
  }

  lemma FlushReadDelivers(op: Operation, w: Link, r: Reply)
    requires Delivered(w) && w.held == []
    ensures var (v, s) := FlushRead(op, w, r); Delivered(v) && (s == Ok ==> v.held == []) && w.sent <= v.sent
  {
    hide Flush;
    FlushDelivers(w);
  }

  lemma FlushReadFeeds(op: Operation, w: Link, r: Reply)
    requires Fed(w) && w.spill == []
    ensures var (v, s) := FlushRead(op, w, r); Fed(v) && (s == Ok ==> v.spill == [])
  {
    hide Flush;
    FlushKeepsEngine(w);
    ReadFeeds(Flush(w).0);
  }

  /** Whatever the engine and the network do: an operation that starts with no bytes held
      back sends the engine's output in order, without gap or repetition, up to the first
      flush that fails. */
  lemma {:induction false} DriveDelivers(op: Operation, w: Link)
    requires Delivered(w) && w.held == []
    ensures var v := Drive(op, w).0; Delivered(v) && w.sent <= v.sent && v.sent <= v.produced
    decreases |w.engine|
  {
    hide Flush, FlushRead, Call;
    if w.engine == [] {
      PrefixDelivered(w);
    } else {
      var r, v := w.engine[0], Call(w);
      CallDelivers(w);
      CallKeeps(w);
      FlushDelivers(v);
      FlushReadDelivers(op, v, r);
      FlushKeepsEngine(v);
      FlushReadKeeps(op, v, r);
      PrefixDelivered(v);
      PrefixDelivered(Flush(v).0);
      PrefixDelivered(FlushRead(op, v, r).0);
      match Act(op, r)
      case Return(s) =>
      case Finish =>
      case FlushOnly => if Flush(v).1 == Ok { DriveDelivers(op, Flush(v).0); }
      case FlushAndRead => if FlushRead(op, v, r).1 == Ok { DriveDelivers(op, FlushRead(op, v, r).0); }
    }
  }

  /** And it feeds the engine the bytes of the network in order, up to the first read that
      the incoming queue cannot take whole. */
  lemma {:induction false} DriveFeeds(op: Operation, w: Link)
    requires Fed(w) && w.spill == []
    ensures Fed(Drive(op, w).0)
    decreases |w.engine|
  {
    hide Flush, FlushRead, Call;
    if w.engine != [] {
      var r, v := w.engine[0], Call(w);
      CallFeeds(w);
      CallKeeps(w);
      FlushReadFeeds(op, v, r);
      FlushKeepsEngine(v);
      FlushReadKeeps(op, v, r);
      match Act(op, r)
      case Return(s) =>
      case Finish =>
      case FlushOnly => if Flush(v).1 == Ok { DriveFeeds(op, Flush(v).0); }
      case FlushAndRead => if FlushRead(op, v, r).1 == Ok { DriveFeeds(op, FlushRead(op, v, r).0); }
    }
  }

  lemma PrefixDelivered(w: Link)
    requires Delivered(w)
    ensures w.sent <= w.produced
  {
    assert w.sent + w.held + w.out == w.sent + (w.held + w.out);
  }

  lemma CallKeeps(w: Link)
    requires w.engine != []
    ensures var v := Call(w);
            && v.engine == w.engine[1..] && v.last == Some(w.engine[0]) && v.backlog == w.backlog
            && v.sent == w.sent && v.spill == w.spill && v.held == w.held && v.live == w.live
            && v.out == w.out + w.engine[0].output
  {
  }

  lemma FlushReadKeeps(op: Operation, w: Link, r: Reply)
    ensures var (v, s) := FlushRead(op, w, r);
            && v.engine == w.engine && v.last == w.last && v.live == w.live && v.session == w.session
            && w.backlog <= v.backlog
            && (forall i | |w.backlog| <= i < |v.backlog| :: v.backlog[i] == 0)
            && (s == Ok ==> v.out == [] && |v.backlog| == |w.backlog| + 1)
  {
    hide Flush;
    FlushKeepsEngine(w);
    FlushEmpties(w);
  }

  lemma {:induction false} FlushEmpties(w: Link)
    ensures Flush(w).1 == Ok ==> Flush(w).0.out == []
    decreases |w.out|
  {
    if w.out != [] && w.net != [] && w.net[0].Completes? {
      FlushEmpties(Written(Taken(w)));
    }
  }

  // --------------------------------------------------------- reads and endings

  /** How many of the replies ask for a network read. */
  function ReadsAsked(op: Operation, rs: seq<Reply>): nat {
    if rs == [] then 0 else (if Act(op, rs[0]).FlushAndRead? then 1 else 0) + ReadsAsked(op, rs[1..])
  }

  /** The replies an operation consumed. */
  function Consumed(w: Link, v: Link): seq<Reply>
    requires |v.engine| <= |w.engine|
  {
    w.engine[..|w.engine| - |v.engine|]
  }

  /** `v` comes after `w`, and every network read in between started with nothing left
      to send. */
  predicate ReadsClean(w: Link, v: Link) {
    && |v.engine| <= |w.engine| && v.engine == w.engine[|w.engine| - |v.engine|..]
    && w.backlog <= v.backlog
    && forall i | |w.backlog| <= i < |v.backlog| :: v.backlog[i] == 0
  }

  lemma ReadsCleanTrans(w: Link, u: Link, v: Link)
    requires ReadsClean(w, u) && ReadsClean(u, v)
    ensures ReadsClean(w, v)
  {
    forall i | |w.backlog| <= i < |v.backlog| ensures v.backlog[i] == 0 {
      if i < |u.backlog| { assert v.backlog[i] == u.backlog[i]; }
    }
  }

  /** One round of the loop: the engine call and the flush or read after it. */
  lemma RoundReads(op: Operation, w: Link)
    requires w.engine != []
    ensures var r, v := w.engine[0], Call(w);
            && ReadsClean(w, v) && ReadsClean(w, Flush(v).0) && ReadsClean(w, FlushRead(op, v, r).0)
            && v.engine == w.engine[1..] && Flush(v).0.engine == w.engine[1..]
            && FlushRead(op, v, r).0.engine == w.engine[1..]
            && v.backlog == w.backlog && Flush(v).0.backlog == w.backlog
            && (FlushRead(op, v, r).1 == Ok ==> |FlushRead(op, v, r).0.backlog| == |w.backlog| + 1)
  {
    hide Flush, FlushRead, Call;
    CallKeeps(w);
    FlushKeepsEngine(Call(w));
    FlushReadKeeps(op, Call(w), w.engine[0]);
  }

  /** Every network read starts with nothing left to send; a completed operation made one
      read for each reply that asked for one. */
  lemma {:induction false} DriveReads(op: Operation, w: Link)
    ensures var (v, s) := Drive(op, w);
            ReadsClean(w, v) && (s == Ok ==> |v.backlog| == |w.backlog| + ReadsAsked(op, Consumed(w, v)))
    decreases |w.engine|, 0
  {
    hide Flush, FlushRead, Call, ReadsAsked, Consumed, Act, ReadsClean;
    if w.engine == [] {
      assert ReadsClean(w, w) by { CleanSelf(w); }
    } else {
      var r, v := w.engine[0], Call(w);
      RoundReads(op, w);
      match Act(op, r)
      case Return(s) => OneConsumed(op, w, v);
      case Finish => OneConsumed(op, w, Flush(v).0);
      case FlushOnly =>
        var (u, s) := Flush(v);
        if s == Ok { RestReads(op, w, u); }
      case FlushAndRead =>
        var (u, s) := FlushRead(op, v, r);
        if s == Ok { RestReads(op, w, u); }
    }
  }

  lemma CleanSelf(w: Link)
    ensures ReadsClean(w, w)
  {
  }

  lemma {:induction false} RestReads(op: Operation, w: Link, u: Link)
    requires w.engine != [] && u.engine == w.engine[1..] && ReadsClean(w, u)
    ensures var (v, s) := Drive(op, u);
            && ReadsClean(w, v)
            && (s == Ok ==> |v.backlog| == |u.backlog| + ReadsAsked(op, Consumed(w, v)) -
                                           if Act(op, w.engine[0]).FlushAndRead? then 1 else 0)
    decreases |u.engine|, 1
  {
    hide Drive, ReadsAsked, Consumed, Act;
    DriveReads(op, u);
    ReadsCleanTrans(w, u, Drive(op, u).0);
    MoreConsumed(op, w, u, Drive(op, u).0);
  }

  lemma OneConsumed(op: Operation, w: Link, v: Link)
    requires w.engine != [] && v.engine == w.engine[1..]
    ensures Consumed(w, v) == [w.engine[0]]
    ensures ReadsAsked(op, Consumed(w, v)) == if Act(op, w.engine[0]).FlushAndRead? then 1 else 0
  {
    assert Consumed(w, v)[1..] == [];
  }

  lemma MoreConsumed(op: Operation, w: Link, u: Link, v: Link)
    requires w.engine != [] && u.engine == w.engine[1..]
    requires |v.engine| <= |u.engine| && v.engine == u.engine[|u.engine| - |v.engine|..]
    ensures v.engine == w.engine[|w.engine| - |v.engine|..]
    ensures ReadsAsked(op, Consumed(w, v)) ==
            (if Act(op, w.engine[0]).FlushAndRead? then 1 else 0) + ReadsAsked(op, Consumed(u, v))
  {
    assert Consumed(w, v)[1..] == Consumed(u, v);
  }

  predicate Ended(op: Operation, w: Link, v: Link, r: Reply) {
    && (Act(op, r) == Finish || Act(op, r) == Return(Ok))
    && (Act(op, r) == Finish ==> v.out == [])
    && (Act(op, r) != Finish ==> v.out == r.output || v.out == w.out + r.output)
    && (Act(op, r) != Finish && w.out == [] ==> v.out == r.output)
  }

  /** The last engine call of an operation, and what it leaves queued. */
  lemma {:induction false} DriveEnds(op: Operation, w: Link)
    ensures var (v, s) := Drive(op, w);
            s == Ok ==> v.last.Some? && Ended(op, w, v, v.last.value)
    decreases |w.engine|
  {
    hide Flush, FlushRead, Call;
    if w.engine != [] {
      var r, v := w.engine[0], Call(w);
      CallKeeps(w);
      FlushKeepsEngine(v);
      FlushEmpties(v);
      FlushReadKeeps(op, v, r);
      match Act(op, r)
      case Return(s) =>
      case Finish =>
      case FlushOnly => if Flush(v).1 == Ok { DriveEnds(op, Flush(v).0); }
      case FlushAndRead => if FlushRead(op, v, r).1 == Ok { DriveEnds(op, FlushRead(op, v, r).0); }
    }
  }

  /** A successful handshake, write or shutdown leaves nothing to send exactly when it
      ended in a final flush, or in a call without output that reported no error. */
  lemma FinalFlush(op: Operation, w: Link)
    requires op != Read && Drive(op, w).1 == Ok
    ensures var v := Drive(op, w).0;
            && v.last.Some?
            && (v.last.value.code == Complete || Act(op, v.last.value) == Return(Made(0)))
            && (v.last.value.code == Complete ==> v.out == [])
            && (w.out == [] ==> (v.out == [] <==> v.last.value.code == Complete || v.last.value.output == []))
  {
    DriveEnds(op, w);
  }

  /** The reply that ends an operation and the state right after that call, if the
      operation gets there: no flush or read in between fails or stays suspended. */
  function Ending(op: Operation, w: Link): Option<(Reply, Link)>
    decreases |w.engine|
  {
    if w.engine == [] then None
    else
      var r, v := w.engine[0], Call(w);
      match Act(op, r)
      case FlushOnly =>
        var (u, s) := Flush(v);
        if s != Ok then None else FlushKeepsEngine(v); Ending(op, u)
      case FlushAndRead =>
        var (u, s) := FlushRead(op, v, r);
        if s != Ok then None else FlushKeepsEngine(v); Ending(op, u)
      case _ => Some((r, v))
  }

  /** The last reply, if any, does not end the operation. */
  predicate Midway(op: Operation, last: Option<Reply>) {
    last == None || Act(op, last.value) == FlushOnly || Act(op, last.value) == FlushAndRead
  }

  /** An operation's result is decided by its ending alone. */
  lemma {:induction false} DriveByEnding(op: Operation, w: Link)
    requires Midway(op, w.last)
    ensures var (v, s) := Drive(op, w);
            match Ending(op, w)
            case None => s != Ok && Midway(op, v.last)
            case Some((r, u)) =>
              && v.last == Some(r) && u.last == Some(r)
              && (Act(op, r) == Finish || Act(op, r).Return?)
              && (Act(op, r) == Finish ==> (v, s) == Flush(u))
              && (Act(op, r).Return? ==> v == u && s == Act(op, r).status)
    decreases |w.engine|
  {
    hide Flush, FlushRead, Call, Act;
    if w.engine != [] {
      var r, v := w.engine[0], Call(w);
      CallKeeps(w);
      FlushKeepsEngine(v);
      FlushReadKeeps(op, v, r);
      match Act(op, r)
      case Return(s) =>
      case Finish =>
      case FlushOnly => if Flush(v).1 == Ok { DriveByEnding(op, Flush(v).0); }
      case FlushAndRead => if FlushRead(op, v, r).1 == Ok { DriveByEnding(op, FlushRead(op, v, r).0); }
    }
  }

  /** The codes that an operation reports as success when the error queue is empty. For
      shutdown the code means it so after SSL_ERROR_SYSCALL. */
  function SilentCodes(op: Operation): set<Code> {
    match op
    case Read => {Partial, Failure}
    case Shutdown => {ZeroReturn, Syscall, Failure}
    case _ => {Partial, ZeroReturn, Syscall, Failure}
  }

  /** An operation succeeds exactly when it reaches its last call and either the engine
      completes (and, except for a read, the flush after it goes through) or the engine
      fails in one of these ways without leaving an error. */
  lemma Succeeds(op: Operation, w: Link)
    requires Midway(op, w.last)
    ensures var ending := Ending(op, w);
            Drive(op, w).1 == Ok <==>
              && ending.Some?
              && if ending.value.0.code == Complete then op == Read || Flush(ending.value.1).1 == Ok
                 else ending.value.0.code in SilentCodes(op) && ending.value.0.error == 0
  {
    hide Drive, Ending, Flush;
    DriveByEnding(op, w);
  }

  const NO_DATA: Reply := Reply(Failure, 0, [], [0], 0, false, false, [])

  const IDLE: Link := Link([], [], false, false, [], [], [], [], [], [], [], [], [], [], None)

  /** Each of these codes does so, for each operation, with the call's output unsent. */
  lemma SilentFailure(op: Operation, code: Code, output: Bytes)
    requires code in SilentCodes(op)
    ensures var (v, s) := Drive(op, IDLE.(engine := [NO_DATA.(code := code, output := output)]));
            s == Ok && v.last.value.code != Complete && v.out == output
  {
    assert [] + output == output;
  }
}
