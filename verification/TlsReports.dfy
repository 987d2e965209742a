/** What the operations of the OpenSSL stream report: the errors of flush and network read,
    and for each operation which status comes out, from the last engine call and what the
    network did after it. */
module TlsReports {
  import opened Basics
  import opened TlsPump

  // ------------------------------------------------------------------ one flush

  /** How many writes `n` queued bytes take. */
  function Writes(n: nat): nat {
    if n == 0 then 0 else 1 + Writes(n - Min(n, BUFFER_SIZE))
  }

  lemma {:induction false} WritesIs(n: nat)
    ensures n <= Writes(n) * BUFFER_SIZE
    ensures n > 0 ==> (Writes(n) - 1) * BUFFER_SIZE < n
  {
    if n > 0 { WritesIs(n - Min(n, BUFFER_SIZE)); }
  }

  /** How many network replies in a row complete. */
  function Completed(net: seq<NetReply>): (k: nat)
    ensures k <= |net| && (forall i | 0 <= i < k :: net[i].Completes?) && (k < |net| ==> !net[k].Completes?)
  {
    if net == [] || !net[0].Completes? then 0 else 1 + Completed(net[1..])
  }

  /** A flush succeeds when the network completes all its writes, reports the error of the
      first that fails, and is suspended when the network is. */
  lemma {:induction false} FlushReports(w: Link)
    ensures var s, k := Flush(w).1, Completed(w.net);
            && (s == Ok <==> Writes(|w.out|) <= k)
            && (s == Pending <==> k == |w.net| && k < Writes(|w.out|))
            && (forall e :: s == Err(e) <==>
                  && k < |w.net| && k < Writes(|w.out|)
                  && (w.net[k] == LockFails(e) || (w.net[k].Fails? && w.net[k].error == e)))
    decreases |w.out|
  {
    if w.out != [] && w.net != [] && w.net[0].Completes? { FlushReports(Written(Taken(w))); }
  }

  /** How many of `n` queued bytes the network takes. */
  function Sendable(n: nat, net: seq<NetReply>): (k: nat)
    ensures k <= n
  {
    if n == 0 || net == [] then 0
    else
      var chunk := Min(n, BUFFER_SIZE);
      match net[0]
      case LockFails(_) => 0
      case Fails(_, k) => Min(k, chunk)
      case Completes(_, _) => chunk + Sendable(n - chunk, net[1..])
  }

  lemma SentOne(w: Link)
    requires w.out != [] && w.net != []
    ensures var v, k := Written(Taken(w)), Min(|w.out|, BUFFER_SIZE);
            && v.net == w.net[1..] && v.out == w.out[k..]
            && v.sent == w.sent + match w.net[0]
                                  case LockFails(_) => []
                                  case Fails(_, n) => w.out[..Min(n, k)]
                                  case Completes(_, _) => w.out[..k]
  {
    if w.net[0].Fails? {
      var k, n := Min(|w.out|, BUFFER_SIZE), w.net[0].sent;
      assert w.out[..k][..Min(n, k)] == w.out[..Min(n, k)];
    } else if w.net[0].LockFails? {
      assert w.sent == w.sent + [];
    }
  }

  lemma Split(a: Bytes, b: Bytes, k: nat, m: nat)
    requires k + m <= |b|
    ensures (a + b[..k]) + b[k..][..m] == a + b[..k + m]
  {
  }

  /** A flush sends exactly what the network takes, also when it fails. */
  lemma {:induction false} FlushSends(w: Link)
    ensures Flush(w).0.sent == w.sent + w.out[..Sendable(|w.out|, w.net)]
    decreases |w.out|
  {
    hide Written;
    if w.out == [] || w.net == [] {
      assert w.sent + w.out[..0] == w.sent;
    } else {
      SentOne(w);
      if w.net[0].Completes? {
        var k := Min(|w.out|, BUFFER_SIZE);
        FlushSends(Written(Taken(w)));
        Split(w.sent, w.out, k, Sendable(|w.out| - k, w.net[1..]));
      }
    }
  }

  // ------------------------------------------------------ one read, one engine call

  /** A network read reports the error of the network, or that the queue is full; what the
      queue takes is the front of the data, and it takes all unless it is full. */
  lemma NetworkRead(w: Link)
    ensures var (v, s) := ReadInput(w);
            && (s == Pending <==> w.net == [])
            && (w.net != [] && w.net[0].LockFails? ==> s == Err(w.net[0].lockError))
            && (w.net != [] && w.net[0].Fails? ==> s == Err(w.net[0].error))
            && (w.net != [] && !w.net[0].Completes? ==> v.inp == w.inp && v.received == w.received)
            && (w.net != [] && w.net[0].Completes? ==>
                  var d := w.net[0].data[..Min(|w.net[0].data|, BUFFER_SIZE)];
                  && v.received == w.received + d
                  && (s == Ok <==> |d| <= w.net[0].room) && (s != Ok ==> s == Err(NoBufferSpace))
                  && v.inp == w.inp + d[..Min(w.net[0].room, |d|)])
  {
  }

  /** An engine call takes what it asked for, as far as it is there, from the front of the
      input, adds its output at the end, and leaves the session it reports. */
  lemma EngineCall(w: Link)
    requires w.engine != []
    ensures var r, v := w.engine[0], Call(w);
            && v.engine == w.engine[1..] && v.net == w.net
            && v.out == w.out + r.output && v.produced == w.produced + r.output
            && v.consumed + v.inp == w.consumed + w.inp
            && |v.inp| == |w.inp| - Min(r.taken, |w.inp|)
            && (v.session <==> w.live && r.session)
  {
    var k := Min(w.engine[0].taken, |w.inp|);
    assert (w.consumed + w.inp[..k]) + w.inp[k..] == w.consumed + w.inp;
  }

  function Outputs(rs: seq<Reply>): Bytes {
    if rs == [] then [] else rs[0].output + Outputs(rs[1..])
  }

  /** The engine's output of an operation is that of its calls, in order. */
  lemma {:induction false} DriveProduces(op: Operation, w: Link)
    ensures var v := Drive(op, w).0;
            |v.engine| <= |w.engine| && v.produced == w.produced + Outputs(Consumed(w, v))
    decreases |w.engine|, 0
  {
    hide Flush, FlushRead, Act;
    DriveReads(op, w);
    if w.engine == [] {
      assert w.produced == w.produced + [];
    } else {
      var r, v := w.engine[0], Call(w);
      var z := Drive(op, w).0;
      FlushKeepsEngine(v);
      FlushReadProduces(op, v, r);
      assert Consumed(w, z) != [] ==> Consumed(w, z)[0] == r;
      match Act(op, r)
      case Return(s) => OneOutput(w, z);
      case Finish => OneOutput(w, z);
      case FlushOnly => if Flush(v).1 == Ok { MoreOutputs(op, w, Flush(v).0); } else { OneOutput(w, z); }
      case FlushAndRead =>
        if FlushRead(op, v, r).1 == Ok { MoreOutputs(op, w, FlushRead(op, v, r).0); } else { OneOutput(w, z); }
    }
  }

  lemma FlushReadProduces(op: Operation, w: Link, r: Reply)
    ensures var v := FlushRead(op, w, r).0; v.produced == w.produced && v.engine == w.engine
  {
    hide Flush;
    FlushKeepsEngine(w);
  }

  lemma OneOutput(w: Link, v: Link)
    requires w.engine != [] && v.engine == w.engine[1..]
    ensures Outputs(Consumed(w, v)) == w.engine[0].output
  {
    assert Consumed(w, v) == [w.engine[0]] && [w.engine[0]][1..] == [];
    assert w.engine[0].output + [] == w.engine[0].output;
  }

  lemma {:induction false} MoreOutputs(op: Operation, w: Link, u: Link)
    requires w.engine != [] && u.engine == w.engine[1..] && u.produced == w.produced + w.engine[0].output
    ensures var v := Drive(op, u).0;
            |v.engine| < |w.engine| && v.produced == w.produced + Outputs(Consumed(w, v))
    decreases |u.engine|, 1
  {
    hide Drive, Flush, Act;
    DriveProduces(op, u);
    var v := Drive(op, u).0;
    assert Consumed(w, v)[0] == w.engine[0] && Consumed(w, v)[1..] == Consumed(u, v);
    assert (w.produced + w.engine[0].output) + Outputs(Consumed(u, v)) ==
      w.produced + (w.engine[0].output + Outputs(Consumed(u, v)));
  }

  // ------------------------------------------------------------ the last engine call

  /** The state in which the loop comes round again after reply `r`. */
  function Again(op: Operation, r: Reply, v: Link): Option<Link> {
    if Flush(v).1 != Ok then None
    else if r.code == WantWrite then Some(Flush(v).0)
    else if r.code == WantRead || (op == Shutdown && r.code == Partial) then
      if ReadInput(Flush(v).0).1 == Ok then Some(ReadInput(Flush(v).0).0) else None
    else None
  }

  lemma AgainKeeps(op: Operation, r: Reply, v: Link)
    ensures var a := Again(op, r, v); a.Some? ==> a.value.engine == v.engine
  {
    hide Flush;
    FlushKeepsEngine(v);
  }

  /** The state before the last engine call that an operation makes. */
  function LastState(op: Operation, w: Link): (v: Link)
    requires w.engine != []
    ensures v.engine != []
    decreases |w.engine|
  {
    var a := Again(op, w.engine[0], Call(w));
    AgainKeeps(op, w.engine[0], Call(w));
    if a.Some? && a.value.engine != [] then LastState(op, a.value) else w
  }

  lemma {:induction false} SameFromLast(op: Operation, w: Link)
    requires w.engine != []
    ensures var l := LastState(op, w);
            Drive(op, w) == Drive(op, l) &&
            (Again(op, l.engine[0], Call(l)).Some? ==> Again(op, l.engine[0], Call(l)).value.engine == [])
    decreases |w.engine|
  {
    hide Flush, ReadInput, Call;
    var r, v := w.engine[0], Call(w);
    var a := Again(op, r, v);
    AgainKeeps(op, r, v);
    CallKeeps(w);
    if a.Some? && a.value.engine != [] { SameFromLast(op, a.value); }
  }

  // ---------------------------------------------------------------- what is reported

  /** A read. `r` is its last reply, `f` how the flush after it ended, `t` how the network
      read after that ended. Only a close_notify makes an end of file. */
  lemma ReadReports(w: Link)
    requires w.engine != []
    ensures var l := LastState(Read, w);
            var r, u := l.engine[0], Call(l);
            var f, t, s := Flush(u).1, ReadInput(Flush(u).0).1, Drive(Read, w).1;
            var wants := r.code == WantRead || r.code == WantWrite;
            && (s == Err(Eof) <==>
                  || r.code == ZeroReturn
                  || (r.code == WantRead && f == Ok && t == Err(Eof) && r.peerClosed)
                  || (wants && f == Err(Eof)))
            && (s == Err(StreamTruncated) <==>
                  || (r.code == Syscall && r.error == 0)
                  || (r.code == WantRead && f == Ok && t == Err(Eof) && !r.peerClosed)
                  || (r.code == WantRead && f == Ok && t == Err(StreamTruncated))
                  || (wants && f == Err(StreamTruncated)))
            && (forall e | e != Eof && e != StreamTruncated :: s == Err(e) <==>
                  || (r.code in {Partial, Syscall, Failure} && r.error != 0 && e == OtherError(r.error))
                  || (r.code == WantRead && f == Ok && t == Err(e))
                  || (wants && f == Err(e)))
            && (s == Ok <==> r.code == Complete || (r.code in {Partial, Failure} && r.error == 0))
  {
    hide Flush, ReadInput, Call, LastState;
    SameFromLast(Read, w);
    OneRound(Read, LastState(Read, w));
  }

  /** A shutdown. A peer that closes without an answer is a truncated stream, and any other
      error comes out as it is. */
  lemma ShutdownReports(w: Link)
    requires w.engine != []
    ensures var l := LastState(Shutdown, w);
            var r, u := l.engine[0], Call(l);
            var f, t, s := Flush(u).1, ReadInput(Flush(u).0).1, Drive(Shutdown, w).1;
            var asks := r.code == WantRead || r.code == Partial;
            var closed := t in {Err(Eof), Err(ConnectionReset), Err(ConnectionAborted), Err(BrokenPipe)};
            var flushes := asks || r.code == WantWrite || r.code == Complete;
            && (forall e :: s == Err(e) <==>
                  || (flushes && f == Err(e))
                  || (asks && f == Ok && closed && e == StreamTruncated)
                  || (asks && f == Ok && !closed && t == Err(e))
                  || (!flushes && r.error != 0 && e == OtherError(r.error)))
            && (s == Ok <==> (r.code == Complete && f == Ok) || (!flushes && r.error == 0))
  {
    hide Flush, ReadInput, Call, LastState;
    SameFromLast(Shutdown, w);
    OneRound(Shutdown, LastState(Shutdown, w));
  }

  /** A handshake or a write. Every error comes out as it is. */
  lemma OthersReport(op: Operation, w: Link)
    requires w.engine != [] && (op == Handshake || op == Write)
    ensures var l := LastState(op, w);
            var r, u := l.engine[0], Call(l);
            var f, t, s := Flush(u).1, ReadInput(Flush(u).0).1, Drive(op, w).1;
            var flushes := r.code == WantRead || r.code == WantWrite || r.code == Complete;
            && (forall e :: s == Err(e) <==>
                  || (flushes && f == Err(e))
                  || (r.code == WantRead && f == Ok && t == Err(e))
                  || (!flushes && r.error != 0 && e == OtherError(r.error)))
            && (s == Ok <==> (r.code == Complete && f == Ok) || (!flushes && r.error == 0))
  {
    hide Flush, ReadInput, Call, LastState;
    SameFromLast(op, w);
    OneRound(op, LastState(op, w));
  }

  /** The status of an operation whose loop does not come round again. */
  lemma OneRound(op: Operation, l: Link)
    requires l.engine != []
    requires Again(op, l.engine[0], Call(l)).Some? ==> Again(op, l.engine[0], Call(l)).value.engine == []
    ensures var r, u := l.engine[0], Call(l);
            var f, t, s := Flush(u).1, ReadInput(Flush(u).0).1, Drive(op, l).1;
            match Act(op, r)
            case Return(x) => s == x
            case Finish => s == f
            case FlushOnly => s == if f == Ok then Pending else f
            case FlushAndRead =>
              s == if f != Ok then f else if t.Err? then Err(ReadError(op, t.error, r.peerClosed)) else Pending
  {
    hide Flush, ReadInput, Call;
    AgainKeeps(op, l.engine[0], Call(l));
  }
}
