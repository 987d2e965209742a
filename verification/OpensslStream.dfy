/** The OpenSSL stream as an object: the loops of its operations, each refining the
    matching step of TlsPump and TlsSession. */
module OpensslStream {
  import opened Basics
  import opened TlsPump
  import opened TlsSession
  import Ipv4Address
  import Ipv6Parser
  import Ipv6Grammar

  method IsIpLiteralText(s: string) returns (b: bool)
    ensures b <==> IsIpLiteral(s)
  {
    var v4, a4 := Ipv4Address.ParseIpv4Address(s, 0);
    var v6, a6 := Ipv6Parser.ParseIpv6Address(s, seq(16, i => 0));
    return v4 || v6;
  }

  class OpensslStream {
    const ctx: Context
    const outBuf: array<Byte>

    // the engine, its settings and the BIO pair
    var out: Bytes
    var inp: Bytes
    var live: bool
    var session: bool
    var settings: Settings
    var offer: Bytes

    // what the engine and the network will do
    var engine: seq<Reply>
    var net: seq<NetReply>

    // the stream's own state
    var used: bool
    var hostname: string
    var alpn: Bytes

    // the abstract stream: its pump, and the rest
    ghost var link: Link
    ghost var st: Stream

    // the plain bytes that the engine accepted
    ghost var accepted: Bytes

    ghost function State(): Stream
      reads this
    {
      st.(link := link)
    }

    /** The fields are those of the abstract stream. */
    ghost predicate Represents()
      reads this`out, this`inp, this`live, this`session, this`settings, this`offer, this`engine, this`net
      reads this`used, this`hostname, this`alpn, this`link, this`st
    {
      && outBuf.Length == BUFFER_SIZE
      && out == link.out && inp == link.inp && live == link.live && session == link.session
      && engine == link.engine && net == link.net
      && settings == st.settings && offer == st.offer
      && used == st.used && hostname == st.hostname && alpn == st.alpn
    }

    constructor (ctx: Context, engine: seq<Reply>, net: seq<NetReply>)
      ensures Represents() && State() == Initial(engine, net) && this.ctx == ctx
      ensures fresh(outBuf) && outBuf.Length == 16384
    {
      this.ctx, this.engine, this.net := ctx, engine, net;
      outBuf := new Byte[BUFFER_SIZE](i => 0);
      out, inp, live, session := [], [], false, false;
      settings, offer := Settings(None, None, None), [];
      used, hostname, alpn := false, "", [];
      link, st, accepted := Initial(engine, net).link, Initial(engine, net), [];
    }

    method SetHostname(name: string)
      requires Represents()
      modifies this`hostname, this`st
      ensures Represents() && State() == Apply(ctx, old(State()), TlsSession.SetHostname(name))
    {
      hostname := name;
      st := st.(hostname := name);
    }

    // -------------------------------------------------------------- the pump

    /** Notes what the operation before left unsent or refused. */
    ghost method BeginOperation()
      requires Represents()
      modifies this`link, this`st
      ensures Represents()
      ensures link == old(link).(last := None)
      ensures st == old(st).(lostOut := old(st.lostOut || link.held != []),
                             lostIn := old(st.lostIn || link.spill != []))
    {
      st := st.(lostOut := st.lostOut || link.held != [], lostIn := st.lostIn || link.spill != []);
      link := link.(last := None);
    }

    method CallEngine() returns (r: Reply)
      requires Represents() && engine != []
      modifies this`engine, this`inp, this`out, this`session, this`link
      ensures Represents() && r == old(engine)[0] && link == Call(old(link))
    {
      r, engine := engine[0], engine[1..];
      inp := inp[Min(r.taken, |inp|)..];
      out := out + r.output;
      session := live && r.session;
      link := Call(link);
    }

    /** Moves a buffer full from the outgoing queue; each read may come up short. */
    method TakeOutput() returns (got: nat)
      requires outBuf.Length == BUFFER_SIZE
      modifies this`out, outBuf
      ensures got == Min(|old(out)|, BUFFER_SIZE)
      ensures outBuf[..got] == old(out)[..got] && out == old(out)[got..]
    {
      got := 0;
      ghost var o := out;
      while |out| > 0 && got < outBuf.Length
        invariant got <= outBuf.Length && got <= |o|
        invariant outBuf[..got] == o[..got] && out == o[got..]
        decreases |out|
      {
        var put := Min(|out|, outBuf.Length - got);
        var r: nat :| 1 <= r <= put;
        forall i | 0 <= i < r { outBuf[got + i] := out[i]; }
        assert forall i | 0 <= i < got :: outBuf[i] == o[i];
        out := out[r..];
        got := got + r;
      }
    }

    method FlushOutput() returns (s: Status)
      requires Represents()
      modifies this`out, this`net, this`link, outBuf
      ensures Represents() && (link, s) == Flush(old(link))
    {
      hide Taken;
      ghost var w := link;
      while |out| > 0
        invariant Represents()
        invariant Flush(link) == Flush(w)
        decreases |out|
      {
        ghost var v := link;
        TakenShrinks(v);
        var got := FillBuffer();
        if net == [] { return Pending; }
        s := WriteBuffer(got);
        if s != Ok { return; }
      }
      return Ok;
    }

    method FillBuffer() returns (got: nat)
      requires Represents()
      modifies this`out, this`link, outBuf
      ensures Represents() && link == Taken(old(link))
      ensures got <= BUFFER_SIZE && outBuf[..got] == link.held
    {
      got := TakeOutput();
      link := link.(held := outBuf[..got], out := out);
    }

    /** Writes the filled part of the buffer under the lock. */
    method WriteBuffer(got: nat) returns (s: Status)
      requires Represents() && net != [] && got <= BUFFER_SIZE && outBuf[..got] == link.held
      modifies this`net, this`link
      ensures Represents() && link == Written(old(link))
      ensures s == match old(net)[0] case LockFails(e) => Err(e) case Fails(e, _) => Err(e) case Completes(_, _) => Ok
    {
      ghost var w := link;
      var reply := net[0];
      net := net[1..];
      ghost var v := w.(net := net);
      match reply {
        case LockFails(e) =>
          link := v;
          return Err(e);
        case Fails(e, n) =>
          ghost var k := Min(n, got);
          link := v.(sent := v.sent + outBuf[..k], held := outBuf[k..got]);
          assert outBuf[..got][..k] == outBuf[..k] && outBuf[..got][k..] == outBuf[k..got];
          return Err(e);
        case Completes(_, _) =>
          link := v.(sent := v.sent + outBuf[..got], held := []);
          return Ok;
      }
    }

    method ReadInput() returns (s: Status)
      requires Represents()
      modifies this`inp, this`net, this`link
      ensures Represents() && (link, s) == TlsPump.ReadInput(old(link))
    {
      link := link.(backlog := link.backlog + [|out|]);
      if net == [] { return Pending; }
      var reply := net[0];
      net := net[1..];
      link := link.(net := net);
      match reply {
        case LockFails(e) => return Err(e);
        case Fails(e, _) => return Err(e);
        case Completes(data, room) =>
          var d := data[..Min(|data|, BUFFER_SIZE)];
          var got := Min(room, |d|);
          inp := inp + d[..got];
          link := link.(inp := inp, received := link.received + d, spill := d[got..]);
          return if got < |d| then Err(NoBufferSpace) else Ok;
      }
    }

    /** The two steps after WANT_READ. */
    method FlushThenRead(op: Operation, r: Reply) returns (s: Status)
      requires Represents()
      modifies this`out, this`inp, this`net, this`link, outBuf
      ensures Represents() && (link, s) == FlushRead(op, old(link), r)
    {
      hide Flush, TlsPump.ReadInput;
      s := FlushOutput();
      if s != Ok { return; }
      s := ReadInput();
      if s.Err? { s := Err(ReadError(op, s.error, r.peerClosed)); }
    }

    /** What an operation does for an engine that wants to write or to read. */
    method ServeEngine(op: Operation, r: Reply) returns (s: Status)
      requires Represents()
      modifies this`out, this`inp, this`net, this`link, outBuf
      ensures Represents() && (link, s) == Served(op, old(link), r)
      ensures link.engine == old(link.engine) && link.last == old(link.last)
    {
      hide Flush, FlushRead;
      FlushKeepsEngine(link);
      FlushReadKeeps(op, link, r);
      if r.code == WantWrite {
        s := FlushOutput();
      } else {
        s := FlushThenRead(op, r);
      }
    }

    // --------------------------------------------------------------- operations

    /** Reads plain data into the first buffer that has room. */
    method DoReadSome(buffers: seq<array<Byte>>) returns (s: Status, n: nat)
      requires Represents() && outBuf !in buffers
      modifies this`engine, this`inp, this`out, this`session, this`net, this`link, this`st, outBuf, buffers
      ensures Represents() && (State(), s) == RunTransfer(old(State()), Read, NoRoom(buffers))
      ensures NoRoom(buffers) ==> s == Ok && n == 0 && State() == old(State())
      ensures !NoRoom(buffers) ==> s == Drive(Read, old(link).(last := None)).1
      ensures forall k | IsFirst(buffers, k) :: n == Count(link.last, buffers[k].Length)
      ensures forall k | IsFirst(buffers, k) :: buffers[k][..] == Filled(old(buffers[k][..]), link.last)
      ensures forall b | b in buffers && !(exists k :: IsFirst(buffers, k) && buffers[k] == b) :: b[..] == old(b[..])
    {
      hide Drive;
      for k := 0 to |buffers|
        invariant Represents() && link == old(link) && st == old(st)
        invariant forall j | 0 <= j < k :: buffers[j].Length == 0
        invariant forall b | b in buffers :: b[..] == old(b[..])
      {
        if buffers[k].Length > 0 {
          assert IsFirst(buffers, k) && forall j | IsFirst(buffers, j) :: j == k;
          BeginOperation();
          s, n := ReadLoop(buffers[k]);
          return;
        }
      }
      return Ok, 0;
    }

    method ReadLoop(dest: array<Byte>) returns (s: Status, n: nat)
      requires Represents() && dest.Length > 0 && dest != outBuf && link.last == None
      modifies this`engine, this`inp, this`out, this`session, this`net, this`link, outBuf, dest
      ensures Represents() && (link, s) == Drive(Read, old(link))
      ensures NotComplete(link.last) ==> n == 0 && dest[..] == old(dest[..])
      ensures !NotComplete(link.last) ==>
                n == Count(link.last, dest.Length) && dest[..] == Filled(old(dest[..]), link.last)
    {
      hide Flush, Call, Drive, Served, Count, Filled;
      n := 0;
      ghost var w := link;
      while true
        invariant Represents() && Drive(Read, link) == Drive(Read, w)
        invariant n == 0 && NotComplete(link.last) && dest[..] == old(dest[..])
        decreases |engine|
      {
        NoReply(link);
        if engine == [] { return Pending, 0; }
        ghost var v := link;
        var r := CallEngine();
        DriveRound(Read, v);
        if r.code == Complete {
          n := Store(dest, r);
          return Ok, n;
        } else if r.code == WantWrite || r.code == WantRead {
          s := ServeEngine(Read, r);
          if s != Ok { return; }
        } else if r.code == ZeroReturn {
          return Err(Eof), 0;
        } else if r.code == Syscall {
          return if r.error == 0 then Err(StreamTruncated) else Made(r.error), 0;
        } else {
          return Made(r.error), 0;
        }
      }
    }

    /** Writes plain data from the first buffer that has some. */
    method DoWriteSome(buffers: seq<Bytes>) returns (s: Status, n: nat)
      requires Represents()
      modifies this`engine, this`inp, this`out, this`session, this`net, this`link, this`st, this`accepted, outBuf
      ensures Represents()
      ensures (forall b | b in buffers :: b == []) ==>
                s == Ok && n == 0 && State() == old(State()) && accepted == old(accepted)
      ensures forall k | IsFirstData(buffers, k) ::
                && (State(), s) == RunTransfer(old(State()), Write, false)
                && s == Drive(Write, old(link).(last := None)).1
                && n == Count(link.last, |buffers[k]|) && accepted == old(accepted) + buffers[k][..n]
    {
      hide Drive;
      for k := 0 to |buffers|
        invariant Represents() && link == old(link) && st == old(st) && accepted == old(accepted)
        invariant forall j | 0 <= j < k :: buffers[j] == []
      {
        if |buffers[k]| > 0 {
          assert buffers[k] in buffers;
          assert IsFirstData(buffers, k) && forall j | IsFirstData(buffers, j) :: j == k;
          BeginOperation();
          ghost var took: Bytes;
          s, n, took := WriteLoop(buffers[k]);
          accepted := accepted + took;
          return;
        }
      }
      return Ok, 0;
    }

    /** The engine takes `took` from the front of `src`. */
    method WriteLoop(src: Bytes) returns (s: Status, n: nat, ghost took: Bytes)
      requires Represents() && src != [] && link.last == None
      modifies this`engine, this`inp, this`out, this`session, this`net, this`link, outBuf
      ensures Represents() && (link, s) == Drive(Write, old(link))
      ensures NotComplete(link.last) ==> n == 0 && took == []
      ensures !NotComplete(link.last) ==> n == Count(link.last, |src|) && took == src[..n]
    {
      hide Flush, Call, Drive, Served;
      n, took := 0, [];
      ghost var w := link;
      while true
        invariant Represents() && Drive(Write, link) == Drive(Write, w)
        invariant n == 0 && NotComplete(link.last) && took == []
        decreases |engine|
      {
        NoReply(link);
        if engine == [] { return Pending, 0, []; }
        ghost var v := link;
        var r := CallEngine();
        DriveRound(Write, v);
        if r.code == Complete {
          n := Min(|r.plain|, |src|);
          took := src[..n];
          s := FlushOutput();
          return;
        } else if r.code == WantWrite || r.code == WantRead {
          s := ServeEngine(Write, r);
          if s != Ok { return; }
        } else {
          return Made(r.error), 0, [];
        }
      }
    }

    method DoShutdown() returns (s: Status)
      requires Represents()
      modifies this`engine, this`inp, this`out, this`session, this`net, this`link, this`st, outBuf
      ensures Represents() && (State(), s) == RunTransfer(old(State()), Shutdown, false)
      ensures s == Drive(Shutdown, old(link).(last := None)).1
    {
      hide Drive;
      BeginOperation();
      s := ShutdownLoop();
    }

    method ShutdownLoop() returns (s: Status)
      requires Represents() && link.last == None
      modifies this`engine, this`inp, this`out, this`session, this`net, this`link, outBuf
      ensures Represents() && (link, s) == Drive(Shutdown, old(link))
    {
      hide Flush, Call, Drive, Served;
      ghost var w := link;
      while true
        invariant Represents() && Drive(Shutdown, link) == Drive(Shutdown, w)
        invariant NotComplete(link.last)
        decreases |engine|
      {
        NoReply(link);
        if engine == [] { return Pending; }
        ghost var v := link;
        var r := CallEngine();
        DriveRound(Shutdown, v);
        if r.code == Complete {
          s := FlushOutput();
          return;
        } else if r.code == Partial {
          s := ServeEngine(Shutdown, r);
          if s != Ok { return; }
        } else if r.code == WantWrite || r.code == WantRead {
          s := ServeEngine(Shutdown, r);
          if s != Ok { return; }
        } else if r.error == 0 && r.code == Syscall {
          return Ok;
        } else {
          return Made(r.error);
        }
      }
    }

    // --------------------------------------------------------------- handshakes

    /** Drops the session, the queued output and the reported protocol. */
    method Reset()
      requires Represents()
      modifies this`out, this`live, this`session, this`alpn, this`used, this`link, this`st
      ensures Represents() && State() == TlsSession.Reset(old(State()))
      ensures !used && !session && !live && out == [] && alpn == []
    {
      live, session := false, false;
      DrainOutput();
      alpn := [];
      used := false;
      link := ResetLink(link);
      st := st.(alpn := [], used := false, attempt := None, lostOut := false, lostIn := false);
    }

    method DrainOutput()
      modifies this`out
      ensures out == []
    {
      while |out| > 0
        decreases |out|
      {
        var limit := Min(|out|, 1024);
        var r: nat :| 1 <= r <= limit;
        out := out[r..];
      }
    }

    method CaptureAlpn(r: Reply)
      requires Represents()
      modifies this`alpn, this`st
      ensures Represents()
      ensures st == old(st).(attempt := Some(r.negotiated),
                             alpn := if r.negotiated == [] then old(st).alpn else r.negotiated)
    {
      if r.negotiated != [] { alpn := r.negotiated; }
      st := st.(attempt := Some(r.negotiated), alpn := alpn);
    }

    /** Applies a peer name, or clears every trace of one. */
    method ApplyHostnameVerification(name: string, setup: Setup) returns (ok: bool)
      requires Represents()
      modifies this`settings, this`st
      ensures Represents()
      ensures (settings, ok) == Settle(ctx, old(settings), name, name != "" && IsIpLiteral(name), setup)
      ensures st == old(st).(settings := settings)
    {
      hide IsIpLiteral;
      var cname := if name == "" then None else Some(CString(name));
      var isIp := false;
      if name != "" { isIp := IsIpLiteralText(name); }
      var dns := if isIp then None else cname;
      settings := settings.(sni := if setup.sni then dns else setup.left.sni);
      ok := setup.sni;
      if ok && !ctx.hasParam {
        ok := cname == None;
      } else if ok {
        settings := settings.(host := if setup.host then dns else setup.left.host);
        ok := setup.host;
        if ok {
          settings := settings.(ip := if !setup.ip then setup.left.ip else if isIp then cname else None);
          ok := setup.ip;
        }
      }
      st := st.(settings := settings);
    }

    method DoHandshake(role: Role, setup: Setup) returns (s: Status)
      requires Represents()
      modifies this, outBuf
      ensures Represents() && (State(), s) == RunHandshake(ctx, old(State()), role, setup)
    {
      hide Prepare, Attempt;
      var ready := PrepareHandshake(role, setup);
      if !ready { return Err(InvalidArgument); }
      s := RunAttempt(role);
    }

    method RunAttempt(role: Role) returns (s: Status)
      requires Represents()
      modifies this`engine, this`inp, this`out, this`live, this`session, this`net, this`alpn, this`link, this`st, outBuf
      ensures Represents() && (State(), s) == Attempt(old(State()), role)
    {
      hide Pump, Captured;
      GoLive(role);
      s := PumpHandshake();
    }

    method GoLive(role: Role)
      requires Represents()
      modifies this`live, this`link, this`st
      ensures Represents() && State() == Recorded(old(State()), role)
    {
      st := st.(records := st.records + [Record(role, hostname, settings, offer, session, inp)]);
      link := link.(live := true);
      live := true;
    }

    method PumpHandshake() returns (s: Status)
      requires Represents()
      modifies this`engine, this`inp, this`out, this`session, this`net, this`alpn, this`link, this`st, outBuf
      ensures Represents()
      ensures var (t, status) := Pump(old(State()), Handshake); State() == Captured(t) && s == status
    {
      hide Drive;
      BeginOperation();
      s := HandshakeLoop();
    }

    /** Fails closed: no engine call follows unless every setting could be applied. */
    method PrepareHandshake(role: Role, setup: Setup) returns (ready: bool)
      requires Represents()
      modifies this`out, this`live, this`session, this`settings, this`offer, this`alpn, this`used, this`link, this`st
      ensures Represents() && (State(), ready) == Prepare(ctx, old(State()), role, setup)
    {
      hide Settle, TlsSession.Reset, IsIpLiteral, Offer;
      if ctx.setupFailed { return false; }
      MarkUsed();
      ready := ApplyHostnameVerification(if role == Client then hostname else "", setup);
      if !ready { return; }
      ready := OfferAlpn(role, setup);
    }

    /** Any attempt, completed or not, uses the stream up until the next reset. */
    method MarkUsed()
      requires Represents()
      modifies this`out, this`live, this`session, this`alpn, this`used, this`link, this`st
      ensures Represents()
      ensures State() == (if old(used) then TlsSession.Reset(old(State())) else old(State())).(used := true)
    {
      hide TlsSession.Reset;
      if used { Reset(); }
      used := true;
      st := st.(used := true);
    }

    /** A client offers the context's protocols; the server selects in its callback. */
    method OfferAlpn(role: Role, setup: Setup) returns (ok: bool)
      requires Represents()
      modifies this`offer, this`st
      ensures Represents() && st == old(st).(offer := offer) && (offer, ok) == Offer(ctx, old(offer), role, setup)
    {
      if role == Server || ctx.alpnWire == [] { return true; }
      offer := if setup.alpn then ctx.alpnWire else setup.leftOffer;
      st := st.(offer := offer);
      return setup.alpn;
    }

    method HandshakeLoop() returns (s: Status)
      requires Represents() && link.last == None
      modifies this`engine, this`inp, this`out, this`session, this`net, this`alpn, this`link, this`st, outBuf
      ensures Represents() && (link, s) == Drive(Handshake, old(link))
      ensures st == if NotComplete(link.last) then old(st)
                    else old(st).(attempt := Some(Chosen(link.last)),
                                  alpn := if Chosen(link.last) == [] then old(st).alpn else Chosen(link.last))
    {
      hide Flush, Call, Drive, Served;
      ghost var w := link;
      while true
        invariant st == old(st) && Represents() && Drive(Handshake, link) == Drive(Handshake, w)
        invariant NotComplete(link.last)
        decreases |engine|
      {
        NoReply(link);
        if engine == [] { return Pending; }
        ghost var v := link;
        var r := CallEngine();
        DriveRound(Handshake, v);
        if r.code == Complete {
          CaptureAlpn(r);
          s := FlushOutput();
          return;
        } else if r.code == WantWrite || r.code == WantRead {
          s := ServeEngine(Handshake, r);
          if s != Ok { return; }
        } else {
          return Made(r.error);
        }
      }
    }
  }

  function Served(op: Operation, w: Link, r: Reply): (Link, Status) {
    if r.code == WantWrite then Flush(w) else FlushRead(op, w, r)
  }

  lemma NoReply(w: Link)
    ensures w.engine == [] ==> forall op :: Drive(op, w) == (w, Pending)
  {
  }

  /** One round of an operation's loop. */
  lemma DriveRound(op: Operation, w: Link)
    requires w.engine != []
    ensures var r, v := w.engine[0], Call(w);
            && v.last == Some(r) && v.engine == w.engine[1..]
            && match Act(op, r)
               case Return(s) => Drive(op, w) == (v, s)
               case Finish => Drive(op, w) == Flush(v) && Flush(v).0.last == Some(r)
               case _ => var (u, s) := Served(op, v, r); Drive(op, w) == if s != Ok then (u, s) else Drive(op, u)
  {
    hide Flush, FlushRead;
    FlushKeepsEngine(Call(w));
  }

  lemma TakenShrinks(w: Link)
    requires w.out != []
    ensures var v := Taken(w);
            && v == w.(out := v.out, held := v.held) && |v.out| < |w.out|
            && (w.net != [] ==> Flush(w) == match w.net[0]
                  case LockFails(e) => (Written(v), Err(e))
                  case Fails(e, n) => (Written(v), Err(e))
                  case Completes(_, _) => Flush(Written(v)))
  {
  }

  /** The protocol of the reply that completed. */
  function Chosen(last: Option<Reply>): Bytes
    requires !NotComplete(last)
  {
    last.value.negotiated
  }

  predicate NotComplete(last: Option<Reply>) { last == None || last.value.code != Complete }

  /** How many plain bytes an operation ending with reply `last` reports: all that the reply
      moved, or as many as fit. */
  function Count(last: Option<Reply>, size: nat): (n: nat)
    ensures n <= size
    ensures NotComplete(last) ==> n == 0
    ensures !NotComplete(last) ==> n <= |last.value.plain| && (n == size || n == |last.value.plain|)
  {
    if NotComplete(last) then 0 else Min(|last.value.plain|, size)
  }

  /** A buffer after a read that ended with reply `last`: the front of the plain data, then
      what was there. */
  function Filled(was: Bytes, last: Option<Reply>): (now: Bytes)
    ensures |now| == |was|
    ensures var n := Count(last, |was|); now[n..] == was[n..] && (n > 0 ==> now[..n] == last.value.plain[..n])
  {
    var n := Count(last, |was|);
    if n == 0 then was else last.value.plain[..n] + was[n..]
  }

  /** The engine puts its plain data, as much as fits, at the front of `dest`. */
  method Store(dest: array<Byte>, r: Reply) returns (n: nat)
    requires r.code == Complete
    modifies dest
    ensures n == Count(Some(r), dest.Length) && dest[..] == Filled(old(dest[..]), Some(r))
  {
    n := Min(|r.plain|, dest.Length);
    forall i | 0 <= i < n { dest[i] := r.plain[i]; }
  }

  predicate NoRoom(buffers: seq<array<Byte>>) { forall b | b in buffers :: b.Length == 0 }

  /** Buffer `k` is the first that has room. */
  predicate IsFirst(buffers: seq<array<Byte>>, k: int) {
    0 <= k < |buffers| && buffers[k].Length > 0 && forall j | 0 <= j < k :: buffers[j].Length == 0
  }

  /** Buffer `k` is the first that is not empty. */
  predicate IsFirstData(buffers: seq<Bytes>, k: int) {
    0 <= k < |buffers| && buffers[k] != [] && forall j | 0 <= j < k :: buffers[j] == []
  }
}
