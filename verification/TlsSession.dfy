/** The life of one OpenSSL stream over any sequence of set_hostname, reset, handshakes
    and transfers: which settings the engine sees, and what alpn_protocol reports. */
module TlsSession {
  import opened Basics
  import opened TlsPump
  import Ipv4Address
  import Ipv6Grammar
  import Endpoint
  import Ipv6Parser

  datatype Role = Client | Server

  /** Server name indication, certificate match by DNS name, certificate match by address. */
  datatype Settings = Settings(sni: Option<string>, host: Option<string>, ip: Option<string>)

  datatype Context = Context(setupFailed: bool, alpnWire: Bytes, hasParam: bool)

  /** Which library calls of one attempt succeed, and what a failing one leaves behind. */
  datatype Setup = Setup(sni: bool, host: bool, ip: bool, alpn: bool, left: Settings, leftOffer: Bytes)

  /** What the engine was given when a handshake first called it; `queued` is the input
      already waiting for it then. */
  datatype Record = Record(
    role: Role, hostname: string, settings: Settings, offer: Bytes, session: bool, queued: Bytes)

  /** `attempt` is the protocol the engine settled on (perhaps none) when the handshake
      since the last reset completed. The rest is history since the last reset: whether an
      operation went on after a flush that left bytes unsent (`lostOut`) or after a read
      that the queue could not take whole (`lostIn`); and the records of all handshakes. */
  datatype Stream = Stream(
    link: Link, used: bool, hostname: string, alpn: Bytes, settings: Settings, offer: Bytes,
    attempt: Option<Bytes>, lostOut: bool, lostIn: bool, records: seq<Record>)

  datatype Event =
    | SetHostname(name: string)
    | DoReset
    | DoHandshake(role: Role, setup: Setup)
    | Transfer(op: Operation, empty: bool)

  // ----------------------------------------------------------------- settings

  /** A string as a C interface sees it. */
  function CString(s: string): string {
    if s == "" || s[0] == '\0' then "" else [s[0]] + CString(s[1..])
  }

  ghost predicate IsIpLiteral(s: string) { Ipv4Address.IsIpv4Address(s) || Ipv6Grammar.IsIpv6Address(s) }

  /** What the settings have to be: nothing without a name, the address match alone for
      a literal, server name and DNS match for any other name. */
  ghost function Expected(role: Role, hostname: string): Settings {
    if role == Server || hostname == "" then Settings(None, None, None)
    else if IsIpLiteral(hostname) then Settings(None, None, Some(CString(hostname)))
    else Settings(Some(CString(hostname)), Some(CString(hostname)), None)
  }

  /** The library calls for a name, in order; false at the first one that fails. */
  function Settle(ctx: Context, cfg: Settings, hostname: string, isIp: bool, setup: Setup): (Settings, bool) {
    var name := if hostname == "" then None else Some(CString(hostname));
    var dns := if isIp then None else name;
    if !setup.sni then (cfg.(sni := setup.left.sni), false)
    else if !ctx.hasParam then (cfg.(sni := dns), name == None)
    else if !setup.host then (cfg.(sni := dns, host := setup.left.host), false)
    else if !setup.ip then (cfg.(sni := dns, host := dns, ip := setup.left.ip), false)
    else (Settings(dns, dns, if isIp then name else None), true)
  }

  function Offer(ctx: Context, offer: Bytes, role: Role, setup: Setup): (Bytes, bool) {
    if role == Server || ctx.alpnWire == [] then (offer, true)
    else if !setup.alpn then (setup.leftOffer, false)
    else (ctx.alpnWire, true)
  }

  // ------------------------------------------------------------------ the steps

  function Initial(engine: seq<Reply>, net: seq<NetReply>): Stream {
    Stream(IDLE.(engine := engine, net := net), false, "", [], Settings(None, None, None), [], None, false, false, [])
  }

  /** The outgoing queue is drained; the incoming one keeps what the engine has not read,
      and carries it into what follows. */
  function ResetLink(w: Link): Link {
    w.(out := [], live := false, session := false, sent := [], held := [], produced := [],
       carried := w.inp, received := [], spill := [], consumed := [], last := None)
  }

  function Reset(s: Stream): Stream {
    s.(link := ResetLink(s.link), alpn := [], used := false, attempt := None, lostOut := false, lostIn := false)
  }

  /** An operation of the pump, noting what the one before left unsent or refused. */
  function Pump(s: Stream, op: Operation): (Stream, Status) {
    var (l, status) := Drive(op, s.link.(last := None));
    (s.(link := l, lostOut := s.lostOut || s.link.held != [], lostIn := s.lostIn || s.link.spill != []), status)
  }

  /** The protocol of a handshake that the engine completed, if it has one, is reported. */
  function Captured(s: Stream): Stream {
    if s.link.last.Some? && s.link.last.value.code == Complete then
      var chosen := s.link.last.value.negotiated;
      s.(attempt := Some(chosen), alpn := if chosen == [] then s.alpn else chosen)
    else s
  }

  function Recorded(s: Stream, role: Role): Stream {
    var record := Record(role, s.hostname, s.settings, s.offer, s.link.session, s.link.inp);
    s.(link := s.link.(live := true), records := s.records + [record])
  }

  /** The handshake loop, with everything set up. */
  function Attempt(s: Stream, role: Role): (Stream, Status) {
    var (t, status) := Pump(Recorded(s, role), Handshake);
    (Captured(t), status)
  }

  /** Everything before the handshake loop. */
  ghost function Prepare(ctx: Context, s: Stream, role: Role, setup: Setup): (Stream, bool) {
    if ctx.setupFailed then (s, false) else
    var a := (if s.used then Reset(s) else s).(used := true);
    var hostname := if role == Client then a.hostname else "";
    var (settings, settled) := Settle(ctx, a.settings, hostname, hostname != "" && IsIpLiteral(hostname), setup);
    var b := a.(settings := settings);
    if !settled then (b, false) else
    var (offer, offered) := Offer(ctx, b.offer, role, setup);
    (b.(offer := offer), offered)
  }

  ghost function RunHandshake(ctx: Context, s: Stream, role: Role, setup: Setup): (Stream, Status) {
    var (t, ready) := Prepare(ctx, s, role, setup);
    if ready then Attempt(t, role) else (t, Err(InvalidArgument))
  }

  function RunTransfer(s: Stream, op: Operation, empty: bool): (Stream, Status) {
    if empty then (s, Ok) else Pump(s, op)
  }

  ghost function Apply(ctx: Context, s: Stream, e: Event): Stream {
    match e
    case SetHostname(name) => s.(hostname := name)
    case DoReset => Reset(s)
    case DoHandshake(role, setup) => RunHandshake(ctx, s, role, setup).0
    case Transfer(op, empty) => RunTransfer(s, op, empty).0
  }

  ghost predicate IsRun(ctx: Context, s: Stream, es: seq<Event>, t: Stream)
    decreases |es|
  {
    if es == [] then s == t else IsRun(ctx, Apply(ctx, s, es[0]), es[1..], t)
  }

  // ----------------------------------------------------------------- invariant

  ghost predicate GoodRecord(ctx: Context, r: Record) {
    && r.settings == Expected(r.role, r.hostname)
    && !r.session
    && (r.role == Client ==> r.offer == ctx.alpnWire)
  }

  ghost predicate Fresh(ctx: Context, s: Stream) {
    && (!s.used ==> s.attempt == None && !s.link.live && !s.link.session)
    && (ctx.setupFailed ==> !s.used)
    && (!ctx.hasParam ==> s.settings.host == None && s.settings.ip == None)
    && (ctx.alpnWire == [] ==> s.offer == [])
  }

  ghost predicate Inv(ctx: Context, s: Stream) {
    && Fresh(ctx, s)
    && s.alpn == (if s.attempt.Some? then s.attempt.value else [])
    && (!s.lostOut ==> Delivered(s.link))
    && (!s.lostIn ==> Fed(s.link))
    && (forall r | r in s.records :: GoodRecord(ctx, r))
  }

  lemma ResetKeeps(ctx: Context, s: Stream)
    requires Inv(ctx, s)
    ensures Inv(ctx, Reset(s))
  {
    assert [] + s.link.inp + [] == s.link.inp + [];
  }

  lemma {:induction false} DriveLive(op: Operation, w: Link)
    requires !w.live && !w.session
    ensures !Drive(op, w).0.live && !Drive(op, w).0.session
    decreases |w.engine|
  {
    hide Flush, FlushRead, Act;
    if w.engine != [] {
      var r, v := w.engine[0], Call(w);
      FlushKeepsEngine(v);
      FlushReadKeeps(op, v, r);
      match Act(op, r)
      case Return(s) =>
      case Finish =>
      case FlushOnly => if Flush(v).1 == Ok { DriveLive(op, Flush(v).0); }
      case FlushAndRead => if FlushRead(op, v, r).1 == Ok { DriveLive(op, FlushRead(op, v, r).0); }
    }
  }

  lemma PumpKeeps(s: Stream, op: Operation)
    requires (!s.lostOut ==> Delivered(s.link)) && (!s.lostIn ==> Fed(s.link))
    ensures var t := Pump(s, op).0; (!t.lostOut ==> Delivered(t.link)) && (!t.lostIn ==> Fed(t.link))
  {
    hide Drive;
    var w := s.link.(last := None);
    if !s.lostOut && s.link.held == [] { DriveDelivers(op, w); }
    if !s.lostIn && s.link.spill == [] { DriveFeeds(op, w); }
  }

  lemma PrepareKeeps(ctx: Context, s: Stream, role: Role, setup: Setup)
    requires Inv(ctx, s)
    ensures var (t, ready) := Prepare(ctx, s, role, setup);
            && Inv(ctx, t) && t.hostname == s.hostname
            && (ready ==> t.used && t.attempt == None && !t.link.session)
            && (ready ==> t.settings == Expected(role, t.hostname))
            && (ready && role == Client ==> t.offer == ctx.alpnWire)
  {
    hide IsIpLiteral, Delivered, Fed, CString;
    ResetKeeps(ctx, s);
  }

  lemma AttemptKeeps(ctx: Context, s: Stream, role: Role)
    requires Inv(ctx, s) && s.used && s.attempt == None && !s.link.session
    requires s.settings == Expected(role, s.hostname) && (role == Client ==> s.offer == ctx.alpnWire)
    ensures Inv(ctx, Attempt(s, role).0)
  {
    hide Drive, Expected;
    PumpKeeps(Recorded(s, role), Handshake);
  }

  lemma TransferKeeps(ctx: Context, s: Stream, op: Operation, empty: bool)
    requires Inv(ctx, s)
    ensures Inv(ctx, RunTransfer(s, op, empty).0)
  {
    hide Drive, Delivered, Fed, GoodRecord;
    PumpKeeps(s, op);
    if !s.link.live && !s.link.session { DriveLive(op, s.link.(last := None)); }
  }

  lemma StepKeeps(ctx: Context, s: Stream, e: Event)
    requires Inv(ctx, s)
    ensures Inv(ctx, Apply(ctx, s, e))
  {
    hide RunTransfer, Attempt, Prepare, Reset, Delivered, Fed, GoodRecord;
    match e
    case SetHostname(name) =>
    case DoReset => ResetKeeps(ctx, s);
    case DoHandshake(role, setup) =>
      PrepareKeeps(ctx, s, role, setup);
      var (t, ready) := Prepare(ctx, s, role, setup);
      if ready { AttemptKeeps(ctx, t, role); }
    case Transfer(op, empty) => TransferKeeps(ctx, s, op, empty);
  }

  lemma {:induction false} RunKeeps(ctx: Context, s: Stream, es: seq<Event>, t: Stream)
    requires Inv(ctx, s) && IsRun(ctx, s, es, t)
    ensures Inv(ctx, t)
    decreases |es|
  {
    hide Inv, Apply;
    if es != [] {
      StepKeeps(ctx, s, es[0]);
      RunKeeps(ctx, Apply(ctx, s, es[0]), es[1..], t);
    }
  }

  /** Over every run, with any engine and network: each handshake gives the engine settings
      that depend only on the role and the current hostname, and no earlier session; the
      reported protocol is the one of the latest attempt if the engine completed it, else
      empty. Since the last reset, the bytes sent are the engine's output in order until an
      operation goes on after a flush that left bytes unsent, and the bytes fed to it are
      what the reset left queued and then those received, in order, until an operation goes
      on after a read that the queue refused. */
  lemma Safety(ctx: Context, engine: seq<Reply>, net: seq<NetReply>, es: seq<Event>, t: Stream)
    requires IsRun(ctx, Initial(engine, net), es, t)
    ensures forall r | r in t.records :: r.settings == Expected(r.role, r.hostname) && !r.session
    ensures forall r | r in t.records && r.role == Client :: r.offer == ctx.alpnWire
    ensures t.alpn == if t.attempt.Some? then t.attempt.value else []
    ensures !t.lostOut ==> t.link.sent + t.link.held + t.link.out == t.link.produced
    ensures !t.lostIn ==> t.link.consumed + t.link.inp + t.link.spill == t.link.carried + t.link.received
  {
    RunKeeps(ctx, Initial(engine, net), es, t);
  }

  // ------------------------------------------------------- the whole handshake

  /** Every library call that a handshake makes for this role and name succeeds. */
  predicate SetupSucceeds(ctx: Context, role: Role, hostname: string, setup: Setup) {
    && !ctx.setupFailed
    && setup.sni
    && (ctx.hasParam ==> setup.host && setup.ip)
    && (!ctx.hasParam ==> role == Server || hostname == "")
    && (role == Client && ctx.alpnWire != [] ==> setup.alpn)
  }

  /** The pump as the engine finds it: reset if the stream was used, asked to handshake. */
  function Readied(s: Stream): Link {
    (if s.used then ResetLink(s.link) else s.link).(live := true, last := None)
  }

  /** The settings calls stop at the first that fails: what they did not reach stays. */
  lemma SettleStops(ctx: Context, cfg: Settings, hostname: string, isIp: bool, setup: Setup)
    ensures var (after, ok) := Settle(ctx, cfg, hostname, isIp, setup);
            && (!setup.sni ==> !ok && after.host == cfg.host && after.ip == cfg.ip)
            && (setup.sni && ctx.hasParam && !setup.host ==> !ok && after.ip == cfg.ip)
            && (!ctx.hasParam ==> after.host == cfg.host && after.ip == cfg.ip)
  {
  }

  lemma PrepareIs(ctx: Context, s: Stream, role: Role, setup: Setup)
    ensures var (p, ready) := Prepare(ctx, s, role, setup);
            && (ready <==> SetupSucceeds(ctx, role, s.hostname, setup))
            && p.records == s.records && p.hostname == s.hostname && (role == Server ==> p.offer == s.offer)
            && p.link.engine == s.link.engine && p.link.net == s.link.net && p.link.backlog == s.link.backlog
            && (ctx.setupFailed ==> p == s)
            && (!ctx.setupFailed ==> p.used && p.link.(live := true, last := None) == Readied(s))
  {
    hide IsIpLiteral, CString;
  }

  /** A handshake succeeds exactly when the context was set up, every settings call made for
      its role and name succeeds, the offer is installed where one is due, and then either
      the engine completes and the final flush goes through, or the engine fails without
      leaving an error. It fails closed: in every other case before the engine it reports an
      invalid argument, and neither the engine nor the network is touched. */
  lemma HandshakeOutcome(ctx: Context, s: Stream, role: Role, setup: Setup)
    ensures var (t, status) := RunHandshake(ctx, s, role, setup);
            var ending := Ending(Handshake, Readied(s));
            && (status == Ok <==>
                  && SetupSucceeds(ctx, role, s.hostname, setup)
                  && ending.Some?
                  && if ending.value.0.code == Complete then Flush(ending.value.1).1 == Ok
                     else ending.value.0.error == 0)
            && (SetupSucceeds(ctx, role, s.hostname, setup) ==> status == Drive(Handshake, Readied(s)).1)
            && (!SetupSucceeds(ctx, role, s.hostname, setup) ==>
                  && status == Err(InvalidArgument) && t.records == s.records
                  && t.link.engine == s.link.engine && t.link.net == s.link.net && t.link.backlog == s.link.backlog)
            && (ctx.setupFailed ==> t == s)
            && (!ctx.setupFailed ==> t.used)
            && (role == Server ==> t.offer == s.offer)
  {
    hide Prepare, Attempt, Ending, Flush, Readied, SetupSucceeds;
    PrepareIs(ctx, s, role, setup);
    var (p, ready) := Prepare(ctx, s, role, setup);
    if ready {
      SetupMeansContext(ctx, role, s.hostname, setup);
      HandshakeSucceeds(p, role);
      AttemptUses(p, role);
    }
  }

  lemma SetupMeansContext(ctx: Context, role: Role, hostname: string, setup: Setup)
    ensures SetupSucceeds(ctx, role, hostname, setup) ==> !ctx.setupFailed
  {
  }

  lemma AttemptUses(s: Stream, role: Role)
    ensures var (t, status) := Attempt(s, role);
            t.used == s.used && t.offer == s.offer && status == Drive(Handshake, s.link.(live := true, last := None)).1
  {
    hide Drive;
  }

  // --------------------------------------------------------------- names and order

  /** The name that the last set_hostname of a run gave. */
  function LastName(es: seq<Event>, before: string): string {
    if es == [] then before
    else LastName(es[1..], if es[0].SetHostname? then es[0].name else before)
  }

  lemma NameStep(ctx: Context, s: Stream, e: Event)
    ensures Apply(ctx, s, e).hostname == if e.SetHostname? then e.name else s.hostname
  {
    hide Drive, Settle, Offer, IsIpLiteral;
  }

  /** The current hostname is the last one set: it survives resets and handshakes. */
  lemma {:induction false} HostnamePersists(ctx: Context, s: Stream, es: seq<Event>, t: Stream)
    requires IsRun(ctx, s, es, t)
    ensures t.hostname == LastName(es, s.hostname)
    decreases |es|
  {
    hide Apply;
    if es != [] {
      NameStep(ctx, s, es[0]);
      HostnamePersists(ctx, Apply(ctx, s, es[0]), es[1..], t);
    }
  }

  /** The order of bytes is given up only after a failure: an operation that starts with
      nothing held back or refused keeps it, and if it succeeds so does the next one. */
  lemma OrderKept(s: Stream, op: Operation)
    requires !s.lostOut && !s.lostIn && s.link.held == [] && s.link.spill == []
    ensures var (t, status) := Pump(s, op);
            !t.lostOut && !t.lostIn && (status == Ok ==> t.link.held == [] && t.link.spill == [])
  {
    hide Drive;
    DriveSettles(op, s.link.(last := None));
  }

  lemma {:induction false} FlushSettles(w: Link)
    requires w.held == []
    ensures Flush(w).1 == Ok ==> Flush(w).0.held == []
    decreases |w.out|
  {
    if w.out != [] && w.net != [] && w.net[0].Completes? { FlushSettles(Written(Taken(w))); }
  }

  lemma {:induction false} DriveSettles(op: Operation, w: Link)
    requires w.held == [] && w.spill == []
    ensures var (v, s) := Drive(op, w); s == Ok ==> v.held == [] && v.spill == []
    decreases |w.engine|
  {
    hide Flush, Act;
    if w.engine != [] {
      var r, v := w.engine[0], Call(w);
      FlushSettles(v);
      FlushKeepsEngine(v);
      match Act(op, r)
      case Return(s) =>
      case Finish =>
      case FlushOnly => if Flush(v).1 == Ok { DriveSettles(op, Flush(v).0); }
      case FlushAndRead => if FlushRead(op, v, r).1 == Ok { DriveSettles(op, FlushRead(op, v, r).0); }
    }
  }

  // ------------------------------------------------------ input across a reset

  /** The engine is given, and the record holds, the role, the name, the settings and the offer
      of this handshake. It gets no byte from before exactly when no input was queued:
      neither the reset of a used stream nor anything else on the way discards it. */
  lemma QueuedInput(ctx: Context, s: Stream, role: Role, setup: Setup)
    requires SetupSucceeds(ctx, role, s.hostname, setup)
    ensures var t := RunHandshake(ctx, s, role, setup).0;
            && |t.records| == |s.records| + 1
            && t.records[..|s.records|] == s.records
            && t.records[|s.records|].queued == s.link.inp
            && t.records[|s.records|].role == role && t.records[|s.records|].hostname == s.hostname
            && t.records[|s.records|].settings == t.settings && t.records[|s.records|].offer == t.offer
            && t.records[|s.records|].session == Readied(s).session
            && (s.used ==> t.link.carried == s.link.inp)
  {
    hide Drive, Settle, Offer, IsIpLiteral, SetupSucceeds;
    PrepareIs(ctx, s, role, setup);
    var p := Prepare(ctx, s, role, setup).0;
    DriveCarries(Handshake, p.link.(live := true, last := None));
  }

  /** The same across an explicit reset, which is documented to discard pending data. */
  lemma ResetKeepsInput(ctx: Context, s: Stream, role: Role, setup: Setup)
    requires SetupSucceeds(ctx, role, s.hostname, setup)
    ensures var t := RunHandshake(ctx, Reset(s), role, setup).0;
            && |t.records| == |s.records| + 1
            && (t.records[|s.records|].queued == [] <==> s.link.inp == [])
            && t.link.carried == s.link.inp
  {
    hide Drive, Settle, Offer, IsIpLiteral, SetupSucceeds;
    PrepareIs(ctx, Reset(s), role, setup);
    QueuedInput(ctx, Reset(s), role, setup);
    var p := Prepare(ctx, Reset(s), role, setup).0;
    DriveCarries(Handshake, p.link.(live := true, last := None));
  }

  lemma {:induction false} DriveCarries(op: Operation, w: Link)
    ensures Drive(op, w).0.carried == w.carried
    decreases |w.engine|
  {
    hide Flush, Act;
    if w.engine != [] {
      var r, v := w.engine[0], Call(w);
      FlushKeepsEngine(v);
      match Act(op, r)
      case Return(s) =>
      case Finish =>
      case FlushOnly => if Flush(v).1 == Ok { DriveCarries(op, Flush(v).0); }
      case FlushAndRead => if FlushRead(op, v, r).1 == Ok { DriveCarries(op, FlushRead(op, v, r).0); }
    }
  }

  const ALL_WELL: Setup := Setup(true, true, true, true, Settings(None, None, None), [])

  const PLAIN: Context := Context(false, [], true)

  const WANTS: Reply := NO_DATA.(code := WantRead)

  const FAILS: Reply := NO_DATA.(error := 1)

  const TAKES: Reply := NO_DATA.(code := Complete, taken := 1)

  /** Such a run: a byte received for a first handshake, which fails, goes to the engine in
      the second. */
  lemma InputOfEarlierAttempt()
    ensures var s := Initial([WANTS, FAILS, TAKES], [Completes([9], 1)]);
            var (t, first) := RunHandshake(PLAIN, s, Server, ALL_WELL);
            var (u, second) := RunHandshake(PLAIN, t, Server, ALL_WELL);
            && first == Err(OtherError(1)) && t.link.received == [9] && t.link.consumed == []
            && second == Ok && u.link.received == [] && u.link.consumed == [9]
  {
    hide Drive;
    var w := IDLE.(engine := [WANTS, FAILS, TAKES], net := [Completes([9], 1)], live := true);
    var c := w.(engine := [TAKES], net := [], inp := [9], received := [9], backlog := [0], last := Some(FAILS));
    FirstFails(w, c);
    SecondTakes(ResetLink(c).(live := true));
  }

  lemma FirstFails(w: Link, c: Link)
    requires w == IDLE.(engine := [WANTS, FAILS, TAKES], net := [Completes([9], 1)], live := true)
    requires c == w.(engine := [TAKES], net := [], inp := [9], received := [9], backlog := [0], last := Some(FAILS))
    ensures Drive(Handshake, w) == (c, Err(OtherError(1)))
  {
    var a := w.(engine := [FAILS, TAKES], last := Some(WANTS));
    var b := a.(net := [], inp := [9], received := [9], backlog := [0]);
    assert Call(w) == a;
    assert Flush(a) == (a, Ok);
    var data: Bytes := [9];
    assert data[..Min(|data|, BUFFER_SIZE)] == data && data[..Min(1, |data|)] == data && data[1..] == [];
    assert a.inp + data == data && a.received + data == data;
    assert a.net[0] == Completes(data, 1) && a.net[1..] == [] && a.backlog + [|a.out|] == [0];
    assert ReadInput(a) == (b, Ok);
    assert FlushRead(Handshake, a, WANTS) == (b, Ok);
    assert Call(b) == c;
    assert Drive(Handshake, b) == (c, Err(OtherError(1)));
  }

  lemma SecondTakes(d: Link)
    requires d.engine == [TAKES] && d.inp == [9] && d.live && d.out == [] && d.received == [] && d.consumed == []
    ensures var (e, status) := Drive(Handshake, d); status == Ok && e.received == [] && e.consumed == [9]
  {
    assert Call(d).out == [] && Call(d).consumed == [9];
    assert Drive(Handshake, d) == Flush(Call(d));
  }

  // ------------------------------------------------------- the reported protocol

  /** A handshake succeeds exactly when the engine completes and the final flush goes
      through, or when the engine fails without leaving an error; and only the first
      settles a protocol. */
  lemma HandshakeSucceeds(s: Stream, role: Role)
    ensures var (t, status) := Attempt(s, role);
            var ending := Ending(Handshake, s.link.(live := true, last := None));
            && (status == Ok <==>
                  && ending.Some?
                  && if ending.value.0.code == Complete then Flush(ending.value.1).1 == Ok
                     else ending.value.0.error == 0)
            && (ending.Some? && ending.value.0.code == Complete ==> t.attempt == Some(ending.value.0.negotiated))
            && (!(ending.Some? && ending.value.0.code == Complete) ==> t.attempt == s.attempt && t.alpn == s.alpn)
  {
    hide Drive, Ending, Flush;
    DriveByEnding(Handshake, s.link.(live := true, last := None));
  }

  /** The documentation promises an empty protocol while the handshake has not completed.
      After a failed handshake that is so except when the engine settled on a protocol
      and the flush after it failed. */
  lemma ProtocolAfterFailure(ctx: Context, s: Stream, role: Role, setup: Setup)
    requires Inv(ctx, s)
    ensures var (t, status) := RunHandshake(ctx, s, role, setup);
            var (p, ready) := Prepare(ctx, s, role, setup);
            var ending := Ending(Handshake, p.link.(live := true, last := None));
            status != Ok && t.alpn != [] <==>
              && ready && ending.Some? && ending.value.0.code == Complete
              && ending.value.0.negotiated != [] && Flush(ending.value.1).1 != Ok
  {
    hide Prepare, Attempt, Ending, Flush;
    PrepareKeeps(ctx, s, role, setup);
    var (p, ready) := Prepare(ctx, s, role, setup);
    if ready {
      HandshakeSucceeds(p, role);
      AttemptKeeps(ctx, p, role);
    } else {
      PrepareClears(ctx, s, role, setup);
    }
  }

  lemma PrepareClears(ctx: Context, s: Stream, role: Role, setup: Setup)
    requires Inv(ctx, s)
    ensures Prepare(ctx, s, role, setup).0.alpn == []
  {
    hide IsIpLiteral;
  }

  /** Such a run: the engine completes with a protocol, and the network write fails. */
  lemma ProtocolOfFailedHandshake()
    ensures var reply := Reply(Complete, 0, [22], [0], 0, false, true, [104, 50]);
            var (t, status) := RunHandshake(PLAIN, Initial([reply], [Fails(BrokenPipe, 0)]), Server, ALL_WELL);
            status == Err(BrokenPipe) && t.alpn == [104, 50]
  {
    var reply := Reply(Complete, 0, [22], [0], 0, false, true, [104, 50]);
    var w := IDLE.(engine := [reply], net := [Fails(BrokenPipe, 0)], live := true);
    assert Call(w).out == [22];
    assert Flush(Call(w)).1 == Err(BrokenPipe);
    assert Drive(Handshake, w) == Flush(Call(w));
    FlushKeepsEngine(Call(w));
  }

  // ------------------------------------------------------- server name indication

  lemma {:induction false} CStringKeeps(s: string)
    ensures '\0' !in s ==> CString(s) == s
    ensures CString(s) <= s && '\0' !in CString(s)
  {
    if s != "" && s[0] != '\0' {
      CStringKeeps(s[1..]);
      assert s == [s[0]] + s[1..];
    }
  }

  /** No address text holds a NUL. */
  lemma LiteralHasNoNul(s: string)
    requires IsIpLiteral(s)
    ensures '\0' !in s
  {
    if Ipv4Address.IsIpv4Address(s) {
      Ipv6Parser.DottedCharacters(Ipv6Grammar.QuadOf(s));
    } else {
      var t :| Ipv6Grammar.IsDerivation(t) && Ipv6Grammar.Text(t) == s;
      Endpoint.AddressShape(t);
      assert !Endpoint.IsAddressChar('\0');
    }
  }

  /** Address literals stay out of the server name (section 3 of RFC 6066), except for a
      name with an embedded NUL whose part before it is a literal. */
  lemma LiteralsStayOut(role: Role, hostname: string)
    ensures var sni := Expected(role, hostname).sni;
            sni.Some? && IsIpLiteral(sni.value) <==>
              role == Client && '\0' in hostname && IsIpLiteral(CString(hostname))
  {
    hide IsIpLiteral;
    CStringKeeps(hostname);
    if IsIpLiteral(hostname) { LiteralHasNoNul(hostname); }
    assert CString("") == "";
    NotLiteral("");
  }

  lemma NotLiteral(s: string)
    requires s == ""
    ensures !IsIpLiteral(s)
  {
  }

  /** Such a name. */
  lemma LiteralBeforeNul()
    ensures var hostname := "1.2.3.4\0";
            CString(hostname) == "1.2.3.4" && IsIpLiteral("1.2.3.4") && !IsIpLiteral(hostname)
    ensures Expected(Client, "1.2.3.4\0").sni == Some("1.2.3.4")
  {
    hide IsIpLiteral;
    var hostname := "1.2.3.4\0";
    CStringAppend("1.2.3.4", "\0");
    assert "1.2.3.4" + "\0" == hostname;
    assert hostname[7] == '\0';
    if IsIpLiteral(hostname) { LiteralHasNoNul(hostname); }
    DottedLiteral();
  }

  lemma {:induction false} CStringAppend(a: string, b: string)
    requires '\0' !in a && b != "" && b[0] == '\0'
    ensures CString(a + b) == a
  {
    if a != "" {
      assert (a + b)[1..] == a[1..] + b;
      CStringAppend(a[1..], b);
    } else {
      assert a + b == b;
    }
  }

  lemma DottedLiteral()
    ensures IsIpLiteral("1.2.3.4")
  {
    assert Ipv4Address.Ipv4Text([1, 2, 3, 4]) == "1.2.3.4";
    assert Ipv4Address.IsIpv4Address("1.2.3.4");
  }

  /** A client's next handshake uses the name it was given, for the server name and the
      certificate, exactly when the name holds no NUL. */
  lemma NameIsUsed(hostname: string)
    requires hostname != ""
    ensures var x := Expected(Client, hostname);
            (x == Settings(None, None, Some(hostname)) || x == Settings(Some(hostname), Some(hostname), None))
            <==> '\0' !in hostname
  {
    hide IsIpLiteral;
    CStringKeeps(hostname);
    if CString(hostname) == hostname { assert '\0' !in hostname; }
  }

  /** The three cases in full: no name, an address literal, any other name. */
  lemma NamesApplied(role: Role, hostname: string)
    ensures role == Server || hostname == "" ==> Expected(role, hostname) == Settings(None, None, None)
    ensures role == Client && IsIpLiteral(hostname) ==> Expected(role, hostname) == Settings(None, None, Some(hostname))
    ensures role == Client && hostname != "" && !IsIpLiteral(hostname) && '\0' !in hostname ==>
              Expected(role, hostname) == Settings(Some(hostname), Some(hostname), None)
  {
    hide IsIpLiteral;
    CStringKeeps(hostname);
    NotLiteral("");
    if IsIpLiteral(hostname) { LiteralHasNoNul(hostname); }
  }
}
