/** What the steps of the worker pool do to the lists and the loops, and what follows over
    runs: when a session starts, where a worker goes when it comes back, in which order
    workers are taken. */
module WorkerSteps {
  import opened WorkerPool

  /** Loop `i` has worker `w` in its hands. */
  predicate Holds<W(==)>(p: Pool<W>, i: int, w: W) {
    0 <= i < |p.loops| && (p.loops[i] == Accepting(w) || p.loops[i] == Pushing(w))
  }

  // ------------------------------------------------------------ the active list

  /** A session starts exactly when an accept succeeds before stop and its worker launches
      one; the worker goes to the end of the list with its stop request cleared. */
  lemma EntersActive<W>(p: Pool<W>, e: Event<W>, w: W)
    requires Inv(p) && Enabled(p, e)
    ensures var q := Apply(p, e);
            && ((w !in p.active && w in q.active) <==>
                  !p.token && e.Accepted? && !e.error && e.launch == Launched && p.loops[e.i] == Accepting(w))
            && (w !in p.active && w in q.active ==> q.active == p.active + [w] && w !in q.stopped)
  {
    hide Held, Live, Weight, Distinct, Conserved, WaitersMatch, Reversed;
    WaitersInRange(p);
    match e
    case Accepted(i, error, launch) => AcceptedActive(p, i, error, launch, w);
    case Pushed(i) =>
      InHands(p, i, p.loops[i].w);
      WithoutShrinks(p.active, p.loops[i].w);
    case Return(v) => WithoutShrinks(p.active, v);
    case _ =>
  }

  lemma AcceptedActive<W>(p: Pool<W>, i: nat, error: bool, launch: Launch, w: W)
    requires Inv(p) && Enabled(p, Accepted(i, error, launch))
    ensures var q, v := Apply(p, Accepted(i, error, launch)), p.loops[i].w;
            && v !in p.active
            && (p.token || error || launch != Launched ==> q.active == p.active && q.stopped <= p.stopped)
            && (!p.token && !error && launch == Launched ==> q.active == p.active + [v] && v !in q.stopped)
  {
    hide Held, Live, Weight, Distinct, Conserved, WaitersMatch, Without;
    WaitersInRange(p);
    var v := p.loops[i].w;
    InHands(p, i, v);
    WithoutLast(p.active, v);
  }

  /** A worker leaves the active list exactly by the push at the end of its session, and
      the others keep their order. */
  lemma LeavesActive<W>(p: Pool<W>, e: Event<W>, w: W)
    requires Inv(p) && Enabled(p, e)
    ensures var q := Apply(p, e);
            && ((w in p.active && w !in q.active) <==> e == Return(w))
            && (e == Return(w) ==> exists k :: 0 <= k < |p.active| && p.active[k] == w &&
                                               q.active == p.active[..k] + p.active[k + 1..])
            && (!e.Return? && !(e.Accepted? && e.launch == Launched) ==> q.active == p.active)
  {
    hide Held, Live, Weight, Distinct, Conserved, WaitersMatch, Reversed, Without;
    WaitersInRange(p);
    match e
    case Accepted(i, error, launch) => AcceptedActive(p, i, error, launch, w);
    case Pushed(i) => InHands(p, i, p.loops[i].w);
    case Return(v) =>
      OnceActive(p, v);
      var k := WithoutSplits(p.active, v);
      if w in p.active && w != v { WithoutElements(p.active, v, w); }
    case _ =>
  }

  /** No worker is twice on the active list. */
  lemma OnceActive<W>(p: Pool<W>, w: W)
    requires Inv(p) && w in p.active
    ensures w in p.active && w !in Without(p.active, w)
  {
    hide Held, Live, WaitersMatch, Without;
    WithoutCounts(p.active, w);
    var all := multiset(p.idle) + multiset(p.active) + Held(p.loops);
    assert all[w] <= 1;
    assert multiset(Without(p.active, w))[w] == 0;
  }

  lemma {:induction false} WithoutSplits<T>(s: seq<T>, x: T) returns (k: nat)
    requires x in s
    ensures k < |s| && s[k] == x && Without(s, x) == s[..k] + s[k + 1..]
  {
    if s[0] == x {
      k := 0;
    } else {
      var j := WithoutSplits(s[1..], x);
      k := j + 1;
      assert s[..k] + s[k + 1..] == [s[0]] + (s[1..][..j] + s[1..][j + 1..]);
    }
  }

  // ------------------------------------------------------- a worker comes back

  /** Between `p` and `q` worker `w` went to the loop on top of the waiter stack or, when
      nobody waited, to the front of the idle list. */
  predicate Handed<W(==)>(p: Pool<W>, q: Pool<W>, w: W) {
    if p.waiters == [] then q.waiters == [] && q.idle == [w] + p.idle
    else q.waiters == p.waiters[1..] && q.idle == p.idle &&
         p.waiters[0] < |q.loops| && q.loops[p.waiters[0]] == Woken(w)
  }

  /** No loop but `i` and the one on top of the stack changed. */
  predicate OthersStay<W(==)>(p: Pool<W>, q: Pool<W>, i: int) {
    |q.loops| == |p.loops| &&
    forall j | 0 <= j < |p.loops| && j != i && (p.waiters == [] || j != p.waiters[0]) :: q.loops[j] == p.loops[j]
  }

  lemma PushHands<W>(p: Pool<W>, w: W)
    requires WaitersMatch(p)
    ensures var q := PushWorker(p, w); Handed(p, q, w) && OthersStay(p, q, -1) && q.active == Without(p.active, w)
  {
    hide Distinct, Without;
  }

  /** A worker whose launcher was dropped, whose session could not be set up, or which a
      loop pushes back. */
  lemma LoopReturns<W>(p: Pool<W>, e: Event<W>, i: nat)
    requires Inv(p) && Enabled(p, e)
    requires e == Pushed(i) || (!p.token && (e == Accepted(i, false, Dropped) || e == Accepted(i, false, SetupFailed)))
    ensures var q, w := Apply(p, e), p.loops[i].w;
            Handed(p, q, w) && OthersStay(p, q, i) && q.loops[i] == Check && q.active == p.active
  {
    hide Inv, Without, WaitersMatch, PushWorker, Handed, OthersStay;
    var w := p.loops[i].w;
    HandFacts(p, i);
    var c := p.(loops := p.loops[i := Check]);
    WaitersInRange(p);
    WaitersInRange(c);
    var l := c.(active := c.active + [w], stopped := c.stopped - {w});
    SameWaiters(c, l);
    PushHands(c, w);
    PushHands(l, w);
    ThroughCheck(p, c, PushWorker(c, w), i, w);
    ThroughCheck(p, l, PushWorker(l, w), i, w);
  }

  lemma HandFacts<W>(p: Pool<W>, i: nat)
    requires Inv(p) && i < |p.loops| && (p.loops[i].Accepting? || p.loops[i].Pushing?)
    ensures var w := p.loops[i].w;
            i !in p.waiters && Without(p.active, w) == p.active && Without(p.active + [w], w) == p.active
    ensures WaitersMatch(p) && WaitersMatch(p.(loops := p.loops[i := Check]))
  {
    hide Held, Live, Weight, Distinct, Without;
    InHands(p, i, p.loops[i].w);
    WithoutLast(p.active, p.loops[i].w);
    MoveTidy(p, i, Check);
  }

  lemma ThroughCheck<W>(p: Pool<W>, c: Pool<W>, q: Pool<W>, i: nat, w: W)
    requires i < |p.loops| && i !in p.waiters
    requires c.loops == p.loops[i := Check] && c.waiters == p.waiters && c.idle == p.idle
    requires Handed(c, q, w) && OthersStay(c, q, -1)
    ensures Handed(p, q, w) && OthersStay(p, q, i) && q.loops[i] == Check
  {
  }

  lemma SameWaiters<W>(p: Pool<W>, q: Pool<W>)
    requires WaitersMatch(p) && q == p.(active := q.active, stopped := q.stopped)
    ensures WaitersMatch(q)
  {
  }

  lemma SessionReturns<W>(p: Pool<W>, w: W)
    requires Inv(p) && Enabled(p, Return(w))
    ensures var q := Apply(p, Return(w)); Handed(p, q, w) && OthersStay(p, q, -1)
  {
    hide Held, Live, Weight, Distinct, Conserved, Without;
  }

  /** A failed accept, and any accept once stop is requested, changes nothing but the
      loop, which is now about to push its worker back. */
  lemma AcceptFails<W>(p: Pool<W>, i: nat, error: bool, launch: Launch)
    requires Inv(p) && Enabled(p, Accepted(i, error, launch)) && (p.token || error)
    ensures var q, w := Apply(p, Accepted(i, error, launch)), p.loops[i].w;
            && Holds(q, i, w) && q.loops[i].Pushing?
            && q == p.(loops := q.loops) && |q.loops| == |p.loops|
            && forall j | 0 <= j < |p.loops| && j != i :: q.loops[j] == p.loops[j]
  {
    hide Held, Live, Weight, Distinct, Conserved;
  }

  lemma PushingStays<W>(p: Pool<W>, e: Event<W>, i: nat)
    requires Inv(p) && Enabled(p, e) && i < |p.loops| && p.loops[i].Pushing? && e != Pushed(i)
    ensures var q := Apply(p, e); i < |q.loops| && q.loops[i] == p.loops[i]
  {
    hide Held, Live, Weight, Distinct, Conserved;
    LiveLoop(p, i);
    assert i !in p.waiters;
  }

  lemma {:induction false} PushingWaits<W>(p: Pool<W>, es: seq<Event<W>>, q: Pool<W>, i: nat)
    requires Inv(p) && IsRun(p, es, q) && i < |p.loops| && p.loops[i].Pushing? && Pushed(i) !in es
    ensures Inv(q) && i < |q.loops| && q.loops[i] == p.loops[i]
    decreases |es|
  {
    hide Inv, Enabled, Apply;
    if es != [] {
      StepKeeps(p, es[0]);
      PushingStays(p, es[0], i);
      assert Pushed(i) !in es[1..];
      PushingWaits(Apply(p, es[0]), es[1..], q, i);
    }
  }

  /** The worker of a failed accept stays with its loop, whatever else happens, until the
      loop's push, which hands it to the loop then on top of the stack or to the idle list. */
  lemma FailedAcceptReturns<W>(p: Pool<W>, i: nat, launch: Launch, es: seq<Event<W>>, q: Pool<W>)
    requires Inv(p) && Enabled(p, Accepted(i, true, launch))
    requires IsRun(Apply(p, Accepted(i, true, launch)), es, q) && Pushed(i) !in es
    ensures Inv(q) && Enabled(q, Pushed(i)) && Holds(q, i, p.loops[i].w)
    ensures Handed(q, Apply(q, Pushed(i)), p.loops[i].w)
  {
    hide Inv, Apply, Handed, IsRun;
    InvInRange(p);
    StepKeeps(p, Accepted(i, true, launch));
    AcceptFails(p, i, true, launch);
    PushingWaits(Apply(p, Accepted(i, true, launch)), es, q, i);
    InvInRange(q);
    LoopReturns(q, Pushed(i), i);
  }

  // ----------------------------------------------------------- taking a worker

  /** The top of an accept loop: it ends once stop is requested, else takes the worker at
      the front of the idle list, else goes on top of the stack; nothing else changes. */
  lemma Takes<W>(p: Pool<W>, i: nat)
    requires Inv(p) && Enabled(p, Test(i))
    ensures var q := Apply(p, Test(i));
            && |q.loops| == |p.loops| && (forall j | 0 <= j < |p.loops| && j != i :: q.loops[j] == p.loops[j])
            && (p.token ==> q.loops[i] == Done && q.accepts == p.accepts - 1)
            && (p.token ==> q.idle == p.idle && q.waiters == p.waiters)
            && (!p.token ==> q.accepts == p.accepts)
            && (!p.token && p.idle != [] ==> q.loops[i] == Accepting(p.idle[0]) && q.idle == p.idle[1..])
            && (!p.token && p.idle != [] ==> q.waiters == p.waiters)
            && (!p.token && p.idle == [] ==> q.loops[i] == Waiting && q.idle == [] && q.waiters == [i] + p.waiters)
  {
    hide Held, Live, Weight, Distinct, Conserved, WaitersMatch;
    WaitersInRange(p);
    LiveLoop(p, i);
  }

  /** A woken loop accepts with the worker it was handed. */
  lemma Resumes<W>(p: Pool<W>, i: nat)
    requires Inv(p) && Enabled(p, Resume(i))
    ensures var q := Apply(p, Resume(i));
            q == p.(loops := q.loops) && Holds(q, i, p.loops[i].w) && q.loops[i].Accepting?
    ensures forall j | 0 <= j < |p.loops| && j != i :: Apply(p, Resume(i)).loops[j] == p.loops[j]
  {
    hide Held, Live, Weight, Distinct, Conserved;
  }

  // -------------------------------------------------------- calls from outside

  /** Starting gives one loop to each port, when there is no loop left. */
  lemma Starts<W>(p: Pool<W>)
    requires Inv(p)
    ensures var q := Apply(p, Start);
            && (p.running || p.accepts > 0 ==> q == p)
            && (!p.running && p.accepts == 0 ==>
                  && q.running && !q.token && q.accepts == q.ports == p.ports
                  && |q.loops| == p.ports && (forall k | 0 <= k < p.ports :: q.loops[k] == Check)
                  && q.idle == p.idle && q.active == p.active && q.waiters == [] && q.stops == p.stops)
  {
    if p.accepts == 0 {
      NoneLive(p.loops);
      NoWaiters(p);
    }
  }

  /** Stopping a running server sets the token and launches one more stop coroutine. */
  lemma Stops<W>(p: Pool<W>)
    requires Inv(p)
    ensures var q := Apply(p, Stop);
            && !q.running && q.loops == p.loops && q.active == p.active && q.stopped == p.stopped
            && (p.running ==> q.token && q.stops == p.stops + 1 && Enabled(q, DoStop))
            && (!p.running ==> q == p)
  {
    hide Held, Live, Weight, Distinct, Conserved, WaitersMatch;
    WaitersInRange(p);
  }

  /** The server runs from a start that takes effect until a stop; the token is the stop
      request of the loops. */
  lemma Flags<W>(p: Pool<W>, e: Event<W>)
    requires Inv(p) && Enabled(p, e)
    ensures var q := Apply(p, e);
            && (q.running <==> if e.Start? then p.running || p.accepts == 0 else p.running && !e.Stop?)
            && (q.token <==> if e.Start? then p.token && p.accepts > 0
                             else p.token || (e.Stop? && p.running))
  {
    hide Held, Live, Weight, Distinct, Conserved, WaitersMatch, Without;
    WaitersInRange(p);
  }

  /** Stop is requested of exactly the active workers by the stop coroutine, is withdrawn
      from exactly the worker that is launched, and comes along with new workers. */
  lemma StopRequests<W>(p: Pool<W>, e: Event<W>, w: W)
    requires Inv(p) && Enabled(p, e)
    ensures var q := Apply(p, e);
            w in q.stopped <==>
              if e.DoStop? then w in p.stopped || w in p.active
              else if e.SetWorkers? then w in e.stopped
              else w in p.stopped && !(e.Accepted? && !p.token && !e.error && e.launch != Dropped &&
                                       p.loops[e.i] == Accepting(w))
  {
    hide Held, Live, Weight, Distinct, Conserved, WaitersMatch, Without;
    WaitersInRange(p);
  }

  lemma {:induction false} ReversedAt<T>(s: seq<T>, k: nat)
    requires k < |s|
    ensures |Reversed(s)| == |s| && Reversed(s)[k] == s[|s| - 1 - k]
  {
    if |s| > 1 { ReversedAt(s[..|s| - 1], if k > 0 then k - 1 else 0); }
  }

  /** New workers are all idle, the last one first to be taken. */
  lemma NewWorkers<W>(p: Pool<W>, ws: seq<W>, stopped: set<W>, k: nat)
    requires Inv(p) && Enabled(p, SetWorkers(ws, stopped)) && k < |ws|
    ensures var q := Apply(p, SetWorkers(ws, stopped));
            |q.idle| == |ws| && q.idle[k] == ws[|ws| - 1 - k] && q.active == [] && q.stopped == stopped
  {
    InvInRange(p);
    ReversedAt(ws, k);
  }

  lemma PortStep<W>(p: Pool<W>, e: Event<W>)
    requires Inv(p) && Enabled(p, e)
    ensures Apply(p, e).ports == p.ports + if e == Bind(true) then 1 else 0
  {
    hide Held, Live, Weight, Distinct, Conserved, WaitersMatch, Without;
    WaitersInRange(p);
  }

  /** Over every run the ports are the successful binds. */
  lemma {:induction false} PortsAreBinds<W>(p: Pool<W>, es: seq<Event<W>>, q: Pool<W>)
    requires Inv(p) && IsRun(p, es, q)
    ensures q.ports == p.ports + Times(es, Bind(true))
    decreases |es|
  {
    hide Inv, Enabled, Apply;
    if es != [] {
      StepKeeps(p, es[0]);
      PortStep(p, es[0]);
      PortsAreBinds(Apply(p, es[0]), es[1..], q);
    }
  }
}
