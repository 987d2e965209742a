/** The protocol of the TCP server's worker pool, as atomic steps on the server's
    executor: accept loops, sessions, start, stop and join over the idle list, the
    active list and the stack of waiting loops. */
module WorkerPool {

  /** Where an accept loop stands. A worker travels in the loop's hands from the
      moment it is popped (or handed over by a push) until it is launched or pushed. */
  datatype Loop<W> =
    | Check                 // about to test the stop token
    | Waiting               // suspended in pop, on the waiter stack
    | Woken(w: W)           // its waiter holds a worker, continuation posted
    | Accepting(w: W)       // suspended in accept
    | Pushing(w: W)         // accept failed, about to push the worker back
    | Done                  // the loop has returned

  /** What worker_base::run did with its launcher. */
  datatype Launch = Launched | Dropped | SetupFailed

  datatype Event<W> =
    | Bind(ok: bool)
    | SetWorkers(ws: seq<W>, stopped: set<W>)
    | Start
    | Stop
    | DoStop
    | Test(i: nat)
    | Resume(i: nat)
    | Accepted(i: nat, error: bool, launch: Launch)
    | Pushed(i: nat)
    | Finish(w: W)
    | Return(w: W)

  /** `idle`, `active` and `waiters` list the heads first. `returning` are the active
      workers whose session has ended, `stopped` the workers whose stop source is
      requested, `stops` the stop coroutines launched and not yet run. */
  datatype Pool<W(==)> = Pool(
    workers: set<W>, idle: seq<W>, active: seq<W>, waiters: seq<nat>, loops: seq<Loop<W>>,
    returning: set<W>, stopped: set<W>,
    ports: nat, running: bool, token: bool, accepts: nat, stops: nat)

  function Elements<W(==)>(s: seq<W>): set<W> { set x | x in s }

  predicate Distinct<T(==)>(s: seq<T>) { forall i, j | 0 <= i < j < |s| :: s[i] != s[j] }

  function Without<T(==)>(s: seq<T>, x: T): (r: seq<T>)
    ensures x !in s ==> r == s
  {
    if s == [] then [] else if s[0] == x then s[1..] else [s[0]] + Without(s[1..], x)
  }

  function Reversed<T>(s: seq<T>): seq<T> {
    if s == [] then [] else [s[|s| - 1]] + Reversed(s[..|s| - 1])
  }

  lemma {:induction false} ReversedCounts<T>(s: seq<T>)
    ensures multiset(Reversed(s)) == multiset(s)
  {
    if s != [] {
      assert s == s[..|s| - 1] + [s[|s| - 1]];
      ReversedCounts(s[..|s| - 1]);
    }
  }

  function Initial<W>(ports: nat): Pool<W> {
    Pool({}, [], [], [], [], {}, {}, ports, false, false, 0, 0)
  }

  /** A worker comes back: it leaves the active list if it is there, then wakes the
      loop on top of the waiter stack or goes to the front of the idle list. */
  function PushWorker<W>(p: Pool<W>, w: W): Pool<W>
    requires forall k | 0 <= k < |p.waiters| :: p.waiters[k] < |p.loops|
  {
    var q := p.(active := Without(p.active, w), returning := p.returning - {w});
    if q.waiters != [] then q.(waiters := q.waiters[1..], loops := q.loops[q.waiters[0] := Woken(w)])
    else q.(idle := [w] + q.idle)
  }

  predicate Enabled<W>(p: Pool<W>, e: Event<W>) {
    match e
    case Bind(_) => p.accepts == 0
    case SetWorkers(ws, stopped) => p.accepts == 0 && p.active == [] && Distinct(ws) && stopped <= Elements(ws)
    case Start => true
    case Stop => true
    case DoStop => p.stops > 0
    case Test(i) => i < |p.loops| && p.loops[i].Check?
    case Resume(i) => i < |p.loops| && p.loops[i].Woken?
    case Accepted(i, _, _) => i < |p.loops| && p.loops[i].Accepting?
    case Pushed(i) => i < |p.loops| && p.loops[i].Pushing?
    case Finish(w) => w in p.active && w !in p.returning
    case Return(w) => w in p.active && w in p.returning
  }

  function TestToken<W>(p: Pool<W>, i: nat): Pool<W>
    requires i < |p.loops|
  {
    if p.token then p.(loops := p.loops[i := Done], accepts := if p.accepts > 0 then p.accepts - 1 else 0)
    else if p.idle != [] then p.(idle := p.idle[1..], loops := p.loops[i := Accepting(p.idle[0])])
    else p.(waiters := [i] + p.waiters, loops := p.loops[i := Waiting])
  }

  function CompleteAccept<W>(p: Pool<W>, i: nat, error: bool, launch: Launch): Pool<W>
    requires i < |p.loops| && p.loops[i].Accepting?
    requires forall k | 0 <= k < |p.waiters| :: p.waiters[k] < |p.loops|
  {
    var w := p.loops[i].w;
    if p.token || error then p.(loops := p.loops[i := Pushing(w)]) else
    var q := p.(loops := p.loops[i := Check]);
    match launch
    case Launched => q.(active := q.active + [w], stopped := q.stopped - {w})
    case Dropped => PushWorker(q, w)
    case SetupFailed => PushWorker(q.(active := q.active + [w], stopped := q.stopped - {w}), w)
  }

  function Apply<W>(p: Pool<W>, e: Event<W>): Pool<W>
    requires Enabled(p, e) && forall k | 0 <= k < |p.waiters| :: p.waiters[k] < |p.loops|
  {
    match e
    case Bind(ok) => if ok then p.(ports := p.ports + 1) else p
    case SetWorkers(ws, stopped) =>
      p.(workers := Elements(ws), idle := Reversed(ws), returning := {}, stopped := stopped)
    case Start =>
      if p.running || p.accepts != 0 then p
      else p.(running := true, token := false, accepts := p.ports, loops := seq(p.ports, k => Check))
    case Stop => if p.running then p.(running := false, token := true, stops := p.stops + 1) else p
    case DoStop => p.(stops := p.stops - 1, stopped := p.stopped + Elements(p.active))
    case Test(i) => TestToken(p, i)
    case Resume(i) => p.(loops := p.loops[i := Accepting(p.loops[i].w)])
    case Accepted(i, error, launch) => CompleteAccept(p, i, error, launch)
    case Pushed(i) => PushWorker(p.(loops := p.loops[i := Check]), p.loops[i].w)
    case Finish(w) => p.(returning := p.returning + {w})
    case Return(w) => PushWorker(p, w)
  }

  // ------------------------------------------------------------------ counting

  /** The worker in a loop's hands. */
  function Hand<W>(l: Loop<W>): multiset<W> {
    match l
    case Woken(w) => multiset{w}
    case Accepting(w) => multiset{w}
    case Pushing(w) => multiset{w}
    case _ => multiset{}
  }

  function Held<W>(loops: seq<Loop<W>>): multiset<W> {
    if loops == [] then multiset{} else Hand(loops[0]) + Held(loops[1..])
  }

  function Live<W>(loops: seq<Loop<W>>): nat {
    if loops == [] then 0 else (if loops[0].Done? then 0 else 1) + Live(loops[1..])
  }

  function LoopWeight<W>(l: Loop<W>): nat {
    match l
    case Waiting => 5
    case Woken(_) => 4
    case Accepting(_) => 3
    case Pushing(_) => 2
    case Check => 1
    case Done => 0
  }

  function Weight<W>(loops: seq<Loop<W>>): nat {
    if loops == [] then 0 else LoopWeight(loops[0]) + Weight(loops[1..])
  }

  lemma {:induction false} UpdateHeld<W>(loops: seq<Loop<W>>, i: nat, l: Loop<W>)
    requires i < |loops|
    ensures Held(loops[i := l]) + Hand(loops[i]) == Held(loops) + Hand(l)
    ensures Hand(loops[i]) <= Held(loops)
    ensures Hand(l) == Hand(loops[i]) ==> Held(loops[i := l]) == Held(loops)
  {
    hide Hand;
    if i > 0 {
      UpdateHeld(loops[1..], i - 1, l);
      assert loops[i := l][1..] == loops[1..][i - 1 := l];
      Exchange(Hand(loops[0]), Held(loops[1..][i - 1 := l]), Hand(loops[i]), Held(loops[1..]), Hand(l));
    } else {
      assert loops[i := l][1..] == loops[1..];
      Exchange(multiset{}, Hand(l) + Held(loops[1..]), Hand(loops[0]), Hand(loops[0]) + Held(loops[1..]), Hand(l));
    }
    if Hand(l) == Hand(loops[i]) { Cancel(Held(loops[i := l]), Held(loops), Hand(l)); }
  }

  lemma Cancel<T>(a: multiset<T>, b: multiset<T>, c: multiset<T>)
    requires a + c == b + c
    ensures a == b
  {
    assert (a + c) - c == a && (b + c) - c == b;
  }

  lemma Exchange<T>(a: multiset<T>, b: multiset<T>, c: multiset<T>, d: multiset<T>, e: multiset<T>)
    requires b + c == d + e
    ensures (a + b) + c == (a + d) + e
  {
    assert (a + b) + c == a + (b + c);
    assert (a + d) + e == a + (d + e);
  }

  lemma Rotate<T>(a: multiset<T>, b: multiset<T>, c: multiset<T>, d: multiset<T>)
    ensures a + b + (c + d) == (d + a) + b + c
  {
  }

  lemma {:induction false} UpdateCounts<W>(loops: seq<Loop<W>>, i: nat, l: Loop<W>)
    requires i < |loops|
    ensures Live(loops[i := l]) + (if loops[i].Done? then 0 else 1) == Live(loops) + (if l.Done? then 0 else 1)
    ensures Weight(loops[i := l]) + LoopWeight(loops[i]) == Weight(loops) + LoopWeight(l)
  {
    if i > 0 {
      UpdateCounts(loops[1..], i - 1, l);
      assert loops[i := l][1..] == loops[1..][i - 1 := l];
    } else {
      assert loops[i := l][1..] == loops[1..];
    }
  }

  lemma {:induction false} WithoutCounts<T>(s: seq<T>, x: T)
    ensures multiset(Without(s, x)) == multiset(s) - multiset{x}
  {
    if s != [] {
      assert s == [s[0]] + s[1..];
      if s[0] != x { WithoutCounts(s[1..], x); }
    }
  }

  lemma {:induction false} AllChecks<W>(n: nat)
    ensures var s := seq(n, k => Check); Held<W>(s) == multiset{} && Live<W>(s) == n
  {
    var s: seq<Loop<W>> := seq(n, k => Check);
    if n > 0 {
      AllChecks<W>(n - 1);
      assert s[1..] == seq(n - 1, k => Check);
    }
  }

  // ----------------------------------------------------------------- invariant

  /** Exactly the waiting loops are on the waiter stack, each once. */
  ghost predicate WaitersMatch<W>(p: Pool<W>) {
    && Distinct(p.waiters)
    && (forall k | 0 <= k < |p.waiters| :: p.waiters[k] < |p.loops| && p.loops[p.waiters[k]].Waiting?)
    && (forall i | 0 <= i < |p.loops| && p.loops[i].Waiting? :: i in p.waiters)
    && (p.waiters != [] ==> p.idle == [])
  }

  /** Every worker is in exactly one place: idle, active, or the hands of one loop. */
  ghost predicate Conserved<W>(p: Pool<W>) {
    multiset(p.idle) + multiset(p.active) + Held(p.loops) == multiset(p.workers)
  }

  /** The same, with `w` out of the pool and about to be pushed back. */
  ghost predicate ConservedBut<W>(p: Pool<W>, w: W) {
    multiset(p.idle) + multiset(Without(p.active, w)) + Held(p.loops) + multiset{w} == multiset(p.workers)
  }

  ghost predicate Tidy<W>(p: Pool<W>) {
    && WaitersMatch(p)
    && p.accepts == Live(p.loops)
    && p.returning <= Elements(p.active)
    && (p.running ==> !p.token)
    && (!p.running ==> p.token || p.accepts == 0)
  }

  ghost predicate Inv<W>(p: Pool<W>) { Tidy(p) && Conserved(p) }

  // -------------------------------------------------------------- sequences

  lemma {:induction false} WithoutElements<T>(s: seq<T>, x: T, y: T)
    requires y in s && y != x
    ensures y in Without(s, x)
  {
    if s[0] == y || s[0] == x { } else { WithoutElements(s[1..], x, y); }
  }

  lemma {:induction false} WithoutShrinks<T>(s: seq<T>, x: T)
    ensures forall y | y in Without(s, x) :: y in s
    ensures |Without(s, x)| == if x in s then |s| - 1 else |s|
  {
    if s != [] && s[0] != x { WithoutShrinks(s[1..], x); }
  }

  lemma {:induction false} WithoutLast<T>(s: seq<T>, x: T)
    requires x !in s
    ensures Without(s + [x], x) == s
  {
    if s != [] {
      WithoutLast(s[1..], x);
      assert (s + [x])[1..] == s[1..] + [x];
    }
  }

  lemma DistinctTail<T>(s: seq<T>)
    requires Distinct(s) && s != []
    ensures Distinct(s[1..]) && s[0] !in s[1..]
  {
  }

  lemma DistinctCons<T>(x: T, s: seq<T>)
    requires Distinct(s) && x !in s
    ensures Distinct([x] + s)
  {
  }

  lemma {:induction false} DistinctIsSet<T>(s: seq<T>)
    requires Distinct(s)
    ensures multiset(s) == multiset(Elements(s))
  {
    if s != [] {
      DistinctTail(s);
      DistinctIsSet(s[1..]);
      assert s == [s[0]] + s[1..];
      assert Elements(s) == {s[0]} + Elements(s[1..]);
    }
  }

  lemma {:induction false} NoneLive<W>(loops: seq<Loop<W>>)
    requires Live(loops) == 0
    ensures Held(loops) == multiset{} && forall i | 0 <= i < |loops| :: loops[i].Done?
  {
    if loops != [] { NoneLive(loops[1..]); }
  }

  // ---------------------------------------------------- every step keeps it

  lemma PushConserves<W>(p: Pool<W>, w: W)
    requires WaitersMatch(p) && ConservedBut(p, w)
    ensures Conserved(PushWorker(p, w))
  {
    hide Held, Distinct;
    var a := multiset(Without(p.active, w));
    if p.waiters != [] {
      UpdateHeld(p.loops, p.waiters[0], Woken(w));
      assert Held(p.loops[p.waiters[0] := Woken(w)]) == Held(p.loops) + multiset{w};
      assert multiset(p.idle) + a + (Held(p.loops) + multiset{w}) == multiset(p.idle) + a + Held(p.loops) + multiset{w};
    } else {
      assert multiset([w] + p.idle) == multiset{w} + multiset(p.idle);
      assert multiset{w} + multiset(p.idle) + a + Held(p.loops) == multiset(p.idle) + a + Held(p.loops) + multiset{w};
    }
  }

  lemma PushTidy<W>(p: Pool<W>, w: W)
    requires Tidy(p)
    ensures Tidy(PushWorker(p, w))
    ensures Weight(PushWorker(p, w).loops) <= Weight(p.loops)
  {
    hide Live, Weight, Distinct;
    var q := PushWorker(p, w);
    assert q.returning <= Elements(q.active) by {
      forall y | y in q.returning ensures y in q.active { WithoutElements(p.active, w, y); }
    }
    if p.waiters != [] {
      UpdateCounts(p.loops, p.waiters[0], Woken(w));
      DistinctTail(p.waiters);
      WakeMatches(p, w);
    }
  }

  lemma WakeMatches<W>(p: Pool<W>, w: W)
    requires WaitersMatch(p) && p.waiters != []
    ensures WaitersMatch(PushWorker(p, w))
  {
    DistinctTail(p.waiters);
    var q := PushWorker(p, w);
    forall i | 0 <= i < |q.loops| && q.loops[i].Waiting? ensures i in q.waiters {
      assert i in p.waiters;
      assert p.waiters == [p.waiters[0]] + p.waiters[1..];
    }
  }

  /** A loop that is neither waiting nor done changes to another such state. */
  lemma MoveTidy<W>(p: Pool<W>, i: nat, l: Loop<W>)
    requires Tidy(p) && i < |p.loops| && !p.loops[i].Waiting? && !l.Waiting? && !l.Done? && !p.loops[i].Done?
    ensures Tidy(p.(loops := p.loops[i := l]))
  {
    hide Live, Weight, Distinct;
    UpdateCounts(p.loops, i, l);
  }

  lemma TestTidy<W>(p: Pool<W>, i: nat)
    requires Tidy(p) && i < |p.loops| && p.loops[i].Check?
    ensures Tidy(TestToken(p, i))
  {
    hide Live, Weight, Distinct;
    var q := TestToken(p, i);
    UpdateCounts(p.loops, i, q.loops[i]);
    if !p.token && p.idle == [] {
      assert i !in p.waiters;
      DistinctCons(i, p.waiters);
    }
  }

  lemma PopConserves<W>(p: Pool<W>, i: nat)
    requires Conserved(p) && i < |p.loops| && p.loops[i].Check? && p.idle != []
    ensures Conserved(p.(idle := p.idle[1..], loops := p.loops[i := Accepting(p.idle[0])]))
  {
    hide Held;
    var w := p.idle[0];
    UpdateHeld(p.loops, i, Accepting(w));
    assert Held(p.loops[i := Accepting(w)]) == Held(p.loops) + multiset{w};
    assert multiset(p.idle) == multiset{w} + multiset(p.idle[1..]) by { assert p.idle == [w] + p.idle[1..]; }
    Rotate(multiset(p.idle[1..]), multiset(p.active), Held(p.loops), multiset{w});
  }

  lemma TestConserves<W>(p: Pool<W>, i: nat)
    requires Conserved(p) && i < |p.loops| && p.loops[i].Check?
    ensures Conserved(TestToken(p, i))
  {
    hide Held;
    if !p.token && p.idle != [] { PopConserves(p, i); }
    else { UpdateHeld(p.loops, i, TestToken(p, i).loops[i]); }
  }

  /** The worker in a loop's hands is nowhere else. */
  lemma InHands<W>(p: Pool<W>, i: nat, w: W)
    requires Conserved(p) && i < |p.loops| && Hand(p.loops[i]) == multiset{w}
    ensures w in p.workers && w !in p.idle && w !in p.active
    ensures ConservedBut(p.(loops := p.loops[i := Check]), w)
    ensures Without(p.active, w) == p.active
  {
    hide Held;
    UpdateHeld(p.loops, i, Check);
    var all := multiset(p.idle) + multiset(p.active) + Held(p.loops);
    assert all[w] <= 1 && Held(p.loops)[w] >= 1;
    assert multiset(p.idle)[w] == 0 && multiset(p.active)[w] == 0;
    var h := Held(p.loops[i := Check]);
    assert h + multiset{w} == Held(p.loops);
    var lists := multiset(p.idle) + multiset(p.active);
    assert lists + h + multiset{w} == lists + (h + multiset{w});
  }

  lemma HandoverConserves<W>(p: Pool<W>, i: nat, l: Loop<W>)
    requires Conserved(p) && i < |p.loops| && Hand(l) == Hand(p.loops[i])
    ensures Conserved(p.(loops := p.loops[i := l]))
  {
    hide Held;
    UpdateHeld(p.loops, i, l);
  }

  lemma LaunchConserves<W>(p: Pool<W>, w: W)
    requires ConservedBut(p, w) && w !in p.active
    ensures Conserved(p.(active := p.active + [w]))
    ensures ConservedBut(p.(active := p.active + [w]), w)
  {
    hide Held;
    WithoutLast(p.active, w);
    assert multiset(p.active + [w]) == multiset(p.active) + multiset{w};
    assert multiset(p.idle) + (multiset(p.active) + multiset{w}) + Held(p.loops) ==
      multiset(p.idle) + multiset(p.active) + Held(p.loops) + multiset{w};
  }

  lemma AcceptKeeps<W>(p: Pool<W>, i: nat, error: bool, launch: Launch)
    requires Inv(p) && i < |p.loops| && p.loops[i].Accepting?
    ensures Inv(CompleteAccept(p, i, error, launch))
  {
    hide Held, Live, Weight, Distinct, Conserved, ConservedBut, WaitersMatch, PushWorker;
    var w := p.loops[i].w;
    assert forall k | 0 <= k < |p.waiters| :: p.waiters[k] < |p.loops| by { WaitersInRange(p); }
    if p.token || error {
      HandoverConserves(p, i, Pushing(w));
      MoveTidy(p, i, Pushing(w));
    } else {
      InHands(p, i, w);
      MoveTidy(p, i, Check);
      var q := p.(loops := p.loops[i := Check]);
      WaitersInRange(q);
      match launch
      case Launched =>
        LaunchConserves(q, w);
        LaunchedTidy(q, w);
        SameConserved(q.(active := q.active + [w]), q.stopped - {w});
      case Dropped =>
        PushConserves(q, w);
        PushTidy(q, w);
      case SetupFailed =>
        LaunchConserves(q, w);
        LaunchedTidy(q, w);
        var r := q.(active := q.active + [w], stopped := q.stopped - {w});
        SameConserved(q.(active := q.active + [w]), q.stopped - {w});
        SameConservedBut(q.(active := q.active + [w]), q.stopped - {w}, w);
        PushConserves(r, w);
        PushTidy(r, w);
    }
  }

  lemma WaitersInRange<W>(p: Pool<W>)
    requires WaitersMatch(p)
    ensures forall k | 0 <= k < |p.waiters| :: p.waiters[k] < |p.loops|
  {
  }

  lemma InvInRange<W>(p: Pool<W>)
    requires Inv(p)
    ensures forall k | 0 <= k < |p.waiters| :: p.waiters[k] < |p.loops|
  {
  }

  lemma SameConserved<W>(p: Pool<W>, s: set<W>)
    ensures Conserved(p.(stopped := s)) == Conserved(p)
  {
  }

  lemma SameConservedBut<W>(p: Pool<W>, s: set<W>, w: W)
    ensures ConservedBut(p.(stopped := s), w) == ConservedBut(p, w)
  {
  }

  lemma LaunchedTidy<W>(p: Pool<W>, w: W)
    requires Tidy(p)
    ensures Tidy(p.(active := p.active + [w], stopped := p.stopped - {w}))
  {
    hide Live, Distinct;
  }

  lemma PushedKeeps<W>(p: Pool<W>, i: nat)
    requires Inv(p) && i < |p.loops| && p.loops[i].Pushing?
    ensures Inv(Apply(p, Pushed(i)))
  {
    hide Held, Live, Weight, Distinct, PushWorker;
    var w := p.loops[i].w;
    InHands(p, i, w);
    MoveTidy(p, i, Check);
    PushConserves(p.(loops := p.loops[i := Check]), w);
    PushTidy(p.(loops := p.loops[i := Check]), w);
  }

  lemma ReturnKeeps<W>(p: Pool<W>, w: W)
    requires Inv(p) && w in p.active && w in p.returning
    ensures Inv(Apply(p, Return(w)))
  {
    hide Held, Live, Weight, Distinct, PushWorker;
    WithoutCounts(p.active, w);
    assert multiset(p.active) == multiset(Without(p.active, w)) + multiset{w};
    assert multiset(p.idle) + (multiset(Without(p.active, w)) + multiset{w}) + Held(p.loops) ==
      multiset(p.idle) + multiset(Without(p.active, w)) + Held(p.loops) + multiset{w};
    PushConserves(p, w);
    PushTidy(p, w);
  }

  lemma StartKeeps<W>(p: Pool<W>)
    requires Inv(p)
    ensures Inv(Apply(p, Start))
  {
    if !p.running && p.accepts == 0 {
      AllChecks<W>(p.ports);
      NoneLive(p.loops);
      NoWaiters(p);
      hide Held, Live;
    }
  }

  lemma NoWaiters<W>(p: Pool<W>)
    requires WaitersMatch(p) && forall i | 0 <= i < |p.loops| :: p.loops[i].Done?
    ensures p.waiters == []
  {
    if p.waiters != [] { TopWaits(p); }
  }

  lemma TopWaits<W>(p: Pool<W>)
    requires WaitersMatch(p) && p.waiters != []
    ensures p.waiters[0] < |p.loops| && p.loops[p.waiters[0]].Waiting?
  {
  }

  lemma SetWorkersKeeps<W>(p: Pool<W>, ws: seq<W>, stopped: set<W>)
    requires Inv(p) && Enabled(p, SetWorkers(ws, stopped))
    ensures Inv(Apply(p, SetWorkers(ws, stopped)))
  {
    NoneLive(p.loops);
    NoWaiters(p);
    DistinctIsSet(ws);
    ReversedCounts(ws);
    hide Held, Live;
  }

  /** Every step keeps the invariant. */
  lemma StepKeeps<W>(p: Pool<W>, e: Event<W>)
    requires Inv(p) && Enabled(p, e)
    ensures Inv(Apply(p, e))
  {
    hide Held, Live, Weight, Distinct;
    match e
    case Bind(_) =>
    case SetWorkers(ws, stopped) => SetWorkersKeeps(p, ws, stopped);
    case Start => StartKeeps(p);
    case Stop =>
    case DoStop =>
    case Test(i) =>
      TestTidy(p, i);
      TestConserves(p, i);
    case Resume(i) =>
      HandoverConserves(p, i, Accepting(p.loops[i].w));
      MoveTidy(p, i, Accepting(p.loops[i].w));
    case Accepted(i, error, launch) => AcceptKeeps(p, i, error, launch);
    case Pushed(i) => PushedKeeps(p, i);
    case Finish(w) =>
    case Return(w) => ReturnKeeps(p, w);
  }

  // ------------------------------------------------------------------- runs

  ghost predicate IsRun<W>(p: Pool<W>, es: seq<Event<W>>, q: Pool<W>)
    decreases |es|
  {
    if es == [] then p == q
    else (forall k | 0 <= k < |p.waiters| :: p.waiters[k] < |p.loops|) &&
         Enabled(p, es[0]) && IsRun(Apply(p, es[0]), es[1..], q)
  }

  lemma InitialInv<W>(ports: nat)
    ensures Inv(Initial<W>(ports))
  {
  }

  lemma {:induction false} RunKeeps<W>(p: Pool<W>, es: seq<Event<W>>, q: Pool<W>)
    requires Inv(p) && IsRun(p, es, q)
    ensures Inv(q)
    decreases |es|
  {
    hide Inv, Enabled, Apply;
    if es != [] {
      StepKeeps(p, es[0]);
      RunKeeps(Apply(p, es[0]), es[1..], q);
    }
  }

  /** In every reachable state each worker is in exactly one place, loops wait only
      while no worker is idle, and the counter counts the loops that have not ended. */
  lemma Safety<W>(ports: nat, es: seq<Event<W>>, q: Pool<W>)
    requires IsRun(Initial<W>(ports), es, q)
    ensures Inv(q)
    ensures forall w | w in q.workers :: multiset(q.idle)[w] + multiset(q.active)[w] + Held(q.loops)[w] == 1
    ensures forall w | w in q.idle || w in q.active || w in Held(q.loops) :: w in q.workers
    ensures q.waiters != [] ==> q.idle == []
  {
    InitialInv<W>(ports);
    RunKeeps(Initial<W>(ports), es, q);
    var all := multiset(q.idle) + multiset(q.active) + Held(q.loops);
    assert forall w | w in q.workers :: all[w] == 1;
    assert forall w | w in all :: w in q.workers;
  }

  // ------------------------------------------------------------- session returns

  function Times<W(==)>(es: seq<Event<W>>, e: Event<W>): nat {
    if es == [] then 0 else (if es[0] == e then 1 else 0) + Times(es[1..], e)
  }

  lemma PushReturning<W>(p: Pool<W>, w: W)
    requires forall k | 0 <= k < |p.waiters| :: p.waiters[k] < |p.loops|
    ensures PushWorker(p, w).returning == p.returning - {w}
  {
  }

  /** A worker in a loop's hands has no session, so a push from there returns none. */
  lemma HandReturning<W>(p: Pool<W>, i: nat)
    requires Inv(p) && i < |p.loops| && (p.loops[i].Accepting? || p.loops[i].Pushing?)
    ensures p.loops[i].w !in p.returning
    ensures p.returning - {p.loops[i].w} == p.returning
    ensures forall k | 0 <= k < |p.waiters| :: p.waiters[k] < |p.loops|
  {
    hide Held, Live, Distinct;
    InHands(p, i, p.loops[i].w);
  }

  lemma ReturningStep<W>(p: Pool<W>, e: Event<W>, w: W)
    requires Inv(p) && Enabled(p, e)
    ensures (if w in p.returning then 1 else 0) + (if e == Finish(w) then 1 else 0) ==
            (if w in Apply(p, e).returning then 1 else 0) + (if e == Return(w) then 1 else 0)
  {
    hide Held, Live, Weight, Distinct, Conserved, WaitersMatch, PushWorker, Without, Reversed;
    WaitersInRange(p);
    match e
    case Accepted(i, error, launch) =>
      HandReturning(p, i);
      var q := p.(loops := p.loops[i := Check]);
      PushReturning(q, p.loops[i].w);
      PushReturning(q.(active := q.active + [p.loops[i].w], stopped := q.stopped - {p.loops[i].w}), p.loops[i].w);
    case Pushed(i) =>
      HandReturning(p, i);
      PushReturning(p.(loops := p.loops[i := Check]), p.loops[i].w);
    case Return(v) => PushReturning(p, v);
    case SetWorkers(_, _) => assert p.returning == {};
    case _ =>
  }

  /** Over every run, a worker's pushes at the end of a session and its ended sessions
      match one for one; a session is outstanding exactly while it is in `returning`. */
  lemma {:induction false} SessionsReturn<W>(p: Pool<W>, es: seq<Event<W>>, q: Pool<W>, w: W)
    requires Inv(p) && IsRun(p, es, q)
    ensures (if w in p.returning then 1 else 0) + Times(es, Finish(w)) ==
            (if w in q.returning then 1 else 0) + Times(es, Return(w))
    decreases |es|
  {
    hide Inv, Enabled, Apply;
    if es != [] {
      StepKeeps(p, es[0]);
      ReturningStep(p, es[0], w);
      SessionsReturn(Apply(p, es[0]), es[1..], q, w);
    }
  }

  // ----------------------------------------------------------- stop coverage

  /** The server runs, with a live accept loop and a worker: a session can start. */
  predicate MayLaunch<W>(p: Pool<W>) { p.running && p.accepts > 0 && p.workers != {} }

  /** Every active worker has been told to stop, and no session can start. */
  ghost predicate Covered<W>(p: Pool<W>) {
    Elements(p.active) <= p.stopped && !MayLaunch(p)
  }

  lemma CoveredStep<W>(p: Pool<W>, e: Event<W>)
    requires Inv(p) && Covered(p) && Enabled(p, e) && !e.Start?
    ensures Covered(Apply(p, e)) && Elements(Apply(p, e).active) <= Elements(p.active)
  {
    hide Held, Live, Weight, Distinct, Conserved, WaitersMatch;
    WaitersInRange(p);
    match e
    case Accepted(i, error, launch) =>
      LiveLoop(p, i);
      InHands(p, i, p.loops[i].w);
    case Pushed(i) => WithoutShrinks(p.active, p.loops[i].w);
    case Return(w) => WithoutShrinks(p.active, w);
    case _ =>
  }

  predicate NoStart<W>(es: seq<Event<W>>) { forall k | 0 <= k < |es| :: !es[k].Start? }

  lemma {:induction false} CoveredRun<W>(p: Pool<W>, es: seq<Event<W>>, q: Pool<W>)
    requires Inv(p) && Covered(p) && IsRun(p, es, q) && NoStart(es)
    ensures Covered(q) && Elements(q.active) <= Elements(p.active)
    decreases |es|
  {
    hide Inv, Covered, Enabled, Apply;
    if es != [] {
      StepKeeps(p, es[0]);
      CoveredStep(p, es[0]);
      assert NoStart(es[1..]);
      CoveredRun(Apply(p, es[0]), es[1..], q);
    }
  }

  /** From the moment the stop coroutine runs until the next start, every active worker
      has stop requested and no worker enters the active list, exactly when no session
      could start in the state where it ran: a late stop coroutine, one that runs after
      a restart, does not cover the sessions of the new run. */
  lemma StopCoverage<W>(p: Pool<W>)
    requires Inv(p) && Enabled(p, DoStop)
    ensures (forall es: seq<Event<W>>, q: Pool<W> | IsRun(Apply(p, DoStop), es, q) && NoStart(es) ::
               Elements(q.active) <= q.stopped && Elements(q.active) <= Elements(p.active))
            <==> !MayLaunch(p)
  {
    hide Inv, Apply;
    InvInRange(p);
    StepKeeps(p, DoStop);
    var c := Apply(p, DoStop);
    assert c == p.(stops := p.stops - 1, stopped := p.stopped + Elements(p.active)) by { StopIs(p); }
    if MayLaunch(p) {
      var es, q := SomeLaunch(c);
    } else {
      forall es: seq<Event<W>>, q: Pool<W> | IsRun(c, es, q) && NoStart(es)
        ensures Elements(q.active) <= q.stopped && Elements(q.active) <= Elements(p.active)
      {
        CoveredRun(c, es, q);
      }
    }
  }

  lemma StopIs<W>(p: Pool<W>)
    requires Inv(p) && Enabled(p, DoStop)
    ensures Apply(p, DoStop) == p.(stops := p.stops - 1, stopped := p.stopped + Elements(p.active))
  {
  }

  lemma RunCons<W>(p: Pool<W>, e: Event<W>, es: seq<Event<W>>, q: Pool<W>)
    requires Inv(p) && Enabled(p, e) && IsRun(Apply(p, e), es, q)
    ensures IsRun(p, [e] + es, q)
  {
    assert ([e] + es)[1..] == es;
  }

  /** A run without a start, after which an active worker is not told to stop. */
  ghost predicate Launches<W>(p: Pool<W>, es: seq<Event<W>>, q: Pool<W>) {
    IsRun(p, es, q) && NoStart(es) && !(Elements(q.active) <= q.stopped)
  }

  lemma LaunchCons<W>(p: Pool<W>, e: Event<W>, es: seq<Event<W>>, q: Pool<W>) returns (all: seq<Event<W>>)
    requires Inv(p) && Enabled(p, e) && !e.Start? && Launches(Apply(p, e), es, q)
    ensures Launches(p, all, q)
  {
    all := [e] + es;
    RunCons(p, e, es, q);
  }

  lemma LaunchAccepting<W>(p: Pool<W>, i: nat) returns (es: seq<Event<W>>, q: Pool<W>)
    requires Inv(p) && p.running && i < |p.loops| && p.loops[i].Accepting?
    ensures Launches(p, es, q)
  {
    hide Held, Live, Weight, Distinct, Conserved, WaitersMatch;
    WaitersInRange(p);
    var e := Accepted(i, false, Launched);
    q := Apply(p, e);
    var w := p.loops[i].w;
    assert w in Elements(q.active) && w !in q.stopped;
    assert IsRun(q, [], q);
    es := LaunchCons(p, e, [], q);
  }

  lemma LaunchWoken<W>(p: Pool<W>, i: nat) returns (es: seq<Event<W>>, q: Pool<W>)
    requires Inv(p) && p.running && i < |p.loops| && p.loops[i].Woken?
    ensures Launches(p, es, q)
  {
    hide Held, Live, Weight, Distinct, Conserved, WaitersMatch, Launches;
    WaitersInRange(p);
    StepKeeps(p, Resume(i));
    es, q := LaunchAccepting(Apply(p, Resume(i)), i);
    es := LaunchCons(p, Resume(i), es, q);
  }

  lemma LaunchCheck<W>(p: Pool<W>, i: nat) returns (es: seq<Event<W>>, q: Pool<W>)
    requires Inv(p) && p.running && i < |p.loops| && p.loops[i].Check? && p.idle != []
    ensures Launches(p, es, q)
  {
    hide Held, Live, Weight, Distinct, Conserved, WaitersMatch, Launches;
    WaitersInRange(p);
    StepKeeps(p, Test(i));
    es, q := LaunchAccepting(Apply(p, Test(i)), i);
    es := LaunchCons(p, Test(i), es, q);
  }

  /** After a push, either a loop is woken or a worker is idle. */
  lemma LaunchPushing<W>(p: Pool<W>, i: nat) returns (es: seq<Event<W>>, q: Pool<W>)
    requires Inv(p) && p.running && i < |p.loops| && p.loops[i].Pushing?
    ensures Launches(p, es, q)
  {
    hide Held, Live, Weight, Distinct, Conserved, Launches;
    StepKeeps(p, Pushed(i));
    if p.waiters != [] {
      es, q := LaunchWoken(Apply(p, Pushed(i)), p.waiters[0]);
    } else {
      es, q := LaunchCheck(Apply(p, Pushed(i)), i);
    }
    es := LaunchCons(p, Pushed(i), es, q);
  }

  lemma LaunchIdle<W>(p: Pool<W>) returns (es: seq<Event<W>>, q: Pool<W>)
    requires Inv(p) && p.running && p.accepts > 0 && p.idle != []
    ensures Launches(p, es, q)
  {
    hide Held, Live, Weight, Distinct, Conserved, Launches;
    var i := SomeLive(p.loops);
    assert !p.loops[i].Waiting?;
    match p.loops[i]
    case Check => es, q := LaunchCheck(p, i);
    case Woken(_) => es, q := LaunchWoken(p, i);
    case Accepting(_) => es, q := LaunchAccepting(p, i);
    case Pushing(_) => es, q := LaunchPushing(p, i);
  }

  lemma LaunchReturning<W>(p: Pool<W>, w: W) returns (es: seq<Event<W>>, q: Pool<W>)
    requires Inv(p) && p.running && p.accepts > 0 && w in p.active && w in p.returning
    ensures Launches(p, es, q)
  {
    hide Held, Live, Weight, Distinct, Conserved, Launches;
    StepKeeps(p, Return(w));
    if p.waiters != [] {
      es, q := LaunchWoken(Apply(p, Return(w)), p.waiters[0]);
    } else {
      es, q := LaunchIdle(Apply(p, Return(w)));
    }
    es := LaunchCons(p, Return(w), es, q);
  }

  lemma LaunchActive<W>(p: Pool<W>, w: W) returns (es: seq<Event<W>>, q: Pool<W>)
    requires Inv(p) && p.running && p.accepts > 0 && w in p.active
    ensures Launches(p, es, q)
  {
    hide Held, Live, Weight, Distinct, Conserved, Launches;
    if w in p.returning {
      es, q := LaunchReturning(p, w);
    } else {
      StepKeeps(p, Finish(w));
      es, q := LaunchReturning(Apply(p, Finish(w)), w);
      es := LaunchCons(p, Finish(w), es, q);
    }
  }

  /** Wherever the workers are, a running server with a live loop can start a session. */
  lemma SomeLaunch<W>(p: Pool<W>) returns (es: seq<Event<W>>, q: Pool<W>)
    requires Inv(p) && MayLaunch(p)
    ensures Launches(p, es, q)
  {
    hide Held, Live, Weight, Distinct, Launches, Tidy;
    var w :| w in p.workers;
    if p.idle != [] {
      es, q := LaunchIdle(p);
    } else if p.active != [] {
      es, q := LaunchActive(p, p.active[0]);
    } else {
      assert Held(p.loops)[w] > 0 by { assert multiset(p.workers)[w] == 1; }
      var i := Holder(p.loops, w);
      match p.loops[i]
      case Woken(_) => es, q := LaunchWoken(p, i);
      case Accepting(_) => es, q := LaunchAccepting(p, i);
      case Pushing(_) => es, q := LaunchPushing(p, i);
    }
  }

  lemma StepFirst<W>(p: Pool<W>, es: seq<Event<W>>, q: Pool<W>)
    requires es != [] && p.waiters == [] && Enabled(p, es[0]) && IsRun(Apply(p, es[0]), es[1..], q)
    ensures IsRun(p, es, q)
  {
  }

  /** Such a run: stop, join and start again before the stop coroutine gets its turn. */
  lemma LateStop<W>(w: W) returns (p: Pool<W>, q: Pool<W>)
    ensures IsRun(Initial<W>(1), [SetWorkers([w], {}), Start, Stop, Test(0), Start], p) && p.running && p.stops == 1
    ensures IsRun(p, [DoStop, Test(0), Accepted(0, false, Launched)], q) && w in q.active && w !in q.stopped
  {
    hide IsRun;
    p := Pool({w}, [w], [], [], [Check], {}, {}, 1, true, false, 1, 1);
    Restarted(w, p);
    var d := p.(stops := 0);
    var a := d.(idle := [], loops := [Accepting(w)]);
    q := a.(active := [w], loops := [Check]);
    assert Apply(p, DoStop) == d;
    assert Apply(d, Test(0)) == a;
    assert Apply(a, Accepted(0, false, Launched)) == q;
    assert IsRun(q, [], q) by { NoSteps(q); }
    var es := [DoStop, Test(0), Accepted(0, false, Launched)];
    assert es[1..][1..][1..] == [];
    StepFirst(a, es[1..][1..], q);
    StepFirst(d, es[1..], q);
    StepFirst(p, es, q);
  }

  lemma OneCheck<W>()
    ensures var s: seq<Loop<W>> := seq(1, k => Check); s == [Check]
  {
  }

  lemma NoSteps<W>(q: Pool<W>)
    ensures IsRun(q, [], q)
  {
  }

  lemma Restarted<W>(w: W, p: Pool<W>)
    requires p == Pool({w}, [w], [], [], [Check], {}, {}, 1, true, false, 1, 1)
    ensures IsRun(Initial<W>(1), [SetWorkers([w], {}), Start, Stop, Test(0), Start], p)
  {
    hide IsRun;
    var a := Initial<W>(1).(workers := {w}, idle := [w]);
    var b := a.(running := true, accepts := 1, loops := [Check]);
    var c := b.(running := false, token := true, stops := 1);
    var d := c.(loops := [Done], accepts := 0);
    assert Apply(Initial<W>(1), SetWorkers([w], {})) == a by { assert Reversed([w]) == [w]; }
    assert Apply(a, Start) == b by { OneCheck<W>(); }
    assert Apply(b, Stop) == c;
    assert Apply(c, Test(0)) == d;
    assert Apply(d, Start) == p by { OneCheck<W>(); }
    NoSteps(p);
    var es := [SetWorkers([w], {}), Start, Stop, Test(0), Start];
    assert es[1..][1..][1..][1..][1..] == [];
    StepFirst(d, es[1..][1..][1..][1..], p);
    StepFirst(c, es[1..][1..][1..], p);
    StepFirst(b, es[1..][1..], p);
    StepFirst(a, es[1..], p);
    StepFirst(Initial<W>(1), es, p);
  }

  // ------------------------------------------------------------------- drain

  /** The steps of the executor, without calls from outside. */
  predicate Internal<W>(e: Event<W>) {
    e.DoStop? || e.Test? || e.Resume? || e.Accepted? || e.Pushed? || e.Finish? || e.Return?
  }

  function Measure<W>(p: Pool<W>): int {
    Weight(p.loops) + 2 * |p.active| - |p.returning| + p.stops
  }

  lemma {:induction false} ElementsBound<T>(s: seq<T>)
    ensures |Elements(s)| <= |s|
  {
    if s != [] {
      ElementsBound(s[1..]);
      assert Elements(s) == {s[0]} + Elements(s[1..]);
    }
  }

  lemma SubsetBound<T>(a: set<T>, b: set<T>)
    requires a <= b
    ensures |a| <= |b|
  {
    assert b == a + (b - a);
  }

  lemma MeasureBounded<W>(p: Pool<W>)
    requires Inv(p)
    ensures Measure(p) >= 0
  {
    ElementsBound(p.active);
    SubsetBound(p.returning, Elements(p.active));
  }

  lemma PushMeasure<W>(p: Pool<W>, w: W)
    requires Tidy(p)
    ensures var q := PushWorker(p, w);
            && (w in p.active && w in p.returning ==> Measure(q) <= Measure(p) - 1)
            && (w !in p.active && w !in p.returning ==> Measure(q) <= Measure(p))
            && q.running == p.running
  {
    hide Weight, Live, Distinct;
    PushTidy(p, w);
    WithoutShrinks(p.active, w);
    if w in p.returning { assert p.returning == (p.returning - {w}) + {w}; }
    else { assert p.returning - {w} == p.returning; }
  }

  /** Once the server is stopping, every step of the executor brings the end nearer. */
  lemma StoppingStep<W>(p: Pool<W>, e: Event<W>)
    requires Inv(p) && !p.running && Enabled(p, e) && Internal(e)
    ensures !Apply(p, e).running && Measure(Apply(p, e)) < Measure(p)
  {
    hide Held, Live, Weight, Distinct, Conserved, PushWorker, WaitersMatch;
    WaitersInRange(p);
    match e
    case DoStop =>
    case Test(i) =>
      UpdateCounts(p.loops, i, Done);
      assert p.token by { LiveLoop(p, i); }
    case Resume(i) => UpdateCounts(p.loops, i, Accepting(p.loops[i].w));
    case Accepted(i, error, launch) =>
      UpdateCounts(p.loops, i, Pushing(p.loops[i].w));
      assert p.token by { LiveLoop(p, i); }
    case Pushed(i) =>
      PushedMeasure(p, i);
    case Finish(w) =>
      assert |p.returning + {w}| == |p.returning| + 1;
    case Return(w) => PushMeasure(p, w);
  }

  lemma PushedMeasure<W>(p: Pool<W>, i: nat)
    requires Inv(p) && i < |p.loops| && p.loops[i].Pushing?
    ensures var q := Apply(p, Pushed(i)); Measure(q) < Measure(p) && q.running == p.running
  {
    hide Held, Live, Weight, Distinct, PushWorker, Conserved, ConservedBut, WaitersMatch, Without;
    WaitersInRange(p);
    var w := p.loops[i].w;
    InHands(p, i, w);
    UpdateCounts(p.loops, i, Check);
    MoveTidy(p, i, Check);
    WaitersInRange(p.(loops := p.loops[i := Check]));
    PushMeasure(p.(loops := p.loops[i := Check]), w);
  }

  lemma LiveLoop<W>(p: Pool<W>, i: nat)
    requires Inv(p) && i < |p.loops| && !p.loops[i].Done?
    ensures p.accepts > 0
  {
    UpdateCounts(p.loops, i, Done);
  }

  /** While a loop lives or a worker is active, some step is possible, unless loops
      wait and there is no worker at all. */
  lemma NotStuck<W>(p: Pool<W>) returns (e: Event<W>)
    requires Inv(p) && !p.running && p.workers != {}
    requires p.accepts > 0 || p.active != [] || p.stops > 0
    ensures Internal(e) && Enabled(p, e)
  {
    hide Held, Live, Weight, Distinct;
    if p.active != [] {
      var w := p.active[0];
      return if w in p.returning then Return(w) else Finish(w);
    }
    if p.stops > 0 { return DoStop; }
    var i := SomeLive(p.loops);
    match p.loops[i]
    case Check => e := Test(i);
    case Woken(_) => e := Resume(i);
    case Accepting(_) => e := Accepted(i, true, Dropped);
    case Pushing(_) => e := Pushed(i);
    case Waiting =>
      assert p.idle == [];
      var w :| w in p.workers;
      assert Held(p.loops)[w] > 0 by { assert multiset(p.workers)[w] == 1; }
      var j := Holder(p.loops, w);
      match p.loops[j]
      case Woken(_) => e := Resume(j);
      case Accepting(_) => e := Accepted(j, true, Dropped);
      case Pushing(_) => e := Pushed(j);
  }

  lemma {:induction false} SomeLive<W>(loops: seq<Loop<W>>) returns (i: nat)
    requires Live(loops) > 0
    ensures i < |loops| && !loops[i].Done?
  {
    if !loops[0].Done? { return 0; }
    i := SomeLive(loops[1..]);
    i := i + 1;
  }

  lemma {:induction false} Holder<W>(loops: seq<Loop<W>>, w: W) returns (i: nat)
    requires Held(loops)[w] > 0
    ensures i < |loops| && Hand(loops[i]) == multiset{w}
  {
    if Hand(loops[0])[w] > 0 { return 0; }
    i := Holder(loops[1..], w);
    i := i + 1;
  }

  /** All loops have ended, no worker is active, and every worker is idle. */
  ghost predicate Drained<W>(p: Pool<W>) {
    p.accepts == 0 && p.active == [] && p.stops == 0 && multiset(p.idle) == multiset(p.workers)
  }

  /** No step of the executor is possible. */
  ghost predicate Quiet<W>(p: Pool<W>) {
    p.stops == 0 && p.active == [] && forall i | 0 <= i < |p.loops| :: p.loops[i].Done? || p.loops[i].Waiting?
  }

  lemma QuietMeansNoStep<W>(p: Pool<W>) returns (e: Event<W>)
    ensures Quiet(p) ==> forall d: Event<W> | Internal(d) :: !Enabled(p, d)
    ensures !Quiet(p) ==> Internal(e) && Enabled(p, e)
  {
    e := DoStop;
    if p.stops == 0 {
      if p.active != [] {
        var w := p.active[0];
        e := if w in p.returning then Return(w) else Finish(w);
      } else if i :| 0 <= i < |p.loops| && !p.loops[i].Done? && !p.loops[i].Waiting? {
        e := match p.loops[i]
          case Check => Test(i)
          case Woken(_) => Resume(i)
          case Accepting(_) => Accepted(i, true, Dropped)
          case _ => Pushed(i);
      }
    }
  }

  /** With a worker in the pool, the executor comes to rest exactly when drained. */
  lemma QuietIsDrained<W>(p: Pool<W>)
    requires Inv(p) && !p.running && p.workers != {}
    ensures Quiet(p) <==> Drained(p)
  {
    hide Held, Live, Weight, Distinct;
    if p.accepts == 0 { NoneLive(p.loops); }
    if p.accepts > 0 || p.active != [] || p.stops > 0 {
      var e := NotStuck(p);
      var d := QuietMeansNoStep(p);
    } else {
      assert multiset(p.idle) + multiset{} + multiset{} == multiset(p.idle);
    }
  }

  /** Without a worker too: at rest after stop, drained means that nobody waits. */
  lemma RestIsDrained<W>(p: Pool<W>)
    requires Inv(p) && !p.running
    ensures Drained(p) ==> Quiet(p)
    ensures Quiet(p) ==> (Drained(p) <==> p.workers != {} || p.waiters == [])
  {
    hide Held, Live, Weight, Distinct;
    if p.workers != {} {
      QuietIsDrained(p);
    } else {
      assert multiset(p.workers) == multiset{};
      assert p.idle == [] by { assert |multiset(p.idle)| == 0; }
      if p.accepts == 0 {
        NoneLive(p.loops);
        NoWaiters(p);
      } else {
        var i := SomeLive(p.loops);
      }
    }
  }

  /** A run of the executor after stop is no longer than the measure, so it comes to
      rest; and where it rests, the accept count is zero and every worker idle exactly
      when at the beginning there was a worker or nobody waited for one. */
  lemma {:induction false} Drain<W>(p: Pool<W>, es: seq<Event<W>>, q: Pool<W>)
    requires Inv(p) && !p.running && IsRun(p, es, q)
    requires forall k | 0 <= k < |es| :: Internal(es[k])
    ensures |es| <= Measure(p) - Measure(q) && Measure(q) >= 0
    ensures q.workers == p.workers && !q.running
    ensures Drained(q) ==> Quiet(q)
    ensures Quiet(q) ==> (Drained(q) <==> p.workers != {} || p.waiters == [])
    decreases |es|
  {
    hide Inv, Quiet, Drained, Enabled, Measure, Internal, Apply;
    if es == [] {
      MeasureBounded(p);
      RestIsDrained(p);
    } else {
      StepKeeps(p, es[0]);
      StoppingStep(p, es[0]);
      KeepsWorkers(p, es[0]);
      if p.workers == {} { KeepsWaiters(p, es[0]); }
      Drain(Apply(p, es[0]), es[1..], q);
    }
  }

  lemma KeepsWaiters<W>(p: Pool<W>, e: Event<W>)
    requires Inv(p) && !p.running && p.workers == {} && Enabled(p, e) && Internal(e)
    ensures Apply(p, e).waiters == p.waiters
  {
    hide Held, Live, Weight, Distinct, WaitersMatch;
    WaitersInRange(p);
    NothingHeld(p);
    match e
    case Test(i) => assert p.token by { LiveLoop(p, i); }
    case _ =>
  }

  lemma NothingHeld<W>(p: Pool<W>)
    requires Conserved(p) && p.workers == {}
    ensures p.active == [] && forall i | 0 <= i < |p.loops| :: Hand(p.loops[i]) == multiset{}
  {
    hide Held, Hand;
    assert multiset(p.workers) == multiset{};
    assert multiset(p.active) <= multiset(p.idle) + multiset(p.active) + Held(p.loops);
    assert p.active == [] by { assert |multiset(p.active)| == |p.active|; }
    forall i | 0 <= i < |p.loops| ensures Hand(p.loops[i]) == multiset{} {
      UpdateHeld(p.loops, i, p.loops[i]);
    }
  }

  /** From every state after stop the executor can come to rest. */
  lemma {:induction false} Rests<W>(p: Pool<W>) returns (es: seq<Event<W>>, q: Pool<W>)
    requires Inv(p) && !p.running
    ensures IsRun(p, es, q) && Quiet(q) && forall k | 0 <= k < |es| :: Internal(es[k])
    decreases Measure(p)
  {
    hide Inv, Quiet, Enabled, Measure, Internal, Apply;
    MeasureBounded(p);
    InvInRange(p);
    var e := QuietMeansNoStep(p);
    if Quiet(p) {
      es, q := [], p;
    } else {
      StepKeeps(p, e);
      StoppingStep(p, e);
      MeasureBounded(Apply(p, e));
      es, q := Rests(Apply(p, e));
      RunCons(p, e, es, q);
      es := [e] + es;
    }
  }

  /** The executor's runs to rest after stop all drain the server exactly when there is
      a worker, or no loop waits for one. */
  lemma DrainExact<W>(p: Pool<W>)
    requires Inv(p) && !p.running
    ensures (forall es: seq<Event<W>>, q: Pool<W> |
               IsRun(p, es, q) && (forall k | 0 <= k < |es| :: Internal(es[k])) && Quiet(q) :: Drained(q))
            <==> p.workers != {} || p.waiters == []
  {
    hide Inv, Quiet, Drained, IsRun, Internal;
    var es, q := Rests(p);
    Drain(p, es, q);
    forall es: seq<Event<W>>, q: Pool<W> |
      IsRun(p, es, q) && (forall k | 0 <= k < |es| :: Internal(es[k])) && Quiet(q)
      ensures Drained(q) <==> p.workers != {} || p.waiters == []
    {
      Drain(p, es, q);
    }
  }

  lemma KeepsWorkers<W>(p: Pool<W>, e: Event<W>)
    requires Inv(p) && Enabled(p, e) && Internal(e)
    ensures Apply(p, e).workers == p.workers
  {
    hide Held, Live, Weight, Distinct, Conserved, Without, WaitersMatch;
    WaitersInRange(p);
  }

  /** A run without workers in which a loop waits in pop and is never woken. */
  lemma NoWorkersNoDrain<W>() returns (es: seq<Event<W>>, q: Pool<W>)
    ensures IsRun(Initial<W>(1), es, q) && q.workers == {} && !q.running
    ensures Quiet(q) && q.accepts == 1
  {
    es := [Start, Test(0), Stop, DoStop];
    var p0 := Initial<W>(1);
    var p1 := Apply(p0, Start);
    assert p1.loops == [Check];
    var p2 := Apply(p1, Test(0));
    var p3 := Apply(p2, Stop);
    q := Apply(p3, DoStop);
    assert IsRun(q, [], q);
    assert es[3..][1..] == [] && IsRun(p3, es[3..], q);
    assert es[2..][1..] == es[3..] && IsRun(p2, es[2..], q);
    assert es[1..][1..] == es[2..] && IsRun(p1, es[1..], q);
  }
}
