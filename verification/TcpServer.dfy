/** The TCP server's worker pool on the heap: an intrusive singly linked idle list, an
    intrusive doubly linked active list and a linked stack of waiting accept loops.
    Every operation refines the matching step of WorkerPool. */
module TcpServer {
  import opened WorkerPool

  class Worker {
    var next: Worker?      // idle and active lists
    var prev: Worker?      // active list only
    var stop: bool         // stop requested on the session's stop source

    constructor ()
      ensures next == null && prev == null && !stop
    {
      next, prev, stop := null, null, false;
    }
  }

  // --------------------------------------------------------------- linked lists

  type Links = map<Worker, Worker?>

  ghost function Nexts(ws: set<Worker>): Links
    reads ws`next
  {
    map w | w in ws :: w.next
  }

  ghost function Prevs(ws: set<Worker>): Links
    reads ws`prev
  {
    map w | w in ws :: w.prev
  }

  function WorkerAt(s: seq<Worker>, i: int): Worker? { if 0 <= i < |s| then s[i] else null }

  /** The `next` pointers from `head` run through `s` and end in null. */
  ghost predicate Chain(head: Worker?, s: seq<Worker>, nx: Links) {
    && head == WorkerAt(s, 0)
    && (forall w | w in s :: w in nx)
    && forall i {:trigger nx[s[i]]} | 0 <= i < |s| :: nx[s[i]] == WorkerAt(s, i + 1)
  }

  /** The `prev` pointers from `tail` run back through `s` and end in null. */
  ghost predicate BackChain(tail: Worker?, s: seq<Worker>, pv: Links) {
    && tail == WorkerAt(s, |s| - 1)
    && (forall w | w in s :: w in pv)
    && forall i {:trigger pv[s[i]]} | 0 <= i < |s| :: pv[s[i]] == WorkerAt(s, i - 1)
  }

  /** No worker is on both lists or twice on one. */
  ghost predicate Separate(ws: set<Worker>, idle: seq<Worker>, active: seq<Worker>) {
    && (forall w | w in idle :: w in ws && w !in active)
    && (forall w | w in active :: w in ws)
    && Distinct(idle) && Distinct(active)
  }

  /** A worker outside the active list has no `prev`. */
  ghost predicate Outside(ws: set<Worker>, active: seq<Worker>, pv: Links) {
    forall w | w in ws && w !in active :: w in pv && pv[w] == null
  }

  /** The two lists of a pool of workers, as sequences and as pointers. */
  datatype Shape = Shape(
    ws: set<Worker>, idle: seq<Worker>, active: seq<Worker>,
    idleHead: Worker?, head: Worker?, tail: Worker?, nx: Links, pv: Links)

  ghost predicate Linked(l: Shape) {
    && Separate(l.ws, l.idle, l.active)
    && Chain(l.idleHead, l.idle, l.nx)
    && Chain(l.head, l.active, l.nx)
    && BackChain(l.tail, l.active, l.pv)
    && Outside(l.ws, l.active, l.pv)
  }

  function Removed<T>(s: seq<T>, k: nat): (r: seq<T>)
    requires k < |s|
    ensures |r| == |s| - 1 && forall i | 0 <= i < |r| :: r[i] == if i < k then s[i] else s[i + 1]
  {
    s[..k] + s[k + 1..]
  }

  lemma {:induction false} WithoutAt<T>(s: seq<T>, k: nat)
    requires Distinct(s) && k < |s|
    ensures Without(s, s[k]) == Removed(s, k)
  {
    hide Distinct;
    if k > 0 {
      DifferAt(s, 0, k);
      DistinctTail(s);
      WithoutAt(s[1..], k - 1);
      RemovedTail(s, k);
    }
  }

  lemma RemovedTail<T>(s: seq<T>, k: nat)
    requires 0 < k < |s|
    ensures Removed(s, k) == [s[0]] + Removed(s[1..], k - 1)
  {
    assert s[..k] == [s[0]] + s[1..][..k - 1] && s[k + 1..] == s[1..][k..];
  }

  // ------------------------------------------------------ effects on one list

  /** Links of other workers do not matter. */
  lemma ChainFrame(head: Worker?, s: seq<Worker>, nx: Links, nx': Links)
    requires Chain(head, s, nx) && forall w | w in s && w in nx :: w in nx' && nx'[w] == nx[w]
    ensures Chain(head, s, nx')
  {
    forall i | 0 <= i < |s| ensures nx'[s[i]] == WorkerAt(s, i + 1) { assert nx[s[i]] == WorkerAt(s, i + 1); }
  }

  lemma ChainCons(w: Worker, ih: Worker?, s: seq<Worker>, nx: Links)
    requires Chain(ih, s, nx) && w !in s
    ensures Chain(w, [w] + s, nx[w := ih])
  {
    var r := [w] + s;
    forall i | 0 <= i < |r| ensures nx[w := ih][r[i]] == WorkerAt(r, i + 1) {
      if i > 0 { assert r[i] == s[i - 1] && nx[s[i - 1]] == WorkerAt(s, i); }
    }
  }

  lemma ChainTail(ih: Worker?, s: seq<Worker>, nx: Links)
    requires Chain(ih, s, nx) && s != []
    ensures ih == s[0] && ih in nx && Chain(nx[ih], s[1..], nx)
  {
    var r := s[1..];
    forall i | 0 <= i < |r| ensures nx[r[i]] == WorkerAt(r, i + 1) { assert nx[s[i + 1]] == WorkerAt(s, i + 2); }
    assert nx[s[0]] == WorkerAt(s, 1);
  }

  /** The `next` pointers after appending to the active list. */
  function AppendedNexts(nx: Links, tail: Worker?, w: Worker): Links {
    if tail == null then nx[w := null] else nx[w := null][tail := w]
  }

  lemma ChainAppend(head: Worker?, s: seq<Worker>, nx: Links, w: Worker)
    requires Chain(head, s, nx) && Distinct(s) && w !in s
    ensures Chain(if s == [] then w else head, s + [w], AppendedNexts(nx, WorkerAt(s, |s| - 1), w))
  {
    var r, tail := s + [w], WorkerAt(s, |s| - 1);
    var m := AppendedNexts(nx, tail, w);
    forall i | 0 <= i < |r| ensures m[r[i]] == WorkerAt(r, i + 1) {
      if i < |s| - 1 {
        assert r[i] == s[i] && s[i] != tail && nx[s[i]] == WorkerAt(s, i + 1);
      }
    }
  }

  lemma BackAppend(tail: Worker?, s: seq<Worker>, pv: Links, w: Worker)
    requires BackChain(tail, s, pv) && w !in s
    ensures BackChain(w, s + [w], pv[w := tail])
  {
    var r := s + [w];
    forall i | 0 <= i < |r| ensures pv[w := tail][r[i]] == WorkerAt(r, i - 1) {
      if i < |s| { assert r[i] == s[i] && pv[s[i]] == WorkerAt(s, i - 1); }
    }
  }

  /** The pointers after unlinking worker `w` from the active list. */
  function UnlinkedNexts(nx: Links, prev: Worker?, next: Worker?): Links {
    if prev == null then nx else nx[prev := next]
  }

  function UnlinkedPrevs(pv: Links, w: Worker, prev: Worker?, next: Worker?): Links {
    if next == null then pv[w := null] else pv[next := prev][w := null]
  }

  lemma ChainRemove(head: Worker?, s: seq<Worker>, nx: Links, k: nat)
    requires Chain(head, s, nx) && Distinct(s) && k < |s|
    ensures Chain(if k == 0 then WorkerAt(s, 1) else head, Removed(s, k),
                  UnlinkedNexts(nx, WorkerAt(s, k - 1), WorkerAt(s, k + 1)))
  {
    hide Distinct;
    var r, m := Removed(s, k), UnlinkedNexts(nx, WorkerAt(s, k - 1), WorkerAt(s, k + 1));
    forall i | 0 <= i < |r| ensures m[r[i]] == WorkerAt(r, i + 1) {
      var j := if i < k then i else i + 1;
      assert r[i] == s[j] && nx[s[j]] == WorkerAt(s, j + 1);
      if k > 0 && j != k - 1 { DifferAt(s, j, k - 1); }
    }
  }

  lemma DifferAt<T>(s: seq<T>, i: nat, j: nat)
    requires Distinct(s) && i < |s| && j < |s| && i != j
    ensures s[i] != s[j]
  {
  }

  lemma BackRemove(tail: Worker?, s: seq<Worker>, pv: Links, k: nat)
    requires BackChain(tail, s, pv) && Distinct(s) && k < |s|
    ensures BackChain(if k == |s| - 1 then WorkerAt(s, k - 1) else tail, Removed(s, k),
                      UnlinkedPrevs(pv, s[k], WorkerAt(s, k - 1), WorkerAt(s, k + 1)))
  {
    hide Distinct;
    var r, m := Removed(s, k), UnlinkedPrevs(pv, s[k], WorkerAt(s, k - 1), WorkerAt(s, k + 1));
    forall i | 0 <= i < |r| ensures r[i] in pv && m[r[i]] == WorkerAt(r, i - 1) {
      var j := if i < k then i else i + 1;
      assert r[i] == s[j];
      BackLinkAt(tail, s, pv, k, j);
    }
  }

  lemma BackLinkAt(tail: Worker?, s: seq<Worker>, pv: Links, k: nat, j: nat)
    requires BackChain(tail, s, pv) && Distinct(s) && k < |s| && j < |s| && j != k
    ensures s[j] in pv
    ensures UnlinkedPrevs(pv, s[k], WorkerAt(s, k - 1), WorkerAt(s, k + 1))[s[j]] ==
            WorkerAt(s, if j == k + 1 then k - 1 else j - 1)
  {
    hide Distinct;
    assert pv[s[j]] == WorkerAt(s, j - 1);
    DifferAt(s, j, k);
    if k + 1 < |s| && j != k + 1 { DifferAt(s, j, k + 1); }
  }

  // -------------------------------------------------------- effects on both lists

  lemma LinkIdle(l: Shape, w: Worker)
    requires Linked(l) && w in l.ws && w !in l.idle && w !in l.active
    ensures Linked(l.(idle := [w] + l.idle, idleHead := w, nx := l.nx[w := l.idleHead]))
  {
    hide Distinct, Chain, BackChain;
    DistinctCons(w, l.idle);
    ChainCons(w, l.idleHead, l.idle, l.nx);
    ChainFrame(l.head, l.active, l.nx, l.nx[w := l.idleHead]);
  }

  lemma UnlinkIdle(l: Shape)
    requires Linked(l) && l.idle != []
    ensures l.idleHead == l.idle[0] && l.idleHead in l.nx
    ensures Linked(l.(idle := l.idle[1..], idleHead := l.nx[l.idleHead]))
  {
    hide Distinct, Chain, BackChain;
    DistinctTail(l.idle);
    ChainTail(l.idleHead, l.idle, l.nx);
  }

  lemma LinkActive(l: Shape, w: Worker)
    requires Linked(l) && w in l.ws && w !in l.idle && w !in l.active
    ensures l.tail == WorkerAt(l.active, |l.active| - 1)
    ensures Linked(l.(active := l.active + [w], head := if l.tail == null then w else l.head, tail := w,
                      nx := AppendedNexts(l.nx, l.tail, w), pv := l.pv[w := l.tail]))
  {
    assert l.tail == WorkerAt(l.active, |l.active| - 1);
    hide Distinct, Chain, BackChain;
    DistinctSnoc(l.active, w);
    ChainAppend(l.head, l.active, l.nx, w);
    BackAppend(l.tail, l.active, l.pv, w);
    assert l.tail != null ==> l.tail in l.active;
    ChainFrame(l.idleHead, l.idle, l.nx, AppendedNexts(l.nx, l.tail, w));
  }

  lemma UnlinkActive(l: Shape, k: nat)
    requires Linked(l) && k < |l.active|
    ensures var s := l.active; var w, prev, next := s[k], WorkerAt(s, k - 1), WorkerAt(s, k + 1);
            && w in l.nx && l.nx[w] == next && w in l.pv && l.pv[w] == prev
            && Linked(l.(active := Without(s, w), head := if prev == null then next else l.head,
                         tail := if next == null then prev else l.tail,
                         nx := UnlinkedNexts(l.nx, prev, next), pv := UnlinkedPrevs(l.pv, w, prev, next)))
  {
    hide Distinct, Chain, BackChain, Without, Outside;
    var s := l.active;
    var w, prev, next := s[k], WorkerAt(s, k - 1), WorkerAt(s, k + 1);
    ChainLinks(l.head, l.tail, s, l.nx, l.pv, k);
    WithoutAt(s, k);
    ChainRemove(l.head, s, l.nx, k);
    BackRemove(l.tail, s, l.pv, k);
    SeparateRemoved(l.ws, l.idle, l.active, k);
    ChainFrame(l.idleHead, l.idle, l.nx, UnlinkedNexts(l.nx, prev, next));
    OutsideRemoved(l.ws, l.idle, l.active, l.pv, k);
  }

  lemma ChainLinks(head: Worker?, tail: Worker?, s: seq<Worker>, nx: Links, pv: Links, k: nat)
    requires Chain(head, s, nx) && BackChain(tail, s, pv) && k < |s|
    ensures s[k] in nx && nx[s[k]] == WorkerAt(s, k + 1) && s[k] in pv && pv[s[k]] == WorkerAt(s, k - 1)
    ensures head == s[0] && tail == s[|s| - 1]
    ensures k > 0 ==> s[k - 1] in s
  {
  }

  lemma OutsideRemoved(ws: set<Worker>, idle: seq<Worker>, active: seq<Worker>, pv: Links, k: nat)
    requires Separate(ws, idle, active) && Outside(ws, active, pv) && k < |active|
    ensures var s := active;
            Outside(ws, Removed(s, k), UnlinkedPrevs(pv, s[k], WorkerAt(s, k - 1), WorkerAt(s, k + 1)))
  {
    hide Distinct;
    SeparateRemoved(ws, idle, active, k);
    if k + 1 < |active| { InRemoved(active, k); }
  }

  lemma InRemoved<T>(s: seq<T>, k: nat)
    requires k + 1 < |s|
    ensures s[k + 1] in Removed(s, k)
  {
    assert Removed(s, k)[k] == s[k + 1];
  }

  lemma DistinctSnoc<T>(s: seq<T>, x: T)
    requires Distinct(s) && x !in s
    ensures Distinct(s + [x])
  {
  }

  lemma SeparateRemoved(ws: set<Worker>, idle: seq<Worker>, active: seq<Worker>, k: nat)
    requires Separate(ws, idle, active) && k < |active|
    ensures Separate(ws, idle, Removed(active, k))
    ensures forall w | w in active && w != active[k] :: w in Removed(active, k)
  {
    var s, r := active, Removed(active, k);
    forall w | w in s && w != s[k] ensures w in r {
      var i :| 0 <= i < |s| && s[i] == w;
      assert r[if i < k then i else i - 1] == w;
    }
  }

  // ------------------------------------------------------------------ the server

  /** The awaitable in the frame of an accept loop that is suspended in pop. */
  class Waiter {
    const loop: nat
    var next: Waiter?
    var w: Worker?

    constructor (loop: nat)
      ensures this.loop == loop && next == null && w == null
    {
      this.loop, next, w := loop, null, null;
    }
  }

  /** Pointer stores, seen in all the links of the pool. */
  method SetNext(w: Worker, v: Worker?, ghost ws: set<Worker>)
    requires w in ws
    modifies w`next
    ensures w.next == v && Nexts(ws) == old(Nexts(ws))[w := v] && Prevs(ws) == old(Prevs(ws))
  {
    w.next := v;
  }

  method SetPrev(w: Worker, v: Worker?, ghost ws: set<Worker>)
    requires w in ws
    modifies w`prev
    ensures w.prev == v && Prevs(ws) == old(Prevs(ws))[w := v] && Nexts(ws) == old(Nexts(ws))
  {
    w.prev := v;
  }

  method RequestStop(w: Worker, ghost ws: set<Worker>)
    requires w in ws
    modifies w`stop
    ensures StopRequested(ws) == old(StopRequested(ws)) + {w}
  {
    w.stop := true;
  }

  method ResetStop(w: Worker, ghost ws: set<Worker>)
    requires w in ws
    modifies w`stop
    ensures StopRequested(ws) == old(StopRequested(ws)) - {w}
  {
    w.stop := false;
  }

  class TcpServer {
    var waiters: Waiter?
    var idleHead: Worker?
    var activeHead: Worker?
    var activeTail: Worker?
    var activeAccepts: nat
    var running: bool
    var token: bool                    // stop requested on the accept loops' source
    var ports: nat
    var stops: nat                     // stop coroutines launched and not yet run
    var loops: seq<Loop<Worker>>       // accept loop coroutines
    var frames: seq<Waiter>            // the awaitable of each accept loop
    var ended: set<Worker>             // whose session ended, the push posted and not yet run
    ghost var pool: Pool<Worker>

    ghost function View(): Shape
      reads this, pool.workers`next, pool.workers`prev
    {
      Shape(pool.workers, pool.idle, pool.active, idleHead, activeHead, activeTail,
            Nexts(pool.workers), Prevs(pool.workers))
    }

    ghost predicate Lists()
      reads this, pool.workers`next, pool.workers`prev
    {
      Linked(View())
    }

    /** The guard of active_remove recognises exactly the workers outside the list. */
    lemma GuardIsAbsence(w: Worker)
      requires Lists() && w in pool.workers
      ensures w != activeHead && w.prev == null <==> w !in pool.active
    {
      hide Distinct;
      var s, pv := pool.active, Prevs(pool.workers);
      if w in s {
        var k :| 0 <= k < |s| && s[k] == w;
        ChainLinks(activeHead, activeTail, s, Nexts(pool.workers), pv, k);
        assert pv[w] == w.prev;
      } else {
        assert pv[w] == null && w.prev == null;
      }
    }

    method IdlePush(w: Worker)
      requires Lists() && w in pool.workers && w !in pool.idle && w !in pool.active
      modifies this`idleHead, this`pool, w`next
      ensures Lists() && pool == old(pool).(idle := [w] + old(pool).idle)
    {
      hide Linked, Nexts, Prevs;
      ghost var p := pool;
      LinkIdle(View(), w);
      SetNext(w, idleHead, p.workers);
      idleHead := w;
      pool := p.(idle := [w] + p.idle);
    }

    method IdlePop() returns (w: Worker?)
      requires Lists()
      modifies this`idleHead, this`pool
      ensures Lists()
      ensures w == null <==> old(pool).idle == []
      ensures old(pool).idle == [] ==> pool == old(pool)
      ensures old(pool).idle != [] ==> w == old(pool).idle[0] && pool == old(pool).(idle := old(pool).idle[1..])
    {
      hide Linked;
      ghost var p, nx, pv := pool, Nexts(pool.workers), Prevs(pool.workers);
      w := idleHead;
      IdleHeadIs(View());
      if w != null {
        UnlinkIdle(View());
        assert nx[w] == w.next;
        idleHead := w.next;
        pool := p.(idle := p.idle[1..]);
      }
    }

    method ActivePush(w: Worker)
      requires Lists() && w in pool.workers && w !in pool.idle && w !in pool.active
      modifies this`activeHead, this`activeTail, this`pool, pool.workers`next, pool.workers`prev
      ensures Lists() && pool == old(pool).(active := old(pool).active + [w])
    {
      hide Linked, Nexts, Prevs;
      ghost var p, nx, pv := pool, Nexts(pool.workers), Prevs(pool.workers);
      LinkActive(View(), w);
      TailIsWorker(View());
      SetNext(w, null, p.workers);
      SetPrev(w, activeTail, p.workers);
      if activeTail != null {
        SetNext(activeTail, w, p.workers);
      } else {
        activeHead := w;
      }
      activeTail := w;
      pool := p.(active := p.active + [w]);
    }

    method ActiveRemove(w: Worker)
      requires Lists() && w in pool.workers
      modifies this`activeHead, this`activeTail, this`pool, pool.workers`next, pool.workers`prev
      ensures Lists() && pool == old(pool).(active := Without(old(pool).active, w))
    {
      hide Linked, Without, Nexts, Prevs;
      GuardIsAbsence(w);
      if w != activeHead && w.prev == null { return; }
      ghost var p, nx, pv := pool, Nexts(pool.workers), Prevs(pool.workers);
      ghost var s := p.active;
      ghost var k :| 0 <= k < |s| && s[k] == w;
      UnlinkActive(View(), k);
      LinksOf(w, p.workers);
      MembersAreWorkers(View(), k);
      if w.prev != null {
        SetNext(w.prev, w.next, p.workers);
      } else {
        activeHead := w.next;
      }
      if w.next != null {
        SetPrev(w.next, w.prev, p.workers);
      } else {
        activeTail := w.prev;
      }
      SetPrev(w, null, p.workers);
      pool := p.(active := Without(s, w));
    }

    ghost predicate Counters()
      reads this
    {
      && activeAccepts == pool.accepts && running == pool.running && token == pool.token
      && ports == pool.ports && stops == pool.stops && ended == pool.returning
    }

    /** The fields and the pointers represent `pool`. */
    ghost predicate Represents()
      reads this, pool.workers, frames
    {
      && Lists()
      && Stack(waiters, frames, pool.waiters, pool.loops)
      && loops == pool.loops
      && Counters()
      && StopRequested(pool.workers) == pool.stopped
    }

    ghost predicate Valid()
      reads this, pool.workers, frames
    {
      Represents() && Inv(pool)
    }

    /** Hands a worker to the loop on top of the waiter stack and posts its continuation. */
    method Wake(w: Worker)
      requires Stack(waiters, frames, pool.waiters, pool.loops) && loops == pool.loops
      requires pool.waiters != [] && pool.loops[pool.waiters[0]].Waiting? && Distinct(pool.waiters)
      modifies this`waiters, this`loops, this`pool, frames`w
      ensures Stack(waiters, frames, pool.waiters, pool.loops) && loops == pool.loops
      ensures pool == old(pool).(waiters := old(pool).waiters[1..],
                                 loops := old(pool).loops[old(pool).waiters[0] := Woken(w)])
    {
      var wait := waiters;
      ghost var ws := pool.waiters;
      assert wait == frames[ws[0]] && wait.next == WaiterAt(frames, ws, 1);
      waiters := wait.next;
      wait.w := w;
      loops := loops[wait.loop := Woken(w)];
      pool := pool.(waiters := ws[1..], loops := pool.loops[ws[0] := Woken(w)]);
      assert forall k | 0 <= k < |ws| - 1 ::
          pool.waiters[k] == ws[k + 1] && frames[ws[k + 1]].next == WaiterAt(frames, ws, k + 2);
    }

    /** Takes a worker out of the active list, if it is there. */
    method Deactivate(w: Worker)
      requires Represents() && w in pool.workers
      modifies this`activeHead, this`activeTail, this`pool, pool.workers`next, pool.workers`prev, this`ended
      ensures Represents() && w !in pool.active
      ensures pool == old(pool).(active := Without(old(pool).active, w), returning := old(pool).returning - {w})
    {
      hide Linked, Without, Nexts, Prevs, Stack, StopRequested;
      ghost var p := pool;
      WithoutAbsent(View(), w);
      ActiveRemove(w);
      NoSession(w);
    }

    method NoSession(w: Worker)
      requires Represents()
      modifies this`ended, this`pool
      ensures Represents() && pool == old(pool).(returning := old(pool).returning - {w})
    {
      hide Linked, Nexts, Prevs, Stack, StopRequested;
      ended := ended - {w};
      pool := pool.(returning := ended);
    }

    /** Gives a worker to the loop on top of the waiter stack, else to the idle list. */
    method Deliver(w: Worker)
      requires Represents() && WaitersMatch(pool) && w in pool.workers && w !in pool.idle && w !in pool.active
      modifies this`waiters, this`idleHead, this`loops, this`pool, w`next, frames`w
      ensures Represents()
      ensures pool == if old(pool).waiters == [] then old(pool).(idle := [w] + old(pool).idle)
                      else old(pool).(waiters := old(pool).waiters[1..],
                                      loops := old(pool).loops[old(pool).waiters[0] := Woken(w)])
    {
      hide Linked, Nexts, Prevs, Distinct, Stack, StopRequested, WaitersMatch;
      WaitersFacts(pool);
      StackTop(waiters, frames, pool.waiters, pool.loops);
      if waiters != null {
        Wake(w);
      } else {
        IdlePush(w);
      }
    }

    /** Returns a worker: out of the active list, then to a waiting loop or the idle list. */
    method PushSync(w: Worker)
      requires Represents() && WaitersMatch(pool) && w in pool.workers && w !in pool.idle
      modifies this`waiters, this`idleHead, this`activeHead, this`activeTail, this`loops, this`pool, this`ended
      modifies pool.workers`next, pool.workers`prev, frames`w
      ensures Represents() && pool == PushWorker(old(pool), w)
    {
      hide Linked, Without, Nexts, Prevs, Distinct, Stack, StopRequested, Represents;
      Deactivate(w);
      Deliver(w);
    }

    // ---------------------------------------------------------- accept loops

    /** Suspends loop `i` in pop: its waiter goes on top of the stack. */
    method Suspend(i: nat)
      requires Stack(waiters, frames, pool.waiters, pool.loops) && loops == pool.loops
      requires i < |pool.loops| && !pool.loops[i].Waiting? && i !in pool.waiters
      modifies this`waiters, this`loops, this`pool, frames`next, frames`w
      ensures Stack(waiters, frames, pool.waiters, pool.loops) && loops == pool.loops
      ensures pool == old(pool).(waiters := [i] + old(pool).waiters, loops := old(pool).loops[i := Waiting])
    {
      ghost var ws := pool.waiters;
      var wait := frames[i];
      wait.w := null;
      wait.next := waiters;
      waiters := wait;
      loops := loops[i := Waiting];
      pool := pool.(waiters := [i] + ws, loops := loops);
      assert forall k {:trigger frames[ws[k]].next} | 0 <= k < |ws| ::
          ws[k] != i && frames[ws[k]].next == WaiterAt(frames, ws, k + 1);
      StackCons(waiters, frames, ws, loops, i);
    }

    /** The awaitable of pop: ready when a worker is idle, else suspended. The worker
        that it dereferences is never null. */
    method Pop(i: nat)
      requires Valid() && Enabled(pool, WorkerPool.Test(i)) && !pool.token
      modifies this`waiters, this`idleHead, this`loops, this`pool, frames`next, frames`w
      ensures Represents() && pool == Apply(old(pool), WorkerPool.Test(i))
    {
      hide Linked, Nexts, Prevs, Distinct, Stack, StopRequested, Inv, Enabled, Apply;
      ghost var p := pool;
      TestFacts(p, i);
      IdleHeadIs(View());
      if idleHead != null {
        var popped := IdlePop();
        assert popped != null;
        var w: Worker := popped;
        Move(i, Accepting(w));
      } else {
        Suspend(i);
      }
    }

    /** The top of the accept loop: the stop token, then pop. */
    method Test(i: nat)
      requires Valid() && Enabled(pool, WorkerPool.Test(i))
      modifies this`waiters, this`idleHead, this`loops, this`pool, this`activeAccepts, frames`next, frames`w
      ensures Valid() && pool == Apply(old(pool), WorkerPool.Test(i))
    {
      hide Linked, Nexts, Prevs, Distinct, Stack, StopRequested, Inv, Enabled, Apply;
      ghost var p := pool;
      TestFacts(p, i);
      if token {
        StackMoves(waiters, frames, p.waiters, p.loops, i, Done);
        loops := loops[i := Done];
        activeAccepts := activeAccepts - 1;
        pool := p.(loops := loops, accepts := activeAccepts);
      } else {
        Pop(i);
      }
    }

    /** A woken loop resumes with the worker its waiter was given, and accepts. */
    method Resume(i: nat)
      requires Valid() && Enabled(pool, WorkerPool.Resume(i))
      modifies this`loops, this`pool
      ensures Valid() && pool == Apply(old(pool), WorkerPool.Resume(i))
    {
      hide Linked, Nexts, Prevs, Distinct, StopRequested, Inv;
      ghost var p := pool;
      StepKeeps(p, WorkerPool.Resume(i));
      var given := frames[i].w;
      assert given != null;
      var w: Worker := given;
      StackMoves(waiters, frames, p.waiters, p.loops, i, Accepting(w));
      hide Stack;
      loops := loops[i := Accepting(w)];
      pool := p.(loops := loops);
    }

    /** The launcher was invoked: the worker goes to the end of the active list with a
        fresh stop source, and comes back if the coroutine could not be set up. */
    method LaunchSession(w: Worker, fails: bool)
      requires Represents() && WaitersMatch(pool) && w in pool.workers && w !in pool.idle && w !in pool.active
      modifies this`waiters, this`idleHead, this`activeHead, this`activeTail, this`loops, this`pool, this`ended
      modifies pool.workers`next, pool.workers`prev, w`stop, frames`w
      ensures Represents()
      ensures var p := old(pool).(active := old(pool).active + [w], stopped := old(pool).stopped - {w});
              pool == if fails then PushWorker(p, w) else p
    {
      Activate(w);
      if fails { PushSync(w); }
    }

    method Activate(w: Worker)
      requires Represents() && w in pool.workers && w !in pool.idle && w !in pool.active
      modifies this`activeHead, this`activeTail, this`pool, pool.workers`next, pool.workers`prev, w`stop
      ensures Represents()
      ensures pool == old(pool).(active := old(pool).active + [w], stopped := old(pool).stopped - {w})
    {
      hide Linked, Nexts, Prevs, Stack, StopRequested;
      ActivePush(w);
      FreshStopSource(w);
    }

    method FreshStopSource(w: Worker)
      requires Represents() && w in pool.workers
      modifies this`pool, w`stop
      ensures Represents() && pool == old(pool).(stopped := old(pool).stopped - {w})
    {
      hide Linked, Nexts, Prevs, Stack, StopRequested;
      ResetStop(w, pool.workers);
      pool := pool.(stopped := pool.stopped - {w});
    }

    /** The accept completes: with an error (always once stop is requested) the worker
        is to be pushed back, else it is dispatched and the loop goes round. */
    method CompleteAccept(i: nat, error: bool, launch: Launch)
      requires Valid() && Enabled(pool, Accepted(i, error, launch))
      modifies this`waiters, this`idleHead, this`activeHead, this`activeTail, this`loops, this`pool, this`ended
      modifies pool.workers, frames`w
      ensures Valid() && pool == Apply(old(pool), Accepted(i, error, launch))
    {
      hide Linked, Nexts, Prevs, Distinct, Stack, StopRequested, Inv, PushWorker;
      ghost var p := pool;
      StepKeeps(p, Accepted(i, error, launch));
      var w := loops[i].w;
      AcceptFacts(p, i, w);
      if token || error {
        Move(i, Pushing(w));
        return;
      }
      Move(i, Check);
      match launch {
        case Launched => LaunchSession(w, false);
        case Dropped => PushSync(w);
        case SetupFailed => LaunchSession(w, true);
      }
    }

    method Move(i: nat, l: Loop<Worker>)
      requires Represents() && i < |loops| && !l.Waiting? && !l.Woken?
      modifies this`loops, this`pool
      ensures Represents() && pool == old(pool).(loops := old(pool).loops[i := l])
    {
      hide Linked, Nexts, Prevs, Stack, StopRequested;
      StackMoves(waiters, frames, pool.waiters, pool.loops, i, l);
      loops := loops[i := l];
      pool := pool.(loops := loops);
    }

    /** The push after a failed accept. */
    method PushBack(i: nat)
      requires Valid() && Enabled(pool, Pushed(i))
      modifies this`waiters, this`idleHead, this`activeHead, this`activeTail, this`loops, this`pool, this`ended
      modifies pool.workers`next, pool.workers`prev, frames`w
      ensures Valid() && pool == Apply(old(pool), Pushed(i))
    {
      hide Linked, Nexts, Prevs, Distinct, Stack, StopRequested, Inv, PushWorker;
      ghost var p := pool;
      StepKeeps(p, Pushed(i));
      var w := loops[i].w;
      AcceptFacts(p, i, w);
      Move(i, Check);
      PushSync(w);
    }

    // --------------------------------------------------------------- sessions

    /** The session's coroutine ends; its push is dispatched to the server's executor.
        Until that runs the worker stays on the active list. */
    method FinishSession(w: Worker)
      requires Valid() && Enabled(pool, Finish(w))
      modifies this`ended, this`pool
      ensures Valid() && pool == Apply(old(pool), Finish(w))
      ensures Enabled(pool, Return(w)) && !Enabled(pool, Finish(w))
    {
      hide Linked, Nexts, Prevs, Distinct, Stack, StopRequested, Inv;
      StepKeeps(pool, Finish(w));
      InRange(pool);
      ended := ended + {w};
      pool := pool.(returning := ended);
    }

    /** The push at the end of a session. */
    method ReturnSession(w: Worker)
      requires Valid() && Enabled(pool, Return(w))
      modifies this`waiters, this`idleHead, this`activeHead, this`activeTail, this`loops, this`pool, this`ended
      modifies pool.workers`next, pool.workers`prev, frames`w
      ensures Valid() && pool == Apply(old(pool), Return(w))
    {
      hide Linked, Nexts, Prevs, Distinct, Stack, StopRequested, Inv, PushWorker;
      StepKeeps(pool, Return(w));
      InRange(pool);
      ReturnFacts(View(), w);
      PushSync(w);
    }

    // ------------------------------------------------------ calls from outside

    constructor ()
      ensures Valid() && pool == Initial(0) && fresh(frames)
    {
      waiters, idleHead, activeHead, activeTail := null, null, null, null;
      activeAccepts, running, token, ports, stops, ended := 0, false, false, 0, 0, {};
      loops, frames := [], [];
      pool := Initial(0);
      new;
      InitialInv<Worker>(0);
    }

    /** Opening the acceptor may fail, which leaves the server as it was. */
    method Bind(fails: bool) returns (failed: bool)
      requires Valid() && Enabled(pool, WorkerPool.Bind(!fails))
      modifies this`ports, this`pool
      ensures failed == fails && Valid() && pool == Apply(old(pool), WorkerPool.Bind(!fails))
    {
      hide Linked, Nexts, Prevs, Distinct, Stack, StopRequested, Inv;
      StepKeeps(pool, WorkerPool.Bind(!fails));
      InRange(pool);
      if fails { return true; }
      ports := ports + 1;
      pool := pool.(ports := ports);
      return false;
    }

    /** Replaces the workers; the idle list takes them in, so the last comes first. A stop
        request that a worker brings along stays until its next session. */
    method SetWorkers(ws: seq<Worker>)
      requires Valid() && Enabled(pool, WorkerPool.SetWorkers(ws, StopRequested(Elements(ws))))
      requires forall w | w in ws :: w.prev == null
      modifies this`idleHead, this`activeHead, this`activeTail, this`pool, ws`next
      ensures Valid()
      ensures pool == Apply(old(pool), WorkerPool.SetWorkers(ws, old(StopRequested(Elements(ws)))))
    {
      hide Lists, View, Nexts, Prevs, Stack, StopRequested, Inv, Reversed, Distinct, Enabled, Apply, Elements;
      SetWorkersFacts(pool, ws, StopRequested(Elements(ws)));
      InElements(ws);
      ClearLists(Elements(ws));
      FillIdle(ws);
    }

    method ClearLists(ghost ws: set<Worker>)
      requires Represents() && pool.active == [] && pool.returning == {} && forall w | w in ws :: w.prev == null
      modifies this`idleHead, this`activeHead, this`activeTail, this`pool
      ensures Represents() && pool == old(pool).(workers := ws, idle := [], stopped := StopRequested(ws))
    {
      hide Linked, Nexts, Prevs, Stack, StopRequested;
      idleHead, activeHead, activeTail := null, null, null;
      pool := pool.(workers := ws, idle := [], stopped := StopRequested(ws));
      EmptyLists(pool.workers);
    }

    method FillIdle(ws: seq<Worker>)
      requires Lists() && Distinct(ws) && pool.workers == Elements(ws) && pool.idle == [] && pool.active == []
      modifies this`idleHead, this`pool, ws`next
      ensures Lists() && pool == old(pool).(idle := Reversed(ws))
    {
      hide Linked, Nexts, Prevs, Distinct, Lists, View, Elements;
      ghost var p := pool;
      assert Reversed(ws[..0]) == [];
      hide Reversed;
      for k := 0 to |ws|
        invariant Lists() && pool == p.(idle := Reversed(ws[..k]))
      {
        NotReversed(ws, k);
        IdlePush(ws[k]);
      }
      assert ws[..|ws|] == ws;
    }

    /** Fails when the loops of the session before have not ended. */
    method Start() returns (failed: bool)
      requires Valid()
      modifies this`running, this`token, this`activeAccepts, this`loops, this`frames, this`pool
      ensures Valid() && pool == Apply(old(pool), WorkerPool.Start)
      ensures failed <==> !old(running) && old(activeAccepts) != 0
      ensures frames == old(frames) || fresh(frames)
    {
      hide Linked, Nexts, Prevs, Distinct, Stack, StopRequested, Inv, Apply;
      StartFacts(pool);
      if running { return false; }
      if activeAccepts != 0 { return true; }
      StackTop(waiters, frames, pool.waiters, pool.loops);
      running, token, activeAccepts, loops := true, false, ports, seq(ports, k => Check);
      frames := LaunchLoops(ports);
      pool := pool.(running := true, token := false, accepts := ports, loops := loops);
      FreshStack(frames, loops);
      return false;
    }

    method Stop()
      requires Valid()
      modifies this`running, this`token, this`stops, this`pool
      ensures Valid() && pool == Apply(old(pool), WorkerPool.Stop)
    {
      hide Linked, Nexts, Prevs, Distinct, Stack, StopRequested, Inv;
      StepKeeps(pool, WorkerPool.Stop);
      InRange(pool);
      if !running { return; }
      running, token, stops := false, true, stops + 1;
      pool := pool.(running := false, token := true, stops := stops);
    }

    /** The stop coroutine. */
    method DoStop()
      requires Valid() && Enabled(pool, WorkerPool.DoStop)
      modifies this`stops, this`pool, pool.workers`stop
      ensures Valid() && pool == Apply(old(pool), WorkerPool.DoStop)
    {
      hide Linked, Nexts, Prevs, Distinct, Stack, Inv, StopRequested;
      StepKeeps(pool, WorkerPool.DoStop);
      InRange(pool);
      StopActive();
      stops := stops - 1;
      pool := pool.(stops := stops, stopped := StopRequested(pool.workers));
    }

    /** Walks the active list and stops every session on it. */
    method StopActive()
      requires Lists()
      modifies pool.workers`stop
      ensures Lists() && StopRequested(pool.workers) == old(StopRequested(pool.workers)) + Elements(pool.active)
    {
      hide Linked, Nexts, Prevs, Distinct, StopRequested, Elements;
      ghost var p, k := pool, 0;
      assert Elements(p.active[..0]) == {} by { NoElements(p.active[..0]); }
      IdleHeadIs(View());
      var w := activeHead;
      while w != null
        invariant k <= |p.active| && w == WorkerAt(p.active, k)
        invariant Lists()
        invariant StopRequested(p.workers) == old(StopRequested(pool.workers)) + Elements(p.active[..k])
        decreases |p.active| - k
      {
        ActiveNext(View(), k);
        LinksOf(w, p.workers);
        RequestStop(w, p.workers);
        StopOneMore(old(StopRequested(pool.workers)), p.active, k);
        w, k := w.next, k + 1;
      }
      assert p.active[..k] == p.active;
    }
  }

  /** One frame for each loop, with nothing in its waiter. */
  method LaunchLoops(n: nat) returns (frames: seq<Waiter>)
    ensures |frames| == n && fresh(frames)
    ensures forall i | 0 <= i < n :: frames[i].loop == i
  {
    frames := [];
    for k := 0 to n
      invariant |frames| == k && fresh(frames)
      invariant forall i | 0 <= i < k :: frames[i].loop == i
    {
      var f := new Waiter(k);
      frames := frames + [f];
    }
  }

  lemma InElements<T>(s: seq<T>)
    ensures forall x | x in Elements(s) :: x in s
  {
  }

  lemma NoElements<T>(s: seq<T>)
    requires s == []
    ensures Elements(s) == {}
  {
  }

  lemma StopOneMore<T>(a: set<T>, s: seq<T>, k: nat)
    requires k < |s|
    ensures (a + Elements(s[..k])) + {s[k]} == a + Elements(s[..k + 1])
  {
  }

  lemma EmptyLists(ws: set<Worker>)
    requires forall w | w in ws :: w.prev == null
    ensures Linked(Shape(ws, [], [], null, null, null, Nexts(ws), Prevs(ws)))
  {
  }

  lemma NotReversed(ws: seq<Worker>, k: nat)
    requires Distinct(ws) && k < |ws|
    ensures ws[k] !in Reversed(ws[..k]) && ws[k] in Elements(ws)
    ensures Reversed(ws[..k + 1]) == [ws[k]] + Reversed(ws[..k])
  {
    assert ws[..k + 1][..k] == ws[..k];
    ReversedCounts(ws[..k]);
    assert ws[k] !in multiset(ws[..k]);
    assert ws[k] !in multiset(Reversed(ws[..k]));
  }

  lemma FreshStack(frames: seq<Waiter>, loops: seq<Loop<Worker>>)
    requires |frames| == |loops| && forall i | 0 <= i < |frames| :: frames[i].loop == i && loops[i].Check?
    ensures Stack(null, frames, [], loops)
  {
  }

  lemma StartFacts(p: Pool<Worker>)
    requires Inv(p)
    ensures forall k | 0 <= k < |p.waiters| :: p.waiters[k] < |p.loops|
    ensures var q := Apply(p, Start);
            && Inv(q)
            && q == if p.running || p.accepts != 0 then p
                    else p.(running := true, token := false, accepts := p.ports, loops := seq(p.ports, k => Check))
    ensures p.accepts == 0 ==> p.waiters == []
  {
    StepKeeps(p, Start);
    if p.accepts == 0 {
      NoneLive(p.loops);
      NoWaiters(p);
    }
  }

  lemma SetWorkersFacts(p: Pool<Worker>, ws: seq<Worker>, stopped: set<Worker>)
    requires Inv(p) && Enabled(p, SetWorkers(ws, stopped))
    ensures forall k | 0 <= k < |p.waiters| :: p.waiters[k] < |p.loops|
    ensures p.active == [] && p.returning == {} && Distinct(ws)
    ensures var q := Apply(p, SetWorkers(ws, stopped));
            Inv(q) && q == p.(workers := Elements(ws), idle := Reversed(ws), stopped := stopped)
  {
    StepKeeps(p, SetWorkers(ws, stopped));
    assert p.returning == {};
  }

  lemma ActiveNext(l: Shape, k: nat)
    requires Linked(l) && k < |l.active|
    ensures l.active[k] in l.ws && l.active[k] in l.nx && l.nx[l.active[k]] == WorkerAt(l.active, k + 1)
  {
  }

  lemma InRange(p: Pool<Worker>)
    requires Inv(p)
    ensures WaitersMatch(p) && forall k | 0 <= k < |p.waiters| :: p.waiters[k] < |p.loops|
  {
  }

  lemma ReturnFacts(l: Shape, w: Worker)
    requires Linked(l) && w in l.active
    ensures w in l.ws && w !in l.idle
  {
  }

  /** A worker in a loop's hands is on neither list, and stays so when the loop moves on. */
  lemma AcceptFacts(p: Pool<Worker>, i: nat, w: Worker)
    requires Inv(p) && i < |p.loops| && (p.loops[i] == Accepting(w) || p.loops[i] == Pushing(w))
    ensures w in p.workers && w !in p.idle && w !in p.active
    ensures WaitersMatch(p) && forall k | 0 <= k < |p.waiters| :: p.waiters[k] < |p.loops|
    ensures WaitersMatch(p.(loops := p.loops[i := Check]))
  {
    InHands(p, i, w);
    MoveTidy(p, i, Check);
  }

  lemma TestFacts(p: Pool<Worker>, i: nat)
    requires Inv(p) && Enabled(p, Test(i))
    ensures i < |p.loops| && p.loops[i].Check? && p.accepts > 0 && i !in p.waiters
    ensures Inv(Apply(p, Test(i))) && Apply(p, Test(i)) == TestToken(p, i)
    ensures forall k | 0 <= k < |p.waiters| :: p.waiters[k] < |p.loops|
  {
    StepKeeps(p, Test(i));
    LiveLoop(p, i);
  }

  /** Moving a loop that is not waiting to a state that is neither waiting nor woken. */
  lemma StackMoves(top: Waiter?, frames: seq<Waiter>, ws: seq<nat>, loops: seq<Loop<Worker>>, i: nat, l: Loop<Worker>)
    requires Stack(top, frames, ws, loops) && i < |loops| && !l.Waiting? && !l.Woken?
    ensures Stack(top, frames, ws, loops[i := l])
  {
  }

  function WaiterAt(frames: seq<Waiter>, ws: seq<nat>, k: int): Waiter?
    requires forall j | 0 <= j < |ws| :: ws[j] < |frames|
  {
    if 0 <= k < |ws| then frames[ws[k]] else null
  }

  /** The linked stack from `top` is `ws`; a woken loop's waiter holds its worker and
      a waiting loop's waiter holds none. */
  ghost predicate Stack(top: Waiter?, frames: seq<Waiter>, ws: seq<nat>, loops: seq<Loop<Worker>>)
    reads frames`next, frames`w
  {
    && |frames| == |loops|
    && (forall i | 0 <= i < |frames| :: frames[i].loop == i)
    && (forall k | 0 <= k < |ws| :: ws[k] < |frames|)
    && top == WaiterAt(frames, ws, 0)
    && (forall k {:trigger frames[ws[k]].next} | 0 <= k < |ws| :: frames[ws[k]].next == WaiterAt(frames, ws, k + 1))
    && (forall i | 0 <= i < |loops| && loops[i].Woken? :: frames[i].w == loops[i].w)
    && (forall i | 0 <= i < |loops| && loops[i].Waiting? :: frames[i].w == null)
  }

  lemma StackCons(top: Waiter?, frames: seq<Waiter>, ws: seq<nat>, loops: seq<Loop<Worker>>, i: nat)
    requires (forall j | 0 <= j < |frames| :: frames[j].loop == j) && forall k | 0 <= k < |ws| :: ws[k] < |frames|
    requires |frames| == |loops| && i < |loops| && top == frames[i] && top.next == WaiterAt(frames, ws, 0)
    requires forall k {:trigger frames[ws[k]].next} | 0 <= k < |ws| :: frames[ws[k]].next == WaiterAt(frames, ws, k + 1)
    requires forall j | 0 <= j < |loops| && loops[j].Woken? :: frames[j].w == loops[j].w
    requires forall j | 0 <= j < |loops| && loops[j].Waiting? :: frames[j].w == null
    ensures Stack(top, frames, [i] + ws, loops)
  {
    var r := [i] + ws;
    forall k | 0 < k < |r| ensures frames[r[k]].next == WaiterAt(frames, r, k + 1) {
      assert r[k] == ws[k - 1];
    }
  }

  lemma WaitersFacts(p: Pool<Worker>)
    requires WaitersMatch(p)
    ensures Distinct(p.waiters)
    ensures forall k | 0 <= k < |p.waiters| :: p.waiters[k] < |p.loops|
    ensures p.waiters != [] ==> p.loops[p.waiters[0]].Waiting?
  {
  }

  lemma StackTop(top: Waiter?, frames: seq<Waiter>, ws: seq<nat>, loops: seq<Loop<Worker>>)
    requires Stack(top, frames, ws, loops)
    ensures top == null <==> ws == []
  {
  }

  ghost function StopRequested(ws: set<Worker>): set<Worker>
    reads ws`stop
  {
    set w | w in ws && w.stop
  }

  lemma WithoutAbsent(l: Shape, w: Worker)
    requires Linked(l)
    ensures w !in Without(l.active, w)
  {
    hide Chain, BackChain, Distinct;
    if k :| 0 <= k < |l.active| && l.active[k] == w {
      WithoutAt(l.active, k);
      NotInRemoved(l.active, k);
    }
  }

  lemma NotInRemoved<T>(s: seq<T>, k: nat)
    requires Distinct(s) && k < |s|
    ensures s[k] !in Removed(s, k)
  {
  }

  lemma LinksOf(w: Worker, ws: set<Worker>)
    requires w in ws
    ensures w in Nexts(ws) && Nexts(ws)[w] == w.next && w in Prevs(ws) && Prevs(ws)[w] == w.prev
  {
  }

  lemma IdleHeadIs(l: Shape)
    requires Linked(l)
    ensures l.idleHead == WorkerAt(l.idle, 0) && l.head == WorkerAt(l.active, 0)
    ensures l.idleHead != null ==> l.idleHead in l.ws
  {
  }

  lemma TailIsWorker(l: Shape)
    requires Linked(l)
    ensures l.tail != null ==> l.tail in l.ws && l.tail in l.active
  {
  }

  /** The neighbours of a worker on the active list are on it too, and differ from it. */
  lemma MembersAreWorkers(l: Shape, k: nat)
    requires Linked(l) && k < |l.active|
    ensures var s := l.active; var w, prev, next := s[k], WorkerAt(s, k - 1), WorkerAt(s, k + 1);
            && (prev != null ==> prev in l.ws && prev != w)
            && (next != null ==> next in l.ws && next != w)
  {
    var s := l.active;
    if k > 0 { assert s[k - 1] in s; }
    if k + 1 < |s| { assert s[k + 1] in s; }
  }
}
