/** The composed connect: two loops over candidate endpoints, with a condition that may
    keep state and a network that may answer anything. */
module Connect {
  import opened Basics
  import E = Endpoint

  type Endpoint = E.Endpoint

  datatype Error = Canceled | NoSuchDeviceOrAddress | Other(code: nat)

  /** How one attempt ends; `OpenThrows` is an exception from opening the socket. */
  datatype Outcome = Connected | Refused(code: nat) | Stopped | OpenThrows

  /** One call of the condition: the latest error, if any, and the candidate. */
  datatype Query = Query(last: Option<Error>, ep: Endpoint)

  /** One attempt: whether the socket was closed when it began, and its family then. */
  datatype Attempt = Attempt(ep: Endpoint, wasClosed: bool, isV4: bool)

  datatype Result<T> = Done(error: Option<Error>, value: T) | Thrown

  /** The condition answers from all its calls so far, the network from all attempts. */
  type Condition = seq<Query> -> bool

  type Network = seq<Endpoint> -> Outcome

  // ------------------------------------------------------------- what a run is

  /** The candidates that the condition accepted. */
  function Accepted(cond: Condition, calls: seq<Query>): seq<Endpoint> {
    if calls == [] then []
    else if cond(calls) then Accepted(cond, calls[..|calls| - 1]) + [calls[|calls| - 1].ep]
    else Accepted(cond, calls[..|calls| - 1])
  }

  /** The error after these attempts. */
  function LastError(net: Network, tried: seq<Endpoint>): Option<Error> {
    if tried == [] then None else
    match net(tried)
    case Connected => None
    case Refused(code) => Some(Other(code))
    case Stopped => Some(Canceled)
    case OpenThrows => None
  }

  /** The last of these attempts ends the operation. */
  predicate Ends(net: Network, tried: seq<Endpoint>) { tried != [] && !net(tried).Refused? }

  /** The candidates are asked about in order, each time with the error of the latest
      attempt, and before each no attempt has ended the operation. */
  ghost predicate Going(eps: seq<Endpoint>, cond: Condition, net: Network, calls: seq<Query>) {
    && |calls| <= |eps|
    && (forall i | 0 <= i < |calls| ::
          && calls[i] == Query(LastError(net, Accepted(cond, calls[..i])), eps[i])
          && !Ends(net, Accepted(cond, calls[..i])))
  }

  /** A whole run goes on until an attempt ends it or no candidate is left. */
  ghost predicate IsRun(eps: seq<Endpoint>, cond: Condition, net: Network, calls: seq<Query>) {
    Going(eps, cond, net, calls) && (|calls| < |eps| ==> Ends(net, Accepted(cond, calls)))
  }

  /** The error of the whole operation. */
  function Verdict(net: Network, tried: seq<Endpoint>): Option<Error> {
    if tried == [] then Some(NoSuchDeviceOrAddress) else LastError(net, tried)
  }

  predicate Succeeds(net: Network, tried: seq<Endpoint>) { tried != [] && net(tried).Connected? }

  predicate Throws(net: Network, tried: seq<Endpoint>) { tried != [] && net(tried).OpenThrows? }

  lemma {:induction false} RunsAgreeTo(
    eps: seq<Endpoint>, cond: Condition, net: Network, a: seq<Query>, b: seq<Query>, n: nat)
    requires IsRun(eps, cond, net, a) && IsRun(eps, cond, net, b) && n <= |a| && n <= |b|
    ensures a[..n] == b[..n]
  {
    if n > 0 {
      RunsAgreeTo(eps, cond, net, a, b, n - 1);
      assert a[..n] == a[..n - 1] + [a[n - 1]] && b[..n] == b[..n - 1] + [b[n - 1]];
    }
  }

  /** Candidates, condition and network determine the run. */
  lemma RunIsUnique(eps: seq<Endpoint>, cond: Condition, net: Network, a: seq<Query>, b: seq<Query>)
    requires IsRun(eps, cond, net, a) && IsRun(eps, cond, net, b)
    ensures a == b
  {
    var n := if |a| < |b| then |a| else |b|;
    RunsAgreeTo(eps, cond, net, a, b, n);
    assert a[..|a|] == a && b[..|b|] == b;
    assert !(|a| < |b|) && !(|b| < |a|);
  }

  // ----------------------------------------------------------------- the socket

  /** Every accepted candidate was tried, on a socket opened anew in its family. */
  ghost predicate TriedAfresh(attempts: seq<Attempt>, tried: seq<Endpoint>) {
    |attempts| == |tried| && forall i | 0 <= i < |tried| :: attempts[i] == Attempt(tried[i], true, tried[i].isV4)
  }

  class TcpSocket {
    var isOpen: bool
    var isV4: bool
    ghost var attempts: seq<Attempt>

    constructor ()
      ensures !isOpen && attempts == []
    {
      isOpen, isV4, attempts := false, false, [];
    }

    method Close()
      modifies this`isOpen
      ensures !isOpen
    {
      isOpen := false;
    }

    /** Opens the socket in the endpoint's family if it is not open, then connects. */
    method Connect(ep: Endpoint, outcome: Outcome)
      modifies this
      ensures attempts == old(attempts) + [Attempt(ep, !old(isOpen), isV4)]
      ensures isV4 == if old(isOpen) then old(isV4) else ep.isV4
      ensures isOpen == (old(isOpen) || !outcome.OpenThrows?)
    {
      attempts := attempts + [Attempt(ep, !isOpen, if isOpen then isV4 else ep.isV4)];
      if !isOpen {
        isV4 := ep.isV4;
        isOpen := !outcome.OpenThrows?;
      }
    }
  }

  // ------------------------------------------------------------ the two overloads

  /** One candidate: asked, and if accepted tried on a socket closed first. */
  method TryCandidate(
    s: TcpSocket, ep: Endpoint, cond: Condition, net: Network, calls0: seq<Query>, last: Option<Error>)
    returns (calls: seq<Query>, outcome: Option<Outcome>)
    requires TriedAfresh(s.attempts, Accepted(cond, calls0))
    modifies s
    ensures calls == calls0 + [Query(last, ep)]
    ensures TriedAfresh(s.attempts, Accepted(cond, calls))
    ensures outcome == if cond(calls) then Some(net(Accepted(cond, calls))) else None
    ensures Accepted(cond, calls) == if cond(calls) then Accepted(cond, calls0) + [ep] else Accepted(cond, calls0)
  {
    calls := calls0 + [Query(last, ep)];
    assert calls[..|calls| - 1] == calls0;
    if !cond(calls) { return calls, None; }
    if s.isOpen { s.Close(); }
    outcome := Some(net(Accepted(cond, calls)));
    s.Connect(ep, outcome.value);
  }

  const ANY: Endpoint := E.V4Endpoint(0, 0)

  /** What the range overload returns after these attempts. */
  function RangeResult(net: Network, tried: seq<Endpoint>): Result<Endpoint> {
    if Throws(net, tried) then Thrown
    else if Succeeds(net, tried) then Done(None, tried[|tried| - 1])
    else Done(Verdict(net, tried), ANY)
  }

  /** What the iterator overload returns, positions for iterators. */
  function IteratorResult(net: Network, tried: seq<Endpoint>, asked: nat, end: nat): Result<nat>
    requires tried != [] ==> asked > 0
  {
    if Throws(net, tried) then Thrown
    else if Succeeds(net, tried) then Done(None, asked - 1)
    else Done(Verdict(net, tried), end)
  }

  lemma Asked(eps: seq<Endpoint>, cond: Condition, net: Network, calls: seq<Query>)
    requires Going(eps, cond, net, calls) && |calls| < |eps| && !Ends(net, Accepted(cond, calls))
    ensures Going(eps, cond, net, calls + [Query(LastError(net, Accepted(cond, calls)), eps[|calls|])])
  {
    var n := |calls|;
    var more := calls + [Query(LastError(net, Accepted(cond, calls)), eps[n])];
    assert more[..n] == calls;
    forall i | 0 <= i < n ensures more[..i] == calls[..i] { }
  }

  method ConnectRange(s: TcpSocket, eps: seq<Endpoint>, cond: Condition, net: Network)
    returns (r: Result<Endpoint>, calls: seq<Query>)
    modifies s
    ensures IsRun(eps, cond, net, calls) && TriedAfresh(s.attempts, Accepted(cond, calls))
    ensures r == RangeResult(net, Accepted(cond, calls))
  {
    hide Accepted, Going, TriedAfresh;
    s.attempts, calls := [], [];
    Start(eps, cond, net);
    var last: Option<Error> := None;
    for k := 0 to |eps|
      invariant |calls| == k && Going(eps, cond, net, calls) && TriedAfresh(s.attempts, Accepted(cond, calls))
      invariant !Ends(net, Accepted(cond, calls)) && last == LastError(net, Accepted(cond, calls))
    {
      Asked(eps, cond, net, calls);
      var outcome: Option<Outcome>;
      calls, outcome := TryCandidate(s, eps[k], cond, net, calls, last);
      match outcome
      case None =>
      case Some(Connected) => return Done(None, eps[k]), calls;
      case Some(Stopped) => return Done(Some(Canceled), ANY), calls;
      case Some(OpenThrows) => return Thrown, calls;
      case Some(Refused(code)) => last := Some(Other(code));
    }
    return Done(if last.None? then Some(NoSuchDeviceOrAddress) else last, ANY), calls;
  }

  lemma Start(eps: seq<Endpoint>, cond: Condition, net: Network)
    ensures Accepted(cond, []) == [] && Going(eps, cond, net, []) && TriedAfresh([], [])
  {
  }

  method ConnectIterators(s: TcpSocket, eps: seq<Endpoint>, cond: Condition, net: Network)
    returns (r: Result<nat>, calls: seq<Query>)
    modifies s
    ensures IsRun(eps, cond, net, calls) && TriedAfresh(s.attempts, Accepted(cond, calls))
    ensures Accepted(cond, calls) != [] ==> calls != []
    ensures r == IteratorResult(net, Accepted(cond, calls), |calls|, |eps|)
  {
    hide Accepted, Going, TriedAfresh;
    s.attempts, calls := [], [];
    Start(eps, cond, net);
    var last: Option<Error> := None;
    var it := 0;
    while it != |eps|
      invariant it <= |eps| && |calls| == it
      invariant Going(eps, cond, net, calls) && TriedAfresh(s.attempts, Accepted(cond, calls))
      invariant !Ends(net, Accepted(cond, calls)) && last == LastError(net, Accepted(cond, calls))
      invariant Accepted(cond, calls) != [] ==> calls != []
      decreases |eps| - it
    {
      Asked(eps, cond, net, calls);
      var outcome: Option<Outcome>;
      calls, outcome := TryCandidate(s, eps[it], cond, net, calls, last);
      match outcome {
        case None =>
        case Some(Connected) => return Done(None, it), calls;
        case Some(Stopped) => return Done(Some(Canceled), |eps|), calls;
        case Some(OpenThrows) => return Thrown, calls;
        case Some(Refused(code)) => last := Some(Other(code));
      }
      it := it + 1;
    }
    return Done(if last.None? then Some(NoSuchDeviceOrAddress) else last, |eps|), calls;
  }

  // ------------------------------------------------------------------ agreement

  /** An operation that an attempt ended asked last about the endpoint of that attempt. */
  lemma EndedByLast(eps: seq<Endpoint>, cond: Condition, net: Network, calls: seq<Query>)
    requires IsRun(eps, cond, net, calls) && Ends(net, Accepted(cond, calls))
    ensures calls != [] && cond(calls)
    ensures var tried := Accepted(cond, calls); tried[|tried| - 1] == eps[|calls| - 1]
  {
    var n := |calls|;
    assert n > 0;
    assert !Ends(net, Accepted(cond, calls[..n - 1]));
    assert Accepted(cond, calls) != Accepted(cond, calls[..n - 1]);
    assert calls[n - 1].ep == eps[n - 1];
  }

  /** The overloads ask the same questions, make the same attempts and agree on the error
      and on the endpoint; without success both return their end value. */
  lemma OverloadsAgree(eps: seq<Endpoint>, cond: Condition, net: Network, a: seq<Query>, b: seq<Query>)
    requires IsRun(eps, cond, net, a) && IsRun(eps, cond, net, b)
    ensures a == b
    ensures Accepted(cond, b) != [] ==> |b| > 0
    ensures var x, y := RangeResult(net, Accepted(cond, a)), IteratorResult(net, Accepted(cond, b), |b|, |eps|);
            && (x.Thrown? <==> y.Thrown?)
            && (x.Done? ==> x.error == y.error)
            && (x.Done? && x.error == None ==> y.value < |eps| && x.value == eps[y.value])
            && (x.Done? && x.error != None ==> y.value == |eps| && x.value == ANY)
  {
    hide IsRun;
    RunIsUnique(eps, cond, net, a, b);
    if Ends(net, Accepted(cond, a)) {
      EndedByLast(eps, cond, net, a);
      RunBound(eps, cond, net, a);
    }
  }

  lemma RunBound(eps: seq<Endpoint>, cond: Condition, net: Network, calls: seq<Query>)
    requires IsRun(eps, cond, net, calls)
    ensures |calls| <= |eps|
  {
  }

  lemma {:induction false} AcceptedPrefix(cond: Condition, calls: seq<Query>, i: nat)
    requires i <= |calls|
    ensures Accepted(cond, calls[..i]) <= Accepted(cond, calls)
    decreases |calls|
  {
    if i == |calls| {
      assert calls[..i] == calls;
    } else {
      var before := calls[..|calls| - 1];
      assert calls[..i] == before[..i];
      AcceptedPrefix(cond, before, i);
    }
  }

  /** A candidate is tried exactly when the condition accepts it, asked with the error of
      the latest attempt before it. */
  lemma CandidateIsTried(eps: seq<Endpoint>, cond: Condition, net: Network, calls: seq<Query>, i: nat)
    requires IsRun(eps, cond, net, calls) && i < |calls|
    ensures var before, after := Accepted(cond, calls[..i]), Accepted(cond, calls[..i + 1]);
            && calls[i].ep == eps[i]
            && (before == [] ==> calls[i].last == None)
            && (before != [] ==> net(before).Refused? && calls[i].last == Some(Other(net(before).code)))
            && after == (if cond(calls[..i + 1]) then before + [eps[i]] else before)
            && after <= Accepted(cond, calls)
  {
    assert calls[..i + 1][..i] == calls[..i];
    AcceptedPrefix(cond, calls, i + 1);
  }

  /** Every attempt but the last was refused. The last decides: its endpoint on success, its
      error otherwise, after all candidates unless it was canceled; and without any attempt
      there was no device. */
  lemma LastAttemptDecides(eps: seq<Endpoint>, cond: Condition, net: Network, calls: seq<Query>)
    requires IsRun(eps, cond, net, calls)
    ensures var tried := Accepted(cond, calls);
            var x := RangeResult(net, tried);
            && (tried == [] ==> x == Done(Some(NoSuchDeviceOrAddress), ANY) && |calls| == |eps|)
            && (tried != [] && net(tried).Connected? ==> x == Done(None, tried[|tried| - 1]))
            && (tried != [] && net(tried).Refused? ==> x == Done(Some(Other(net(tried).code)), ANY) && |calls| == |eps|)
            && (tried != [] && net(tried).Stopped? ==> x == Done(Some(Canceled), ANY))
            && (tried != [] && net(tried).OpenThrows? ==> x == Thrown)
            && (forall k | 0 < k < |tried| :: net(tried[..k]).Refused?)
    ensures ANY.isV4 && ANY.v4 == 0 && ANY.port == 0
  {
    var tried := Accepted(cond, calls);
    forall k | 0 < k < |tried| ensures net(tried[..k]).Refused? {
      var i := PrefixReached(cond, calls, k);
      assert !Ends(net, Accepted(cond, calls[..i]));
    }
  }

  /** The first `k` attempts were all there were before some question. */
  lemma {:induction false} PrefixReached(cond: Condition, calls: seq<Query>, k: nat) returns (i: nat)
    requires k < |Accepted(cond, calls)|
    ensures i < |calls| && Accepted(cond, calls[..i]) == Accepted(cond, calls)[..k]
    decreases |calls|
  {
    var before := calls[..|calls| - 1];
    if k == |Accepted(cond, before)| {
      i := |calls| - 1;
    } else {
      i := PrefixReached(cond, before, k);
      assert calls[..i] == before[..i];
    }
  }

  /** Without a condition the attempts are the candidates up to the one that ends it. */
  lemma {:induction false} EveryCandidate(eps: seq<Endpoint>, cond: Condition, net: Network, calls: seq<Query>)
    requires (forall q :: cond(q)) && Going(eps, cond, net, calls)
    ensures Accepted(cond, calls) == eps[..|calls|]
    decreases |calls|
  {
    if calls != [] {
      var before := calls[..|calls| - 1];
      forall i | 0 <= i < |before| ensures before[..i] == calls[..i] { }
      EveryCandidate(eps, cond, net, before);
      assert eps[..|calls|] == eps[..|calls| - 1] + [eps[|calls| - 1]];
    }
  }
}
