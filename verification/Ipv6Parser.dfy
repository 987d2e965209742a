/** The IPv6 address parser: a hand-written scanner over sixteen bytes that are
    filled in place, with a rewind for a dotted tail and an in-place expansion of
    "::". It follows the state machine of Ipv6Scan. */
module Ipv6Parser {
  import opened Basics
  import opened Ipv4Address
  import opened Ipv6Grammar
  import opened Ipv6Scan

  // ------------------------------------------------------------ words in bytes

  function WordAt(bytes: seq<Byte>, i: nat): (w: Word)
    requires 2 * i + 1 < |bytes|
  {
    BigEndian(bytes[2 * i], bytes[2 * i + 1])
  }

  /** The words `ws` are stored from slot `k` on. */
  predicate StoredFrom(bytes: seq<Byte>, k: nat, ws: seq<Word>) {
    && 2 * (k + |ws|) <= |bytes|
    && forall i | 0 <= i < |ws| :: WordAt(bytes, k + i) == ws[i]
  }

  // -------------------------------------------------------------------- reading

  /** One to four hexadecimal digits; the value is split into two bytes. */
  method ParseH16(s: string, it: nat) returns (ok: bool, next: nat, hi: Byte, lo: Byte)
    requires it <= |s|
    ensures var k := HexPrefix(s[it..], 4);
            && ok == (k > 0)
            && next == it + k <= |s|
            && (ok ==> IsH16(s[it..next]) && s[it..][..k] == s[it..next] && BigEndian(hi, lo) == H16Value(s[it..next]))
  {
    hide HexPrefix, HexNumber;
    ok, next, hi, lo := false, it, 0, 0;
    if it == |s| || !IsHexDigit(s[it]) {
      NoHexPrefix(s[it..], 4);
      return;
    }
    var v := HexValue(s[it]);
    next := it + 1;
    OneMoreDigit(s, it, it);
    while next < it + 4 && next < |s| && IsHexDigit(s[next])
      invariant it < next <= |s| && next <= it + 4
      invariant AllHex(s[it..next])
      invariant v == HexNumber(s[it..next])
    {
      OneMoreDigit(s, it, next);
      v := v * 16 + HexValue(s[next]);
      next := next + 1;
    }
    var g := s[it..next];
    assert s[it..] == g + s[next..];
    HexPrefixOf(g, s[next..], 4);
    assert v == H16Value(g);
    SplitsRejoin(v);
    ok, hi, lo := true, v / 256, v % 256;
  }

  lemma NoHexPrefix(r: string, max: nat)
    requires r == "" || !IsHexDigit(r[0])
    ensures HexPrefix(r, max) == 0
  {
  }

  lemma OneMoreDigit(s: string, it: nat, next: nat)
    requires it <= next < |s| && AllHex(s[it..next]) && IsHexDigit(s[next])
    ensures AllHex(s[it..next + 1])
    ensures HexNumber(s[it..next + 1]) == HexNumber(s[it..next]) * 16 + HexValue(s[next])
    ensures it == next ==> HexNumber(s[it..next]) == 0
  {
    assert s[it..next + 1][..next - it] == s[it..next];
  }

  lemma DottedCharacters(q: Quad)
    ensures forall c | c in Ipv4Text(q) :: c == '.' || IsDigit(c)
  {
    hide OctetText;
    forall k | 0 <= k < 4 ensures forall c | c in OctetText(q[k]) :: IsDigit(c) {
      assert forall i | 0 <= i < |OctetText(q[k])| :: IsDigit(OctetText(q[k])[i]);
    }
  }

  lemma NoColonInDotted(g: string)
    requires ':' in g
    ensures !IsIpv4Address(g)
  {
    hide Ipv4Text;
    if IsIpv4Address(g) { DottedCharacters(QuadOf(g)); }
  }

  /** Reads the dotted tail at `prev`: an IPv4 parse of the rest of the text, a scan
      for the end of the digits and dots, and a second parse of exactly that part.
      The second parse agrees with the first and the scan ends at the end. */
  method ParseDottedTail(s: string, prev: nat) returns (ok: bool, it: nat, b4: Quad)
    requires prev <= |s|
    ensures ok <==> IsIpv4Address(s[prev..])
    ensures ok ==> Ipv4Text(b4) == s[prev..]
    ensures it <= |s| && (ok ==> it == |s|)
  {
    hide Ipv4Text, ToBytes, IsIpv4Address;
    it, b4 := prev, [0, 0, 0, 0];
    var v4;
    ok, v4 := ParseIpv4Address(s[prev..], 0);
    if !ok { return; }
    DottedCharacters(ToBytes(v4));
    forall k | prev <= k < |s| ensures s[k] == '.' || IsDigit(s[k]) { assert s[k] in s[prev..]; }
    while it != |s| && (s[it] == '.' || IsDigit(s[it]))
      invariant prev <= it <= |s|
      decreases |s| - it
    {
      it := it + 1;
    }
    assert it == |s| && s[prev..it] == s[prev..];
    var v4check;
    ok, v4check := ParseIpv4Address(s[prev..it], 0);
    TextDeterminesNumber(v4, v4check);
    b4 := ToBytes(v4check);
  }

  // ------------------------------------------------------------ "::" in place

  /** `y` is `x` after copying `len` bytes from `src` to `dst` as if through a buffer. */
  predicate Moved(x: seq<Byte>, y: seq<Byte>, dst: nat, src: nat, len: nat)
    requires src + len <= |x|
  {
    && |y| == |x|
    && (forall i | 0 <= i < |x| && dst <= i < dst + len :: y[i] == x[i - dst + src])
    && (forall i | 0 <= i < |x| && !(dst <= i < dst + len) :: y[i] == x[i])
  }

  predicate Zeroed(x: seq<Byte>, y: seq<Byte>, dst: nat, len: nat) {
    && |y| == |x|
    && forall i | 0 <= i < |x| :: y[i] == if dst <= i < dst + len then 0 else x[i]
  }

  method MemMove(a: array<Byte>, dst: nat, src: nat, len: nat)
    requires dst + len <= a.Length && src + len <= a.Length
    modifies a
    ensures Moved(old(a[..]), a[..], dst, src, len)
  {
    forall i | 0 <= i < len { a[dst + i] := a[src + i]; }
  }

  method MemZero(a: array<Byte>, dst: nat, len: nat)
    requires dst + len <= a.Length
    modifies a
    ensures Zeroed(old(a[..]), a[..], dst, len)
  {
    forall i | 0 <= i < len { a[dst + i] := 0; }
  }

  /** The three cases ("::" last, first, in the middle) all leave the leading words,
      then zeros, then the trailing words. */
  method ExpandElision(a: array<Byte>, b: int, n: int, ghost pre: seq<Word>, ghost post: seq<Word>)
    requires a.Length == 16 && |pre| + |post| <= 7 && b == 7 - |pre| && n == b - |post|
    requires StoredFrom(a[..], 0, pre) && StoredFrom(a[..], |pre| + 1, post)
    modifies a
    ensures WordsOf(a[..]) == Expand(pre, post)
  {
    hide *;
    ghost var was := a[..];
    ghost var p, q := |pre|, |post|;
    if b == n {
      var i := 2 * (7 - n);
      MemZero(a, i, 16 - i);
      ghost var now := a[..];
      assert Expanded(was, now, p, q) by { ZeroedIsExpanded(was, now, p); }
    } else if b == 7 {
      var i := 2 * (b - n);
      MemMove(a, 16 - i, 2, i);
      ghost var mid := a[..];
      MemZero(a, 0, 16 - i);
      ghost var now := a[..];
      assert Expanded(was, now, p, q) by { MovedIsExpanded(was, mid, now, 0, q); }
    } else {
      var i0 := 2 * (7 - b);
      var i1 := 2 * (b - n);
      MemMove(a, 16 - i1, i0 + 2, i1);
      ghost var mid := a[..];
      MemZero(a, i0, 16 - (i0 + i1));
      ghost var now := a[..];
      assert Expanded(was, now, p, q) by { MovedIsExpanded(was, mid, now, p, q); }
    }
    ExpandedWords(was, a[..], pre, post);
  }

  lemma ZeroedIsExpanded(was: seq<Byte>, now: seq<Byte>, p: nat)
    requires |was| == 16 && p <= 7 && Zeroed(was, now, 2 * p, 16 - 2 * p)
    ensures Expanded(was, now, p, 0)
  {
  }

  lemma MovedIsExpanded(was: seq<Byte>, mid: seq<Byte>, now: seq<Byte>, p: nat, q: nat)
    requires |was| == 16 && p + q <= 7
    requires Moved(was, mid, 16 - 2 * q, 2 * p + 2, 2 * q) && Zeroed(mid, now, 2 * p, 16 - 2 * p - 2 * q)
    ensures Expanded(was, now, p, q)
  {
    forall i | 0 <= i < 16
      ensures i < 2 * p ==> now[i] == was[i]
      ensures 2 * p <= i < 16 - 2 * q ==> now[i] == 0
      ensures 16 - 2 * q <= i ==> now[i] == was[i - (14 - 2 * p - 2 * q)]
    {
      assert now[i] == if 2 * p <= i < 16 - 2 * q then 0 else mid[i];
      if 16 - 2 * q <= i { assert mid[i] == was[i - (16 - 2 * q) + (2 * p + 2)]; }
    }
  }

  /** Where each byte of the expansion comes from. */
  predicate Expanded(was: seq<Byte>, bytes: seq<Byte>, p: nat, q: nat)
    requires |was| == |bytes| == 16 && p + q <= 7
  {
    && (forall i | 0 <= i < 2 * p :: bytes[i] == was[i])
    && (forall i | 2 * p <= i < 16 - 2 * q :: bytes[i] == 0)
    && (forall i | 16 - 2 * q <= i < 16 :: bytes[i] == was[i - (14 - 2 * p - 2 * q)])
  }

  lemma ExpandedWords(was: seq<Byte>, bytes: Octets, pre: seq<Word>, post: seq<Word>)
    requires |was| == 16 && |pre| + |post| <= 7
    requires StoredFrom(was, 0, pre) && StoredFrom(was, |pre| + 1, post)
    requires Expanded(was, bytes, |pre|, |post|)
    ensures WordsOf(bytes) == Expand(pre, post)
  {
    hide Expanded, StoredFrom;
    forall i | 0 <= i < 8 ensures WordsOf(bytes)[i] == Expand(pre, post)[i] {
      if i < |pre| {
        PrefixWord(was, bytes, pre, post, i);
      } else if i < 8 - |post| {
        ZeroWord(was, bytes, |pre|, |post|, i);
      } else {
        SuffixWord(was, bytes, pre, post, i);
      }
    }
  }

  lemma PrefixWord(was: seq<Byte>, bytes: Octets, pre: seq<Word>, post: seq<Word>, i: nat)
    requires |was| == 16 && |pre| + |post| <= 7 && StoredFrom(was, 0, pre) && Expanded(was, bytes, |pre|, |post|)
    requires i < |pre|
    ensures WordsOf(bytes)[i] == pre[i]
  {
    assert WordAt(was, 0 + i) == pre[i];
  }

  lemma ZeroWord(was: seq<Byte>, bytes: Octets, p: nat, q: nat, i: nat)
    requires |was| == 16 && p + q <= 7 && Expanded(was, bytes, p, q) && p <= i < 8 - q
    ensures WordsOf(bytes)[i] == 0
  {
    assert bytes[2 * i] == 0 && bytes[2 * i + 1] == 0;
  }

  lemma SuffixWord(was: seq<Byte>, bytes: Octets, pre: seq<Word>, post: seq<Word>, i: nat)
    requires |was| == 16 && |pre| + |post| <= 7 && StoredFrom(was, |pre| + 1, post)
    requires Expanded(was, bytes, |pre|, |post|) && 8 - |post| <= i < 8
    ensures WordsOf(bytes)[i] == post[i - (8 - |post|)]
  {
    var j := i - (8 - |post|);
    assert WordAt(was, |pre| + 1 + j) == post[j];
    assert bytes[2 * i] == was[2 * (|pre| + 1 + j)];
    assert bytes[2 * i + 1] == was[2 * (|pre| + 1 + j) + 1];
  }

  // ----------------------------------------------------------------- the parser

  /** The parser's variables stand for the scanner state `st`: words stored, words
      needed and the slot of "::" make eight. */
  ghost predicate Tracks(s: string, it: nat, n: int, b: int, c: bool, prev: nat, bytes: seq<Byte>, st: State) {
    && st.Valid() && it <= |s| && prev <= |s| && |bytes| == 16
    && st.rest == s[it..] && st.prev == s[prev..]
    && n == st.Needed() && c == st.colon
    && b == (if st.seen then 7 - |st.pre| else -1)
    && Holds(bytes, st.pre, st.post)
  }

  predicate Holds(bytes: seq<Byte>, pre: seq<Word>, post: seq<Word>) {
    StoredFrom(bytes, 0, pre) && (post != [] ==> StoredFrom(bytes, |pre| + 1, post))
  }

  /** The loop is left with the outcome `o` of the whole run. */
  ghost predicate Ended(s: string, it: nat, n: int, b: int, bytes: seq<Byte>, o: Outcome) {
    && |bytes| == 16 && it <= |s|
    && if it < |s| then o == Reject
       else && o.Accept? && Holds(bytes, o.pre, o.post)
            && if b == -1 then |o.pre| == 8 && o.post == []
               else |o.pre| + |o.post| <= 7 && b == 7 - |o.pre| && n == b - |o.post|
  }

  lemma StoredKeeps(x: seq<Byte>, y: seq<Byte>, k: nat, ws: seq<Word>)
    requires StoredFrom(x, k, ws) && |y| == |x|
    requires forall i | 0 <= i < 2 * (k + |ws|) :: y[i] == x[i]
    ensures StoredFrom(y, k, ws)
  {
    forall i | 0 <= i < |ws| ensures WordAt(y, k + i) == ws[i] { assert WordAt(x, k + i) == ws[i]; }
  }

  lemma StoredAppend(x: seq<Byte>, k: nat, ws: seq<Word>, w: Word)
    requires StoredFrom(x, k, ws) && 2 * (k + |ws|) + 2 <= |x| && WordAt(x, k + |ws|) == w
    ensures StoredFrom(x, k, ws + [w])
  {
  }

  /** Storing the next word in its slot adds it to the side being read. */
  lemma HoldsAdd(x: seq<Byte>, y: seq<Byte>, st: State, hi: Byte, lo: Byte, r: string, p: string)
    requires st.Valid() && |x| == 16 && Holds(x, st.pre, st.post)
    requires y == x[2 * (8 - st.Needed()) := hi][2 * (8 - st.Needed()) + 1 := lo]
    ensures var next := st.AddWord(BigEndian(hi, lo), r, p); Holds(y, next.pre, next.post)
  {
    hide StoredFrom;
    StoredKeeps(x, y, 0, st.pre);
    if st.seen {
      if st.post != [] { StoredKeeps(x, y, |st.pre| + 1, st.post); } else { NothingStored(y, |st.pre| + 1); }
      StoredAppend(y, |st.pre| + 1, st.post, BigEndian(hi, lo));
    } else {
      StoredAppend(y, 0, st.pre, BigEndian(hi, lo));
    }
  }

  lemma NothingStored(x: seq<Byte>, k: nat)
    requires 2 * k <= |x|
    ensures StoredFrom(x, k, [])
  {
  }

  /** Reads an h16 at `at` and stores it; the caller has skipped the colon. */
  method ReadWord(s: string, at: nat, n: int, b: int, bytes: array<Byte>, ghost st: State)
      returns (ok: bool, it: nat, left: int, ghost next: State)
    requires bytes.Length == 16 && at <= |s| && st.Valid() && n == st.Needed()
    requires b == (if st.seen then 7 - |st.pre| else -1) && Holds(bytes[..], st.pre, st.post)
    modifies bytes
    ensures it <= |s|
    ensures !ok ==> TakeWord(st, s[at..]) == Reject
    ensures ok && left > 0 ==>
              TakeWord(st, s[at..]) == Continue(next) && Tracks(s, it, left, b, true, at, bytes[..], next)
    ensures ok && left <= 0 ==> left == 0 && Ended(s, it, left, b, bytes[..], TakeWord(st, s[at..]))
  {
    hide HexPrefix, H16Value;
    var hi, lo;
    next := st;
    ok, it, hi, lo := ParseH16(s, at);
    left := n;
    if !ok { return; }
    assert s[at..][it - at..] == s[it..];
    next := st.AddWord(BigEndian(hi, lo), s[it..], s[at..]);
    ghost var was := bytes[..];
    bytes[2 * (8 - n)] := hi;
    bytes[2 * (8 - n) + 1] := lo;
    left := n - 1;
    HoldsAdd(was, bytes[..], st, hi, lo, s[it..], s[at..]);
    hide Holds;
  }

  /** The dotted tail overwrites the last word stored and the slot after it. */
  lemma HoldsDotted(x: seq<Byte>, y: seq<Byte>, st: State, q: Quad)
    requires st.Valid() && st.colon && (st.seen || st.Needed() == 1) && Ipv4Text(q) == st.prev
    requires |x| == |y| == 16 && Holds(x, st.pre, st.post)
    requires var k := 2 * (7 - st.Needed());
             && y[k..k + 4] == q && forall i | 0 <= i < k :: y[i] == x[i]
    ensures IsIpv4Address(st.prev)
    ensures var o := TakeDotted(st); Holds(y, o.pre, o.post)
  {
    hide Ipv4Text, StoredFrom;
    assert IsIpv4Address(st.prev);
    PrintingIsInjective(q, QuadOf(st.prev));
    var ws := GroupWords(st.prev);
    var k := 7 - st.Needed();
    assert forall i | 0 <= i < 4 :: y[2 * k + i] == q[i] by {
      forall i | 0 <= i < 4 ensures y[2 * k + i] == q[i] { assert y[2 * k..2 * k + 4][i] == y[2 * k + i]; }
    }
    assert WordAt(y, k) == ws[0] && WordAt(y, k + 1) == ws[1];
    var side := if st.seen then st.post else st.pre;
    var from := if st.seen then |st.pre| + 1 else 0;
    var kept := side[..|side| - 1];
    StoredPrefix(x, from, side);
    StoredKeeps(x, y, from, kept);
    StoredAppend(y, from, kept, ws[0]);
    StoredAppend(y, from, kept + [ws[0]], ws[1]);
    assert kept + [ws[0]] + [ws[1]] == kept + ws;
    if st.seen { StoredKeeps(x, y, 0, st.pre); }
  }

  lemma StoredPrefix(x: seq<Byte>, k: nat, ws: seq<Word>)
    requires StoredFrom(x, k, ws) && ws != []
    ensures StoredFrom(x, k, ws[..|ws| - 1])
  {
  }

  /** Handles a dot: the last group is read again as the start of a dotted tail. */
  method ReadDotted(s: string, at: nat, n: int, b: int, c: bool, prev: nat, bytes: array<Byte>, ghost st: State)
      returns (ok: bool, it: nat, left: int)
    requires bytes.Length == 16 && Tracks(s, at, n, b, c, prev, bytes[..], st)
    requires at < |s| && s[at] == '.'
    modifies bytes
    ensures it <= |s|
    ensures !ok ==> Step(st) == Reject
    ensures ok ==> Ended(s, it, left, b, bytes[..], Step(st))
  {
    hide HexPrefix, H16Value, IsIpv4Address, TakeWord, Ipv4Text, Holds, WordsOf;
    ok, it, left := false, at, n;
    assert st.rest[0] == '.';
    if b == -1 && n > 1 { return; }
    if !MaybeOctet(WordAt(bytes[..], 7 - n)) {
      LastStored(bytes[..], st);
      return;
    }
    var b4;
    ok, it, b4 := ParseDottedTail(s, prev);
    if !c { NoColonInDotted(st.prev); }
    if !ok { return; }
    LastStored(bytes[..], st);
    ghost var was := bytes[..];
    bytes[2 * (7 - n)] := b4[0];
    bytes[2 * (7 - n) + 1] := b4[1];
    bytes[2 * (7 - n) + 2] := b4[2];
    bytes[2 * (7 - n) + 3] := b4[3];
    left := n - 1;
    assert bytes[2 * (7 - n)..2 * (7 - n) + 4] == b4;
    HoldsDotted(was, bytes[..], st, b4);
  }

  /** The word just read is in the slot before the next free one. */
  lemma LastStored(bytes: seq<Byte>, st: State)
    requires st.Valid() && |bytes| == 16 && Holds(bytes, st.pre, st.post)
    ensures st.colon ==> WordAt(bytes, 7 - st.Needed()) == st.LastWord()
  {
    if st.colon && st.seen {
      assert WordAt(bytes, |st.pre| + 1 + (|st.post| - 1)) == st.post[|st.post| - 1];
    } else if st.colon {
      assert WordAt(bytes, 0 + (|st.pre| - 1)) == st.pre[|st.pre| - 1];
    }
  }

  lemma RunStep(st: State)
    requires st.Valid()
    ensures Run(st) == if Step(st).Continue? then Run(Step(st).next) else Step(st)
  {
  }

  /** What a step does at the character where the scan stands. */
  lemma StepAt(s: string, it: nat, st: State)
    requires st.Valid() && it <= |s| && st.rest == s[it..]
    ensures it == |s| ==> Step(st) == if st.seen then Accept(st.pre, st.post) else Reject
    ensures it < |s| && s[it] == ':' ==>
              Step(st) == if it + 1 == |s| then Reject
                          else if s[it + 1] == ':' then
                            if st.seen then Reject
                            else if st.Needed() > 1 then Continue(State(s[it + 2..], st.prev, st.pre, true, [], false))
                            else if it + 2 == |s| then Accept(st.pre, []) else Reject
                          else if st.colon then TakeWord(st, s[it + 1..]) else Reject
    ensures it < |s| && s[it] != ':' && s[it] != '.' ==>
              Step(st) == if st.colon || (st.seen && !IsHexDigit(s[it])) then Reject else TakeWord(st, s[it..])
  {
    hide TakeWord, TakeDotted, IsIpv4Address;
    if it < |s| {
      assert s[it..][1..] == s[it + 1..];
      if it + 1 < |s| { assert s[it..][1..][1..] == s[it + 2..]; }
    }
  }

  lemma FullWords(bytes: Octets, ws: seq<Word>)
    requires StoredFrom(bytes, 0, ws) && |ws| == 8
    ensures WordsOf(bytes) == Expand(ws, [])
  {
    forall i | 0 <= i < 8 ensures WordsOf(bytes)[i] == ws[i] { assert WordAt(bytes, 0 + i) == ws[i]; }
  }

  lemma AcceptedValue(s: string, addr: Octets)
    requires Run(Start(s)).Accept?
    requires var o := Run(Start(s)); |o.pre| + |o.post| <= 8 && WordsOf(addr) == Expand(o.pre, o.post)
    ensures forall t: Tree | IsDerivation(t) && Text(t) == s :: addr == OctetsOf(Denotes(t))
  {
    hide WordsOf, OctetsOf, Run, IsDerivation, Expand, GroupsWords;
    RunIsGrammar(s);
    OctetsRoundTrip(addr);
  }

  /** What a round of the loop decides: go on, leave the loop, or fail. */
  datatype Round = More | Leave | Fail

  /** Handles a colon: the first "::", or a single colon before the next word. */
  method ReadColon(s: string, at: nat, n0: int, b0: int, c0: bool, prev0: nat, bytes: array<Byte>, ghost st: State)
      returns (r: Round, it: nat, n: int, b: int, c: bool, prev: nat, ghost next: State)
    requires bytes.Length == 16 && Tracks(s, at, n0, b0, c0, prev0, bytes[..], st)
    requires at < |s| && s[at] == ':'
    modifies bytes
    ensures it <= |s| && prev <= |s|
    ensures r.More? ==> Step(st) == Continue(next) && Tracks(s, it, n, b, c, prev, bytes[..], next)
    ensures r.Leave? ==> Ended(s, it, n, b, bytes[..], Step(st))
    ensures r.Fail? ==> Step(st) == Reject
  {
    hide Run, Step, TakeWord, TakeDotted, Holds;
    StepAt(s, at, st);
    it, n, b, c, prev, next := at + 1, n0, b0, c0, prev0, st;
    if it == |s| { return Fail, it, n, b, c, prev, next; }
    if s[it] == ':' {
      if b != -1 { return Fail, it, n, b, c, prev, next; }
      it := it + 1;
      n := n - 1;
      b := n;
      if n == 0 { return Leave, it, n, b, c, prev, next; }
      c := false;
      next := Step(st).next;
      return More, it, n, b, c, prev, next;
    }
    if !c { return Fail, it, n, b, c, prev, next; }
    prev := it;
    var ok;
    ok, it, n, next := ReadWord(s, prev, n, b, bytes, st);
    r := if !ok then Fail else if n == 0 then Leave else More;
  }

  /** Handles any other character: an h16 where no colon is needed. */
  method ReadFirstWord(s: string, at: nat, n0: int, b: int, c0: bool, prev0: nat, bytes: array<Byte>, ghost st: State)
      returns (r: Round, it: nat, n: int, c: bool, prev: nat, ghost next: State)
    requires bytes.Length == 16 && Tracks(s, at, n0, b, c0, prev0, bytes[..], st)
    requires at < |s| && s[at] != ':' && s[at] != '.'
    modifies bytes
    ensures it <= |s| && prev <= |s|
    ensures r.More? ==> Step(st) == Continue(next) && Tracks(s, it, n, b, c, prev, bytes[..], next)
    ensures r.Leave? ==> Ended(s, it, n, b, bytes[..], Step(st))
    ensures r.Fail? ==> Step(st) == Reject
  {
    hide Run, Step, TakeWord, TakeDotted, Holds;
    StepAt(s, at, st);
    it, n, c, prev, next := at, n0, c0, prev0, st;
    if b != -1 && !IsHexDigit(s[it]) { return Leave, it, n, c, prev, next; }
    if c { return Fail, it, n, c, prev, next; }
    prev := it;
    var ok;
    ok, it, n, next := ReadWord(s, prev, n, b, bytes, st);
    c := true;
    r := if !ok then Fail else if n == 0 then Leave else More;
  }

  /** At the end of the text: "::" stands for the missing words, or they are missing. */
  lemma AtEnd(s: string, n: int, b: int, c: bool, prev: nat, bytes: seq<Byte>, st: State)
    requires Tracks(s, |s|, n, b, c, prev, bytes, st)
    ensures b != -1 ==> Ended(s, |s|, n, b, bytes, Step(st))
    ensures b == -1 ==> Step(st) == Reject
  {
    hide Run, TakeWord, TakeDotted, Holds, Step;
    StepAt(s, |s|, st);
  }

  /** Accepts exactly the IPv6address texts of RFC 3986, with the sixteen bytes that
      every derivation of the text denotes; leaves the address alone on failure. */
  method ParseIpv6Address(s: string, addr0: Octets) returns (ok: bool, addr: Octets)
    ensures ok <==> IsIpv6Address(s)
    ensures ok ==> forall t: Tree | IsDerivation(t) && Text(t) == s :: addr == OctetsOf(Denotes(t))
    ensures !ok ==> addr == addr0
  {
    hide *;
    ok, addr := false, addr0;
    var it, n, b, c, prev := 0, 8, -1, false, 0;
    var bytes := new Byte[16](i => 0);
    ghost var st := Start(s);
    RunIsGrammar(s);
    StartTracks(s, bytes[..]);
    while true
      invariant 0 <= it <= |s| && 0 <= prev <= |s|
      invariant fresh(bytes) && bytes.Length == 16
      invariant Tracks(s, it, n, b, c, prev, bytes[..], st)
      invariant st.Valid() && Run(st) == Run(Start(s)) && |st.rest| == |s| - it
      decreases |st.rest|
    {
      RunStep(st);
      var round;
      ghost var next;
      if it == |s| {
        AtEnd(s, n, b, c, prev, bytes[..], st);
        if b == -1 { return; }
        round, next := Leave, st;
      } else if s[it] == ':' {
        round, it, n, b, c, prev, next := ReadColon(s, it, n, b, c, prev, bytes, st);
      } else if s[it] == '.' {
        var good;
        good, it, n := ReadDotted(s, it, n, b, c, prev, bytes, st);
        round, next := if good then Leave else Fail, st;
      } else {
        round, it, n, c, prev, next := ReadFirstWord(s, it, n, b, c, prev, bytes, st);
      }
      if round == Fail { return; }
      if round == Leave {
        EndedIsFinal(s, it, n, b, bytes[..], st);
        break;
      }
      TracksRest(s, it, n, b, c, prev, bytes[..], next);
      st := next;
    }
    ghost var o := Run(Start(s));
    assert Ended(s, it, n, b, bytes[..], o);
    EndedFacts(s, it, n, b, bytes[..], o);
    if it != |s| { return; }
    if b == -1 {
      FullWords(bytes[..], o.pre);
    } else {
      ExpandElision(bytes, b, n, o.pre, o.post);
    }
    ok, addr := true, bytes[..];
    AcceptedValue(s, addr);
  }

  lemma EndedIsFinal(s: string, it: nat, n: int, b: int, bytes: seq<Byte>, st: State)
    requires st.Valid() && Ended(s, it, n, b, bytes, Step(st))
    ensures Run(st) == Step(st)
  {
  }

  lemma StartTracks(s: string, bytes: seq<Byte>)
    requires |bytes| == 16
    ensures Tracks(s, 0, 8, -1, false, 0, bytes, Start(s))
    ensures Start(s).Valid() && |Start(s).rest| == |s|
  {
  }

  lemma TracksRest(s: string, it: nat, n: int, b: int, c: bool, prev: nat, bytes: seq<Byte>, st: State)
    requires Tracks(s, it, n, b, c, prev, bytes, st)
    ensures st.Valid() && |st.rest| == |s| - it
  {
  }

  lemma EndedFacts(s: string, it: nat, n: int, b: int, bytes: seq<Byte>, o: Outcome)
    requires Ended(s, it, n, b, bytes, o)
    ensures it < |s| ==> !o.Accept?
    ensures it == |s| ==> o.Accept? && StoredFrom(bytes, 0, o.pre) && |o.pre| + |o.post| <= 8
    ensures it == |s| && b == -1 ==> |o.pre| == 8 && o.post == []
    ensures it == |s| && b != -1 ==>
              && StoredFrom(bytes, |o.pre| + 1, o.post)
              && |o.pre| + |o.post| <= 7 && b == 7 - |o.pre| && n == b - |o.post|
  {
  }
}
