/** Reading up to a delimiter with a resumed scan, and the server loop built on it. The
    socket is a list of read results; when it runs out the coroutine is still suspended. */
module ReadUntil {
  import opened Basics

  /** One completed read: `data` was appended, perhaps together with an error. */
  datatype Chunk = Chunk(data: string, failed: bool)

  datatype Result = Found(end: nat) | Error(size: nat) | Pending

  function Joined(chunks: seq<Chunk>): string {
    if chunks == [] then "" else chunks[0].data + Joined(chunks[1..])
  }

  /** `delim` occurs in `s` at position `i`. */
  predicate At(s: string, delim: string, i: int) {
    0 <= i && i + |delim| <= |s| && s[i..i + |delim|] == delim
  }

  /** `end` is just past the first occurrence. */
  ghost predicate FirstEnd(s: string, delim: string, end: int) {
    At(s, delim, end - |delim|) && forall i | At(s, delim, i) :: end - |delim| <= i
  }

  ghost predicate Absent(s: string, delim: string) { forall i | 0 <= i <= |s| :: !At(s, delim, i) }

  lemma AtPrefix(s: string, t: string, delim: string, i: int)
    requires s <= t && i + |delim| <= |s|
    ensures At(s, delim, i) <==> At(t, delim, i)
  {
    if 0 <= i { assert s[i..i + |delim|] == t[i..i + |delim|]; }
  }

  /** The first occurrence in what has arrived is the first in all that will arrive. */
  lemma FirstEndExtends(s: string, t: string, delim: string, end: int)
    requires s <= t && FirstEnd(s, delim, end)
    ensures FirstEnd(t, delim, end)
  {
    AtPrefix(s, t, delim, end - |delim|);
    forall i | At(t, delim, i) ensures end - |delim| <= i {
      if i < end - |delim| { AtPrefix(s, t, delim, i); }
    }
  }

  lemma FirstEndUnique(s: string, delim: string, a: int, b: int)
    requires FirstEnd(s, delim, a) && FirstEnd(s, delim, b)
    ensures a == b
  {
  }

  lemma FirstEndPresent(s: string, delim: string)
    ensures Absent(s, delim) <==> !exists end :: FirstEnd(s, delim, end)
  {
    if !Absent(s, delim) {
      var i :| 0 <= i <= |s| && At(s, delim, i);
      var j := Earliest(s, delim, i);
    }
  }

  lemma {:induction false} Earliest(s: string, delim: string, i: nat) returns (j: nat)
    requires At(s, delim, i)
    ensures FirstEnd(s, delim, j + |delim|)
  {
    if k :| At(s, delim, k) && k < i { j := Earliest(s, delim, k); } else { j := i; }
  }

  /** The substring search of the standard library, from position `from` on. */
  method Find(s: string, delim: string, from: nat) returns (pos: Option<nat>)
    ensures pos.Some? ==> from <= pos.value && At(s, delim, pos.value)
    ensures pos.Some? ==> forall i | from <= i < pos.value :: !At(s, delim, i)
    ensures pos.None? ==> forall i | from <= i :: !At(s, delim, i)
  {
    var i := from;
    while i + |delim| <= |s|
      invariant from <= i && forall k | from <= k < i :: !At(s, delim, k)
    {
      if s[i..i + |delim|] == delim { return Some(i); }
      i := i + 1;
    }
    return None;
  }

  /** Where the scan resumes: a delimiter cannot start before it and end in new data. */
  function ScanFrom(size: nat, width: nat): nat {
    if size >= width && width > 0 then size - (width - 1) else 0
  }

  lemma NothingBefore(s: string, t: string, delim: string)
    requires Absent(s, delim) && s <= t && delim != ""
    ensures forall i | 0 <= i < ScanFrom(|s|, |delim|) :: !At(t, delim, i)
  {
    forall i | 0 <= i < ScanFrom(|s|, |delim|) ensures !At(t, delim, i) { AtPrefix(s, t, delim, i); }
  }

  lemma JoinedPrefix(chunks: seq<Chunk>, k: nat)
    requires k <= |chunks|
    ensures Joined(chunks[..k]) <= Joined(chunks)
  {
    assert chunks == chunks[..k] + chunks[k..];
    JoinedAppend(chunks[..k], chunks[k..]);
  }

  lemma {:induction false} JoinedTake(chunks: seq<Chunk>, k: nat)
    requires k < |chunks|
    ensures Joined(chunks[..k + 1]) == Joined(chunks[..k]) + chunks[k].data
  {
    if k == 0 {
      assert chunks[..1][1..] == [];
    } else {
      JoinedTake(chunks[1..], k - 1);
      assert chunks[..k + 1][1..] == chunks[1..][..k] && chunks[..k][1..] == chunks[1..][..k - 1];
    }
  }

  /** Reads until `delim` is in `buf`; `used` counts the reads. The end that it finds is the
      first in the whole stream, however the stream was cut into chunks. */
  method ReadUntil(buf0: string, delim: string, chunks: seq<Chunk>) returns (r: Result, buf: string, used: nat)
    ensures used <= |chunks| && buf == buf0 + Joined(chunks[..used])
    ensures forall k | 0 <= k < used - 1 :: !chunks[k].failed
    ensures used > 0 ==> Absent(buf0 + Joined(chunks[..used - 1]), delim)
    ensures r.Found? ==> FirstEnd(buf, delim, r.end) && (used > 0 ==> !chunks[used - 1].failed)
    ensures r.Found? ==> FirstEnd(buf0 + Joined(chunks), delim, r.end)
    ensures r.Error? ==> r.size == |buf| && used > 0 && chunks[used - 1].failed
    ensures r.Pending? ==> used == |chunks| && Absent(buf0 + Joined(chunks), delim)
    ensures r.Pending? && used > 0 ==> !chunks[used - 1].failed
  {
    buf, used := buf0, 0;
    var scanFrom := 0;
    while true
      invariant used <= |chunks| && buf == buf0 + Joined(chunks[..used])
      invariant forall k | 0 <= k < used :: !chunks[k].failed
      invariant used > 0 ==> Absent(buf0 + Joined(chunks[..used - 1]), delim)
      invariant forall i | 0 <= i < scanFrom :: !At(buf, delim, i)
      decreases |chunks| - used
    {
      var pos := Find(buf, delim, scanFrom);
      if pos.Some? {
        JoinedPrefix(chunks, used);
        FirstEndExtends(buf, buf0 + Joined(chunks), delim, pos.value + |delim|);
        return Found(pos.value + |delim|), buf, used;
      }
      scanFrom := ScanFrom(|buf|, |delim|);
      assert Absent(buf, delim);
      assert delim != "" by { if delim == "" { assert At(buf, delim, 0); } }
      if used == |chunks| {
        assert chunks[..used] == chunks;
        return Pending, buf, used;
      }
      var c := chunks[used];
      NothingBefore(buf, buf + c.data, delim);
      JoinedTake(chunks, used);
      buf := buf + c.data;
      used := used + 1;
      if c.failed { return Error(|buf|), buf, used; }
    }
  }

  // ------------------------------------------------------------ the server loop

  const HEADER_END: string := "\r\n\r\n"

  /** How often the delimiter occurs, left to right, without overlap. */
  ghost function Count(s: string, delim: string): nat
    requires delim != ""
    decreases |s|
  {
    if Absent(s, delim) then 0 else
    FirstEndPresent(s, delim);
    var end :| FirstEnd(s, delim, end);
    1 + Count(s[end..], delim)
  }

  lemma CountAt(s: string, delim: string, end: int)
    requires delim != "" && FirstEnd(s, delim, end)
    ensures Count(s, delim) == 1 + Count(s[end..], delim)
  {
    assert !Absent(s, delim);
    forall e | FirstEnd(s, delim, e) ensures e == end { FirstEndUnique(s, delim, e, end); }
  }

  /** How many reads complete before the first that fails. */
  function Clean(chunks: seq<Chunk>): (n: nat)
    ensures n <= |chunks| && (forall k | 0 <= k < n :: !chunks[k].failed) && (n < |chunks| ==> chunks[n].failed)
  {
    if chunks == [] || chunks[0].failed then 0 else 1 + Clean(chunks[1..])
  }

  lemma {:induction false} JoinedAppend(a: seq<Chunk>, b: seq<Chunk>)
    ensures Joined(a + b) == Joined(a) + Joined(b)
  {
    if a == [] {
      assert a + b == b;
    } else {
      assert (a + b)[1..] == a[1..] + b;
      JoinedAppend(a[1..], b);
    }
  }

  /** The stream from position `k` on, in front of it what is buffered. */
  function Ahead(buf: string, chunks: seq<Chunk>, k: nat, n: nat): string
    requires k <= n <= |chunks|
  {
    buf + Joined(chunks[k..n])
  }

  lemma AheadMoves(buf: string, chunks: seq<Chunk>, k: nat, u: nat, n: nat)
    requires k + u <= n <= |chunks|
    ensures Ahead(buf, chunks, k, n) == (buf + Joined(chunks[k..][..u])) + Joined(chunks[k + u..n])
  {
    assert chunks[k..n] == chunks[k..][..u] + chunks[k + u..n];
    JoinedAppend(chunks[k..][..u], chunks[k + u..n]);
  }

  /** One response taken off the front. */
  lemma Responded(buf: string, chunks: seq<Chunk>, k: nat, u: nat, n: nat, delim: string, end: nat)
    requires delim != "" && k + u <= n <= |chunks|
    requires FirstEnd(buf + Joined(chunks[k..][..u]), delim, end)
    ensures var rest := (buf + Joined(chunks[k..][..u]))[end..];
            Count(Ahead(buf, chunks, k, n), delim) == 1 + Count(Ahead(rest, chunks, k + u, n), delim)
  {
    hide Count, Joined;
    AheadMoves(buf, chunks, k, u, n);
    var s, t := buf + Joined(chunks[k..][..u]), Ahead(buf, chunks, k, n);
    FirstEndExtends(s, t, delim, end);
    CountAt(t, delim, end);
    assert t[end..] == s[end..] + Joined(chunks[k + u..n]);
  }

  lemma EndInside(s: string, delim: string, end: int)
    requires delim != "" && FirstEnd(s, delim, end)
    ensures 0 < end <= |s|
  {
  }

  lemma NothingRead(buf: string, chunks: seq<Chunk>, u: nat)
    requires u <= |chunks|
    ensures u == 0 ==> buf + Joined(chunks[..u]) == buf
  {
  }

  lemma NoneLeft(s: string, delim: string)
    requires delim != "" && Absent(s, delim)
    ensures Count(s, delim) == 0
  {
  }

  lemma AheadAll(buf: string, chunks: seq<Chunk>, k: nat, n: nat)
    requires k <= n <= |chunks|
    ensures Ahead(buf, chunks, k, n) == buf + Joined(chunks[k..][..n - k])
  {
    assert chunks[k..n] == chunks[k..][..n - k];
  }

  lemma CleanBound(chunks: seq<Chunk>, k: nat, u: nat)
    requires k <= Clean(chunks) && k + u <= |chunks| && forall j | 0 <= j < u :: !chunks[k..][j].failed
    ensures k + u <= Clean(chunks)
  {
    forall j | k <= j < k + u ensures !chunks[j].failed { assert chunks[j] == chunks[k..][j - k]; }
  }

  lemma CleanEnds(chunks: seq<Chunk>, k: nat, u: nat)
    requires k <= Clean(chunks) && k + u <= |chunks| && forall j | 0 <= j < u :: !chunks[k..][j].failed
    requires k + u < |chunks| ==> chunks[k..][u].failed
    ensures Clean(chunks) == k + u
  {
    CleanBound(chunks, k, u);
  }

  /** Whatever the chunking, the server answers once for each delimiter among the bytes
      read without an error, until a write fails (after `writable` responses). */
  method ServerTask(chunks: seq<Chunk>, writable: nat) returns (responses: nat)
    ensures var asked := Count(Joined(chunks[..Clean(chunks)]), "\r\n\r\n");
            responses == if asked < writable then asked else writable
  {
    hide Count, Joined, FirstEnd, Absent;
    var buf, k := "", 0;
    ghost var n := Clean(chunks);
    assert Ahead(buf, chunks, k, n) == Joined(chunks[..n]) by { assert chunks[0..n] == chunks[..n]; }
    responses := 0;
    while true
      invariant k <= n && responses <= writable
      invariant responses + Count(Ahead(buf, chunks, k, n), HEADER_END) == Count(Joined(chunks[..n]), HEADER_END)
      decreases |chunks| - k, |buf|
    {
      var r, all, u := ReadUntil(buf, HEADER_END, chunks[k..]);
      if !r.Found? {
        CleanEnds(chunks, k, if r.Error? then u - 1 else u);
        assert chunks[k..][..|chunks| - k] == chunks[k..];
        NoneLeft(buf + Joined(chunks[k..][..n - k]), HEADER_END);
        AheadAll(buf, chunks, k, n);
        return;
      }
      CleanBound(chunks, k, u);
      Responded(buf, chunks, k, u, n, HEADER_END, r.end);
      EndInside(all, HEADER_END, r.end);
      NothingRead(buf, chunks[k..], u);
      if responses == writable { return; }
      responses := responses + 1;
      buf, k := all[r.end..], k + u;
    }
  }
}
