/** The ALPN wire form (section 3.1 of RFC 7301) and the server's selection of a
    protocol (section 3.2 of RFC 7301). */
module Alpn {
  import opened Basics

  type Bytes = seq<Byte>

  // ------------------------------------------------------------ the wire form

  /** Names behind their one-byte lengths, one after the other. */
  function Wire(names: seq<Bytes>): (b: Bytes)
    requires forall n | n in names :: |n| <= 255
  {
    if names == [] then [] else [|names[0]|] + names[0] + Wire(names[1..])
  }

  /** No entry starts `b`: it is empty, or cut off before the end of its first entry. */
  predicate CutOff(b: Bytes) {
    |b| == 0 || 1 + b[0] > |b|
  }

  /** `b` is the wire form of `names`, then a remainder that holds no entry. */
  ghost predicate ReadsAs(b: Bytes, names: seq<Bytes>, rest: Bytes) {
    && (forall n | n in names :: |n| <= 255)
    && b == Wire(names) + rest
    && CutOff(rest)
  }

  /** The entries of the well-formed prefix. */
  function Offered(b: Bytes): (names: seq<Bytes>)
    ensures forall n | n in names :: |n| <= 255
  {
    if CutOff(b) then [] else [b[1..1 + b[0]]] + Offered(b[1 + b[0]..])
  }

  /** Every input has exactly one reading. */
  lemma {:induction false} OfferedReads(b: Bytes) returns (rest: Bytes)
    ensures ReadsAs(b, Offered(b), rest)
  {
    rest := b;
    if CutOff(b) {
      assert b == [] + b;
    } else {
      rest := OfferedReads(b[1 + b[0]..]);
      ReadsCons(b, Offered(b[1 + b[0]..]), rest);
    }
  }

  lemma ReadsCons(b: Bytes, names: seq<Bytes>, rest: Bytes)
    requires !CutOff(b) && ReadsAs(b[1 + b[0]..], names, rest)
    ensures ReadsAs(b, [b[1..1 + b[0]]] + names, rest)
  {
    var n, all := b[1..1 + b[0]], [b[1..1 + b[0]]] + names;
    hide CutOff;
    assert all[0] == n && all[1..] == names;
    assert b == ([b[0]] + n + Wire(names)) + rest;
  }

  lemma {:induction false} ReadingIsUnique(b: Bytes, names: seq<Bytes>, rest: Bytes)
    requires ReadsAs(b, names, rest)
    ensures names == Offered(b)
    decreases |names|
  {
    if names == [] {
      assert b == rest;
    } else {
      var n := |names[0]|;
      var tail := Wire(names[1..]) + rest;
      assert b == [n] + names[0] + tail;
      assert b[0] == n && b[1..1 + n] == names[0] && b[1 + n..] == tail;
      ReadingIsUnique(tail, names[1..], rest);
    }
  }

  lemma {:induction false} WireAppend(a: seq<Bytes>, n: Bytes)
    requires (forall m | m in a :: |m| <= 255) && |n| <= 255
    ensures Wire(a + [n]) == Wire(a) + [|n|] + n
  {
    if a == [] {
      assert [n][1..] == [];
      assert Wire([n]) == [|n|] + n + [];
      assert a + [n] == [n];
    } else {
      WireAppend(a[1..], n);
      assert (a + [n])[0] == a[0] && (a + [n])[1..] == a[1..] + [n];
      Associates([|a[0]|] + a[0], Wire(a[1..]), [|n|], n);
    }
  }

  lemma Associates(a: Bytes, b: Bytes, c: Bytes, d: Bytes)
    ensures a + (b + c + d) == (a + b) + c + d
  {
  }

  predicate IsOfferable(n: Bytes) { 1 <= |n| <= 255 }

  /** The protocols that the wire form can carry, in order. */
  function Offerable(protocols: seq<Bytes>): (r: seq<Bytes>)
    ensures forall n | n in r :: IsOfferable(n) && n in protocols
    ensures forall n | n in protocols && IsOfferable(n) :: n in r
  {
    if protocols == [] then []
    else if IsOfferable(protocols[0]) then [protocols[0]] + Offerable(protocols[1..])
    else Offerable(protocols[1..])
  }

  lemma {:induction false} OfferableAppend(a: seq<Bytes>, n: Bytes)
    ensures Offerable(a + [n]) == if IsOfferable(n) then Offerable(a) + [n] else Offerable(a)
  {
    if a == [] {
      assert [n][1..] == [] && a + [n] == [n];
    } else {
      assert (a + [n])[1..] == a[1..] + [n];
      OfferableAppend(a[1..], n);
    }
  }

  /** Offering keeps the order, and of one protocol it drops nothing but what is empty or
      too long. */
  lemma {:induction false} OfferableOrder(a: seq<Bytes>, b: seq<Bytes>)
    ensures Offerable(a + b) == Offerable(a) + Offerable(b)
    ensures |a| == 1 ==> Offerable(a) == if 1 <= |a[0]| <= 255 then a else []
  {
    if a == [] {
      assert a + b == b;
    } else {
      assert (a + b)[1..] == a[1..] + b;
      OfferableOrder(a[1..], b);
      assert |a| == 1 ==> a[1..] == [] && a == [a[0]];
    }
  }

  /** Encodes a protocol list. Decoding gives back the protocols of 1 to 255 bytes. */
  method BuildAlpnWire(protocols: seq<Bytes>) returns (wire: Bytes)
    ensures wire == Wire(Offerable(protocols))
    ensures Offered(wire) == Offerable(protocols)
    ensures forall n :: n in Offered(wire) <==> n in protocols && 1 <= |n| <= 255
    ensures wire == [] <==> forall n | n in protocols :: !(1 <= |n| <= 255)
  {
    wire := [];
    assert Encoded(protocols[..0]) == [];
    hide Encoded, Offered;
    for k := 0 to |protocols|
      invariant wire == Encoded(protocols[..k])
    {
      var p := protocols[k];
      OfferOne(protocols, k);
      if |p| == 0 || |p| > 255 { continue; }
      wire := wire + [|p|];
      wire := wire + p;
    }
    assert protocols[..|protocols|] == protocols;
    EncodedReads(protocols);
  }

  function Encoded(protocols: seq<Bytes>): Bytes { Wire(Offerable(protocols)) }

  lemma OfferOne(protocols: seq<Bytes>, k: nat)
    requires k < |protocols|
    ensures var p := protocols[k];
            Encoded(protocols[..k + 1]) ==
            if IsOfferable(p) then Encoded(protocols[..k]) + [|p|] + p else Encoded(protocols[..k])
  {
    hide Wire, Offerable;
    var p := protocols[k];
    assert protocols[..k + 1] == protocols[..k] + [p];
    OfferableAppend(protocols[..k], p);
    if IsOfferable(p) { WireAppend(Offerable(protocols[..k]), p); }
  }

  lemma EncodedReads(protocols: seq<Bytes>)
    ensures Encoded(protocols) == Wire(Offerable(protocols))
    ensures Offered(Encoded(protocols)) == Offerable(protocols)
    ensures Encoded(protocols) == [] <==> forall n | n in protocols :: !(1 <= |n| <= 255)
    ensures forall n :: n in Offerable(protocols) <==> n in protocols && 1 <= |n| <= 255
  {
    WholeOffer(Offerable(protocols));
    NothingOffered(protocols);
  }

  /** A wire form reads back as its names, with nothing left. */
  lemma WholeOffer(names: seq<Bytes>)
    requires forall n | n in names :: |n| <= 255
    ensures Offered(Wire(names)) == names
  {
    hide Wire, Offered;
    assert Wire(names) == Wire(names) + [];
    ReadingIsUnique(Wire(names), names, []);
  }

  lemma NothingOffered(protocols: seq<Bytes>)
    ensures Wire(Offerable(protocols)) == [] <==> forall n | n in protocols :: !(1 <= |n| <= 255)
  {
    assert Wire(Offerable(protocols)) == [] <==> Offerable(protocols) == [];
    hide Wire;
    if Offerable(protocols) != [] { assert Offerable(protocols)[0] in protocols; }
  }

  // -------------------------------------------------------------- selection

  datatype Selection = NoAck | Selected(offset: nat, length: nat) | AlertFatal

  /** `k` is the most preferred protocol that is on offer. */
  predicate Best(prefs: seq<Bytes>, names: seq<Bytes>, k: int) {
    0 <= k < |prefs| && prefs[k] in names && forall j | 0 <= j < k :: prefs[j] !in names
  }

  /** Entry `j` of the offer starts, behind its length, at `offset`. */
  ghost predicate EntryAt(b: Bytes, j: int, offset: nat) {
    0 <= j < |Offered(b)| && offset == |Wire(Offered(b)[..j])| + 1
  }

  /** What the selection means, for any input bytes: a slice of the input, the first
      entry that equals the most preferred protocol on offer. */
  ghost predicate IsSelection(prefs: seq<Bytes>, b: Bytes, r: Selection) {
    match r
    case NoAck => prefs == []
    case AlertFatal => prefs != [] && forall p | p in prefs :: p !in Offered(b)
    case Selected(offset, length) =>
      && offset + length <= |b| && length <= 255
      && (exists k :: Best(prefs, Offered(b), k) && b[offset..offset + length] == prefs[k])
      && (exists j :: EntryAt(b, j, offset) && Offered(b)[j] == b[offset..offset + length] &&
                      b[offset..offset + length] !in Offered(b)[..j])
  }

  /** The entries before position `i`, and what is left from there. */
  ghost predicate ScannedTo(b: Bytes, i: nat, before: seq<Bytes>) {
    && i <= |b|
    && (forall n | n in before :: |n| <= 255)
    && Offered(b) == before + Offered(b[i..])
    && i == |Wire(before)|
  }

  lemma OfferedAt(b: Bytes, i: nat)
    requires i < |b| && i + 1 + b[i] <= |b|
    ensures Offered(b[i..]) == [b[i + 1..i + 1 + b[i]]] + Offered(b[i + 1 + b[i]..])
  {
    var c := b[i..];
    assert c[0] == b[i] && c[1..1 + c[0]] == b[i + 1..i + 1 + b[i]] && c[1 + c[0]..] == b[i + 1 + b[i]..];
  }

  lemma Advance(b: Bytes, i: nat, before: seq<Bytes>)
    requires ScannedTo(b, i, before) && i < |b| && i + 1 + b[i] <= |b|
    ensures var n := b[i + 1..i + 1 + b[i]];
            ScannedTo(b, i + 1 + b[i], before + [n]) && EntryAt(b, |before|, i + 1)
            && Offered(b)[|before|] == n && Offered(b)[..|before|] == before
  {
    hide Offered, Wire;
    var n, rest := b[i + 1..i + 1 + b[i]], Offered(b[i + 1 + b[i]..]);
    OfferedAt(b, i);
    assert before + ([n] + rest) == (before + [n]) + rest;
    WireAppend(before, n);
    assert Offered(b)[..|before|] == before;
  }

  lemma ScanEnds(b: Bytes, i: nat, before: seq<Bytes>)
    requires ScannedTo(b, i, before) && (i < |b| ==> i + 1 + b[i] > |b|)
    ensures Offered(b) == before
  {
    assert CutOff(b[i..]);
  }

  lemma ScanStarts(b: Bytes)
    ensures ScannedTo(b, 0, [])
  {
    assert b[0..] == b;
  }

  /** The entry at position `i` is the first that equals `pref`. */
  lemma Matches(b: Bytes, i: nat, before: seq<Bytes>, pref: Bytes)
    requires ScannedTo(b, i, before) && pref !in before && i < |b| && i + 1 + b[i] <= |b|
    requires b[i + 1..i + 1 + b[i]] == pref
    ensures pref in Offered(b)
    ensures exists j :: EntryAt(b, j, i + 1) && Offered(b)[j] == pref && pref !in Offered(b)[..j]
  {
    hide ScannedTo, Offered, Wire;
    Advance(b, i, before);
    assert Offered(b)[|before|] == pref;
  }

  lemma NextEntry(b: Bytes, i: nat, before: seq<Bytes>)
    requires ScannedTo(b, i, before) && i < |b| && i + 1 + b[i] <= |b|
    ensures ScannedTo(b, i + 1 + b[i], before + [b[i + 1..i + 1 + b[i]]])
  {
    Advance(b, i, before);
  }

  /** Looks for one preference among the client's entries. */
  method FindEntry(pref: Bytes, b: Bytes) returns (found: bool, offset: nat)
    ensures found <==> pref in Offered(b)
    ensures found ==> offset + |pref| <= |b| && |pref| <= 255 && b[offset..offset + |pref|] == pref
    ensures found ==> exists j :: EntryAt(b, j, offset) && Offered(b)[j] == pref && pref !in Offered(b)[..j]
  {
    hide ScannedTo, Offered, Wire, EntryAt;
    var i := 0;
    ghost var before: seq<Bytes> := [];
    ScanStarts(b);
    while i + 1 <= |b|
      invariant i <= |b| && ScannedTo(b, i, before) && pref !in before
      decreases |b| - i
    {
      var len := b[i];
      if i + 1 + len > |b| { break; }
      if len == |pref| && b[i + 1..i + 1 + len] == pref {
        Matches(b, i, before, pref);
        return true, i + 1;
      }
      NextEntry(b, i, before);
      before := before + [b[i + 1..i + 1 + len]];
      i := i + 1 + len;
    }
    ScanEnds(b, i, before);
    return false, 0;
  }

  /** The server's callback. */
  method AlpnSelect(prefs: seq<Bytes>, b: Bytes) returns (r: Selection)
    ensures IsSelection(prefs, b, r)
  {
    if prefs == [] { return NoAck; }
    for k := 0 to |prefs|
      invariant forall j | 0 <= j < k :: prefs[j] !in Offered(b)
    {
      var found, offset := FindEntry(prefs[k], b);
      if found {
        assert Best(prefs, Offered(b), k);
        return Selected(offset, |prefs[k]|);
      }
    }
    return AlertFatal;
  }

  lemma BestIsUnique(prefs: seq<Bytes>, names: seq<Bytes>, k: int, k': int)
    requires Best(prefs, names, k) && Best(prefs, names, k')
    ensures k == k'
  {
    assert !(k < k') && !(k' < k);
  }

  /** A client's offer reaches the server whole: what the server selects from the encoded
      list is its first preference that the client can offer, and it refuses exactly when
      the two lists have no offerable protocol in common. */
  lemma Negotiation(protocols: seq<Bytes>, prefs: seq<Bytes>, r: Selection)
    requires prefs != [] && IsSelection(prefs, Wire(Offerable(protocols)), r)
    ensures r.AlertFatal? <==> forall p | p in prefs && IsOfferable(p) :: p !in protocols
    ensures r.Selected? ==> r.offset + r.length <= |Wire(Offerable(protocols))|
    ensures forall k | Best(prefs, Offerable(protocols), k) ::
              r.Selected? && Wire(Offerable(protocols))[r.offset..r.offset + r.length] == prefs[k]
  {
    hide Wire, Offered, Offerable;
    var b := Wire(Offerable(protocols));
    WholeOffer(Offerable(protocols));
    if r.Selected? {
      var k :| Best(prefs, Offered(b), k) && b[r.offset..r.offset + r.length] == prefs[k];
      assert prefs[k] in prefs && prefs[k] in protocols && IsOfferable(prefs[k]);
      forall j | Best(prefs, Offerable(protocols), j) ensures j == k { BestIsUnique(prefs, Offered(b), j, k); }
    } else {
      forall j | 0 <= j < |prefs| ensures prefs[j] !in Offerable(protocols) { assert prefs[j] in prefs; }
    }
  }
}
