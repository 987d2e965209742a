/** The language of IPv6 address texts: IPv6address of section 3.2.2 of RFC 3986,
    and the 128-bit value that a derivation denotes. */
module Ipv6Grammar {
  import opened Basics
  import opened Ipv4Address

  // ------------------------------------------------------------------- groups

  predicate IsHexDigit(c: char) {
    '0' <= c <= '9' || 'a' <= c <= 'f' || 'A' <= c <= 'F'
  }

  function HexValue(c: char): (d: int)
    requires IsHexDigit(c)
    ensures 0 <= d < 16
  {
    if '0' <= c <= '9' then c as int - '0' as int
    else if 'a' <= c <= 'f' then c as int - 'a' as int + 10
    else c as int - 'A' as int + 10
  }

  /** The digits in both cases. */
  lemma HexDigits(d: nat)
    requires d < 16
    ensures IsHexDigit("0123456789abcdef"[d]) && HexValue("0123456789abcdef"[d]) == d
    ensures IsHexDigit("0123456789ABCDEF"[d]) && HexValue("0123456789ABCDEF"[d]) == d
  {
  }

  predicate AllHex(g: string) { forall i | 0 <= i < |g| :: IsHexDigit(g[i]) }

  /** h16 = 1*4HEXDIG */
  predicate IsH16(g: string) { 1 <= |g| <= 4 && AllHex(g) }

  function Power16(k: nat): (p: nat)
    ensures p >= 1
  {
    if k == 0 then 1 else 16 * Power16(k - 1)
  }

  /** The hexadecimal reading of a text. */
  function HexNumber(g: string): (v: nat)
    requires AllHex(g)
    ensures v < Power16(|g|)
  {
    if g == "" then 0 else HexNumber(g[..|g| - 1]) * 16 + HexValue(g[|g| - 1])
  }

  function H16Value(g: string): (w: Word)
    requires IsH16(g)
  {
    assert Power16(4) == 65536;
    PowerMonotone(|g|, 4);
    HexNumber(g)
  }

  lemma {:induction false} PowerMonotone(a: nat, b: nat)
    requires a <= b
    ensures Power16(a) <= Power16(b)
  {
    if a < b { PowerMonotone(a, b - 1); }
  }

  /** The address whose text is `g`. */
  ghost function QuadOf(g: string): (q: Quad)
    requires IsIpv4Address(g)
    ensures Ipv4Text(q) == g
  {
    var q: Quad :| Ipv4Text(q) == g; q
  }

  lemma DottedIsNotHex(g: string)
    requires IsIpv4Address(g)
    ensures !AllHex(g)
  {
    hide OctetText, Ipv4Text, OctetAt;
    OctetInText(QuadOf(g), 0);
  }

  // --------------------------------------------------------------- derivations

  /** Groups before "::", whether "::" stands, groups after it. A group is the text
      of an h16, or of an IPv4address in the place of ls32. */
  datatype Tree = Tree(pre: seq<string>, elided: bool, post: seq<string>)

  predicate AllH16(gs: seq<string>) { forall i | 0 <= i < |gs| :: IsH16(gs[i]) }

  /** m( h16 ":" ) ls32, where ls32 = ( h16 ":" h16 ) / IPv4address */
  ghost predicate EndsInLs32(m: nat, gs: seq<string>) {
    || (|gs| == m + 2 && AllH16(gs))
    || (|gs| == m + 1 && AllH16(gs[..m]) && IsIpv4Address(gs[m]))
  }

  /** The nine alternatives of IPv6address, in the order of RFC 3986. */
  ghost predicate Alternative(k: nat, t: Tree) {
    match k
    case 0 => !t.elided && EndsInLs32(6, t.pre) && t.post == []
    case 1 => Elided(t, 0) && EndsInLs32(5, t.post)
    case 2 => Elided(t, 1) && EndsInLs32(4, t.post)
    case 3 => Elided(t, 2) && EndsInLs32(3, t.post)
    case 4 => Elided(t, 3) && EndsInLs32(2, t.post)
    case 5 => Elided(t, 4) && EndsInLs32(1, t.post)
    case 6 => Elided(t, 5) && EndsInLs32(0, t.post)
    case 7 => Elided(t, 6) && |t.post| == 1 && AllH16(t.post)
    case 8 => Elided(t, 7) && t.post == []
    case _ => false
  }

  /** [ *(m-1)( h16 ":" ) h16 ] "::": at most m groups, then the elision. */
  predicate Elided(t: Tree, m: nat) {
    t.elided && |t.pre| <= m && AllH16(t.pre)
  }

  ghost predicate IsDerivation(t: Tree) {
    exists k :: Alternative(k, t)
  }

  /** Every group after a colon. */
  function Prefixed(gs: seq<string>): string {
    if gs == [] then "" else ":" + gs[0] + Prefixed(gs[1..])
  }

  /** The groups with colons between them. */
  function Join(gs: seq<string>): string {
    if gs == [] then "" else gs[0] + Prefixed(gs[1..])
  }

  function Text(t: Tree): string {
    if t.elided then Join(t.pre) + "::" + Join(t.post) else Join(t.pre)
  }

  ghost predicate IsIpv6Address(s: string) {
    exists t: Tree :: IsDerivation(t) && Text(t) == s
  }

  // -------------------------------------------------------- a compact reading

  /** h16 groups, the last of which may be an IPv4address. */
  ghost predicate IsGroupList(gs: seq<string>) {
    forall i | 0 <= i < |gs| :: IsH16(gs[i]) || (i == |gs| - 1 && IsIpv4Address(gs[i]))
  }

  ghost function Weight(gs: seq<string>): (w: nat)
    ensures gs == [] <==> w == 0
  {
    if gs == [] then 0
    else if IsIpv4Address(gs[|gs| - 1]) then |gs| + 1 else |gs|
  }

  ghost predicate Fits(t: Tree) {
    if t.elided then AllH16(t.pre) && IsGroupList(t.post) && |t.pre| + Weight(t.post) <= 7
    else t.post == [] && IsGroupList(t.pre) && Weight(t.pre) == 8
  }

  lemma Ls32Weight(m: nat, gs: seq<string>)
    ensures EndsInLs32(m, gs) <==> IsGroupList(gs) && Weight(gs) == m + 2
  {
    if gs != [] {
      var l := gs[|gs| - 1];
      if IsIpv4Address(l) { DottedIsNotHex(l); }
      if |gs| == m + 1 { assert gs[..m] + [l] == gs; }
    }
  }

  /** The nine alternatives say: eight words, or at most seven around one "::". */
  lemma DerivationFits(t: Tree)
    ensures IsDerivation(t) <==> Fits(t)
  {
    Ls32Weight(6, t.pre);
    forall m | 0 <= m <= 5 ensures EndsInLs32(m, t.post) <==> IsGroupList(t.post) && Weight(t.post) == m + 2 {
      Ls32Weight(m, t.post);
    }
    assert |t.post| == 1 && AllH16(t.post) <==> IsGroupList(t.post) && Weight(t.post) == 1 by {
      if t.post != [] && IsIpv4Address(t.post[0]) { DottedIsNotHex(t.post[0]); }
    }
    if Fits(t) {
      assert Alternative(if t.elided then 8 - Weight(t.post) else 0, t);
    }
  }

  // -------------------------------------------------------------------- values

  ghost function GroupWords(g: string): (ws: seq<Word>) {
    if IsIpv4Address(g) then
      var q := QuadOf(g); [BigEndian(q[0], q[1]), BigEndian(q[2], q[3])]
    else if IsH16(g) then [H16Value(g)]
    else []
  }

  ghost function GroupsWords(gs: seq<string>): (ws: seq<Word>) {
    if gs == [] then [] else GroupWords(gs[0]) + GroupsWords(gs[1..])
  }

  lemma {:induction false} WeightIsWords(gs: seq<string>)
    requires IsGroupList(gs)
    ensures |GroupsWords(gs)| == Weight(gs)
  {
    if gs != [] {
      assert IsGroupList(gs[1..]);
      WeightIsWords(gs[1..]);
    }
  }

  function Zeros(k: nat): (ws: seq<Word>)
    ensures |ws| == k && forall i | 0 <= i < k :: ws[i] == 0
  {
    seq(k, i => 0)
  }

  /** Leading words, zeros in the place of "::", trailing words. */
  function Expand(pre: seq<Word>, post: seq<Word>): (ws: seq<Word>)
    requires |pre| + |post| <= 8
    ensures |ws| == 8
  {
    pre + Zeros(8 - |pre| - |post|) + post
  }

  type Words8 = ws: seq<Word> | |ws| == 8 witness [0, 0, 0, 0, 0, 0, 0, 0]

  lemma TreeWordsFit(t: Tree)
    requires IsDerivation(t)
    ensures |GroupsWords(t.pre)| + |GroupsWords(t.post)| <= 8
  {
    DerivationFits(t);
    if t.elided {
      assert IsGroupList(t.pre);
      forall i | 0 <= i < |t.pre| ensures !IsIpv4Address(t.pre[i]) {
        if IsIpv4Address(t.pre[i]) { DottedIsNotHex(t.pre[i]); }
      }
    }
    WeightIsWords(t.pre);
    WeightIsWords(t.post);
  }

  /** The value of a derivation, as eight words. */
  ghost function Denotes(t: Tree): (ws: Words8)
    requires IsDerivation(t)
  {
    TreeWordsFit(t);
    Expand(GroupsWords(t.pre), GroupsWords(t.post))
  }

  // ------------------------------------------------------------ sixteen octets

  type Octets = b: seq<Byte> | |b| == 16 witness [0, 0, 0, 0, 0, 0, 0, 0, 0, 0, 0, 0, 0, 0, 0, 0]

  function WordsOf(b: Octets): (ws: Words8) {
    seq(8, i requires 0 <= i < 8 => BigEndian(b[2 * i], b[2 * i + 1]))
  }

  function OctetsOf(ws: Words8): (b: Octets) {
    seq(16, i requires 0 <= i < 16 => if i % 2 == 0 then ws[i / 2] / 256 else ws[i / 2] % 256)
  }

  /** The high byte of each word comes first. */
  lemma HighByteFirst(ws: Words8, i: nat)
    requires i < 8
    ensures OctetsOf(ws)[2 * i] == ws[i] / 256 && OctetsOf(ws)[2 * i + 1] == ws[i] % 256
  {
  }

  lemma OctetsRoundTrip(b: Octets)
    ensures OctetsOf(WordsOf(b)) == b
  {
    forall i | 0 <= i < 16 ensures OctetsOf(WordsOf(b))[i] == b[i] {
      BigEndianSplits(b[i / 2 * 2], b[i / 2 * 2 + 1]);
    }
  }

  lemma WordsRoundTrip(ws: Words8)
    ensures WordsOf(OctetsOf(ws)) == ws
  {
    forall i | 0 <= i < 8 ensures WordsOf(OctetsOf(ws))[i] == ws[i] {
      SplitsRejoin(ws[i]);
    }
  }
}
