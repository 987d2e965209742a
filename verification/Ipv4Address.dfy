/** IPv4 addresses as four octets and as one 32-bit number, their dotted text,
    and the parser and printer of that text. */
module Ipv4Address {
  import opened Basics

  /** Octets in network order. */
  type Quad = q: seq<Byte> | |q| == 4 witness [0, 0, 0, 0]

  const MAX_STR_LEN := 15

  // ---------------------------------------------------------------- packing

  type Uint32 = u: int | 0 <= u < 0x1_0000_0000

  /** The number whose big-endian octets are `q`: the four shifted octets fill
      disjoint bits, so their bitwise or is this sum. */
  function FromBytes(q: Quad): (u: Uint32) {
    BigEndian(BigEndian(BigEndian(q[0], q[1]), q[2]), q[3])
  }

  function Weighted(a: int, b: int, c: int, d: int): int { a * 0x100_0000 + b * 0x1_0000 + c * 0x100 + d }

  /** The first octet is the most significant. */
  lemma NetworkOrder(q: Quad)
    ensures FromBytes(q) == Weighted(q[0], q[1], q[2], q[3])
  {
  }

  /** Shift right by 24, 16, 8 and 0 and keep the low eight bits. */
  function ToBytes(u: Uint32): (q: Quad) {
    [u / 0x100_0000 % 256, u / 0x1_0000 % 256, u / 0x100 % 256, u % 256]
  }

  lemma NestedShifts(u: nat)
    ensures u / 0x1_0000 == u / 256 / 256
    ensures u / 0x100_0000 == u / 256 / 256 / 256
  {
  }

  lemma BigEndianSplits(hi: nat, lo: Byte)
    ensures BigEndian(hi, lo) / 256 == hi && BigEndian(hi, lo) % 256 == lo
  {
  }

  lemma PackUnpack(q: Quad)
    ensures ToBytes(FromBytes(q)) == q
  {
    NestedShifts(FromBytes(q));
    BigEndianSplits(0, q[0]);
    BigEndianSplits(q[0], q[1]);
    BigEndianSplits(BigEndian(q[0], q[1]), q[2]);
    BigEndianSplits(BigEndian(BigEndian(q[0], q[1]), q[2]), q[3]);
  }

  lemma SplitsRejoin(u: nat)
    ensures BigEndian(u / 256, u % 256) == u
  {
  }

  lemma UnpackPack(u: Uint32)
    ensures FromBytes(ToBytes(u)) == u
  {
    NestedShifts(u);
    SplitsRejoin(u);
    SplitsRejoin(u / 256);
    SplitsRejoin(u / 256 / 256);
    assert u / 256 / 256 / 256 % 256 == u / 256 / 256 / 256;
    hide BigEndian;
  }

  // ------------------------------------------------- the grammar of RFC 3986

  /** dec-octet of section 3.2.2 of RFC 3986, alternative by alternative. */
  predicate IsDecOctet(t: string) {
    || (|t| == 1 && IsDigit(t[0]))
    || (|t| == 2 && '1' <= t[0] <= '9' && IsDigit(t[1]))
    || (|t| == 3 && t[0] == '1' && IsDigit(t[1]) && IsDigit(t[2]))
    || (|t| == 3 && t[0] == '2' && '0' <= t[1] <= '4' && IsDigit(t[2]))
    || (|t| == 3 && t[0] == '2' && t[1] == '5' && '0' <= t[2] <= '5')
  }

  /** The decimal text of an octet, without leading zeros. */
  function OctetText(v: Byte): (t: string)
    ensures 1 <= |t| <= 3 && forall i | 0 <= i < |t| :: IsDigit(t[i])
    ensures IsDecOctet(t)
  {
    if v >= 100 then [DigitChar(v / 100), DigitChar(v % 100 / 10), DigitChar(v % 10)]
    else if v >= 10 then [DigitChar(v / 10), DigitChar(v % 10)]
    else [DigitChar(v)]
  }

  /** The decimal reading of a dec-octet. */
  function OctetValue(t: string): (v: Byte)
    requires IsDecOctet(t)
  {
    if |t| == 1 then DigitValue(t[0])
    else if |t| == 2 then DigitValue(t[0]) * 10 + DigitValue(t[1])
    else DigitValue(t[0]) * 100 + DigitValue(t[1]) * 10 + DigitValue(t[2])
  }

  lemma DigitBack(c: char)
    requires IsDigit(c)
    ensures DigitChar(DigitValue(c)) == c
  {
  }

  /** The digits of a number written with two or three. */
  lemma Digits(a: int, b: int, c: int)
    requires 0 <= a < 10 && 0 <= b < 10 && 0 <= c < 10
    ensures (a * 10 + b) / 10 == a && (a * 10 + b) % 10 == b
    ensures var v := a * 100 + b * 10 + c; v / 100 == a && v % 100 == b * 10 + c && v % 10 == c
  {
  }

  lemma OctetTextOfValue(t: string)
    requires IsDecOctet(t)
    ensures OctetText(OctetValue(t)) == t
  {
    hide DigitChar, DigitValue;
    DigitBack(t[0]);
    var a := DigitValue(t[0]);
    if |t| == 1 {
      assert t == [t[0]];
    } else if |t| == 2 {
      LeadingDigit(t[0]);
      DigitBack(t[1]);
      Digits(a, DigitValue(t[1]), 0);
      assert t == [t[0], t[1]];
    } else {
      LeadingDigit(t[0]);
      DigitBack(t[1]);
      DigitBack(t[2]);
      Digits(a, DigitValue(t[1]), DigitValue(t[2]));
      Digits(DigitValue(t[1]), DigitValue(t[2]), 0);
      assert t == [t[0], t[1], t[2]];
    }
  }

  lemma LeadingDigit(c: char)
    requires IsDigit(c) && c != '0'
    ensures DigitValue(c) >= 1
  {
  }

  lemma OctetValueOfText(v: Byte)
    ensures OctetValue(OctetText(v)) == v
  {
  }

  /** IPv4address = dec-octet "." dec-octet "." dec-octet "." dec-octet */
  function Ipv4Text(q: Quad): (t: string)
    ensures 7 <= |t| <= MAX_STR_LEN
  {
    OctetText(q[0]) + "." + OctetText(q[1]) + "." + OctetText(q[2]) + "." + OctetText(q[3])
  }

  ghost predicate IsIpv4Address(s: string) {
    exists q: Quad :: Ipv4Text(q) == s
  }

  /** The grammar is the set of printed texts: four dec-octets with dots between
      them are an address text, and every address text splits so. */
  lemma GrammarIsPrintedTexts(s: string)
    ensures IsIpv4Address(s) <==>
            exists a, b, c, d :: IsDecOctet(a) && IsDecOctet(b) && IsDecOctet(c) && IsDecOctet(d) &&
                                 s == a + "." + b + "." + c + "." + d
  {
    hide OctetText, IsDecOctet, OctetValue;
    if IsIpv4Address(s) {
      var q: Quad :| Ipv4Text(q) == s;
      var a, b, c, d := OctetText(q[0]), OctetText(q[1]), OctetText(q[2]), OctetText(q[3]);
      assert s == a + "." + b + "." + c + "." + d;
    }
    if a, b, c, d :| IsDecOctet(a) && IsDecOctet(b) && IsDecOctet(c) && IsDecOctet(d) &&
                     s == a + "." + b + "." + c + "." + d {
      OctetTextOfValue(a); OctetTextOfValue(b); OctetTextOfValue(c); OctetTextOfValue(d);
      var q: Quad := [OctetValue(a), OctetValue(b), OctetValue(c), OctetValue(d)];
      assert Ipv4Text(q) == s;
    }
  }

  // ------------------------------------------------------------- reading octets

  /** The octet `v` is written at position `i`, and no digit follows it. */
  predicate OctetAt(s: string, i: nat, v: Byte) {
    var e := i + |OctetText(v)|;
    e <= |s| && s[i..e] == OctetText(v) && !DigitAt(s, e)
  }

  lemma OctetAtDigits(s: string, i: nat, v: Byte)
    requires OctetAt(s, i, v)
    ensures forall j | i <= j < i + |OctetText(v)| :: DigitAt(s, j)
  {
    var e := i + |OctetText(v)|;
    forall j | i <= j < e ensures DigitAt(s, j) { assert s[j] == s[i..e][j - i]; }
  }

  lemma OctetAtUnique(s: string, i: nat, v: Byte, w: Byte)
    requires OctetAt(s, i, v) && OctetAt(s, i, w)
    ensures v == w
  {
    OctetAtDigits(s, i, v);
    OctetAtDigits(s, i, w);
    assert |OctetText(v)| == |OctetText(w)|;
    OctetValueOfText(v);
    OctetValueOfText(w);
  }

  /** A dec-octet with no digit after it is an octet that stands there. */
  lemma Recognised(s: string, i: nat, e: nat)
    requires i <= e <= |s| && IsDecOctet(s[i..e]) && !DigitAt(s, e)
    ensures OctetAt(s, i, OctetValue(s[i..e])) && s[i..e] == OctetText(OctetValue(s[i..e]))
  {
    OctetTextOfValue(s[i..e]);
  }

  /** Where digits stand from `i` to `e` and none at `e`, only the text between
      can be an octet. */
  lemma OnlyCandidate(s: string, i: nat, e: nat, v: Byte)
    requires i <= e <= |s| && !DigitAt(s, e) && forall j | i <= j < e :: DigitAt(s, j)
    requires OctetAt(s, i, v)
    ensures IsDecOctet(s[i..e])
  {
    OctetAtDigits(s, i, v);
    assert e == i + |OctetText(v)|;
  }

  lemma NoOctet(s: string, i: nat, e: nat)
    requires i <= e <= |s| && forall j | i <= j < e :: DigitAt(s, j)
    requires if DigitAt(s, e) then e >= i + 3 || (e > i && s[i] == '0') else !IsDecOctet(s[i..e])
    ensures forall v: Byte :: !OctetAt(s, i, v)
  {
    forall v: Byte ensures !OctetAt(s, i, v) {
      var t := OctetText(v);
      if !DigitAt(s, e) {
        if OctetAt(s, i, v) { OnlyCandidate(s, i, e, v); }
      } else if i + |t| <= e {
        assert i + |t| <= |s| ==> DigitAt(s, i + |t|);
      } else if i + |t| <= |s| {
        assert s[i..i + |t|][0] == s[i];
      }
    }
  }

  /** Reads one decimal octet at `it`; fails exactly when no octet stands there. */
  method ParseDecOctet(s: string, it: nat) returns (ok: bool, next: nat, octet: Byte)
    requires it <= |s|
    ensures ok ==> OctetAt(s, it, octet) && it < next <= |s| && s[it..next] == OctetText(octet)
    ensures !ok ==> forall v: Byte :: !OctetAt(s, it, v)
  {
    hide OctetText, OctetAt;
    ok, next, octet := false, it, 0;
    if it == |s| || !IsDigit(s[it]) {
      NoOctet(s, it, it);
      return;
    }
    var v := DigitValue(s[it]);
    next := it + 1;
    if v == 0 {
      if DigitAt(s, next) {
        NoOctet(s, it, next);
        return;
      }
      Recognised(s, it, next);
      return true, next, 0;
    }
    if DigitAt(s, next) {
      v := v * 10 + DigitValue(s[next]);
      next := next + 1;
      if DigitAt(s, next) {
        v := v * 10 + DigitValue(s[next]);
        next := next + 1;
        if DigitAt(s, next) {
          NoOctet(s, it, next);
          return;
        }
      }
    }
    if v > 255 {
      NoOctet(s, it, next);
      return;
    }
    Recognised(s, it, next);
    ok, octet := true, v;
  }

  // ------------------------------------------------------------------- parser

  /** The text of the first octets, each followed by a dot. */
  function Dotted(q: seq<Byte>): string {
    if q == [] then "" else Dotted(q[..|q| - 1]) + OctetText(q[|q| - 1]) + "."
  }

  lemma Ipv4TextIsDotted(q: Quad)
    ensures Dotted(q[..0]) == ""
    ensures Ipv4Text(q) == Dotted(q[..3]) + OctetText(q[3])
    ensures forall k | 0 <= k < 3 :: Dotted(q[..k + 1]) == Dotted(q[..k]) + OctetText(q[k]) + "."
  {
    forall k | 0 <= k < 3 ensures Dotted(q[..k + 1]) == Dotted(q[..k]) + OctetText(q[k]) + "." {
      assert q[..k + 1][..k] == q[..k];
    }
    assert Dotted(q[..1]) == OctetText(q[0]) + ".";
    assert Dotted(q[..2]) == OctetText(q[0]) + "." + OctetText(q[1]) + ".";
    assert Dotted(q[..3]) == OctetText(q[0]) + "." + OctetText(q[1]) + "." + OctetText(q[2]) + ".";
  }

  /** What follows octet k: the later octets, each after a dot. */
  function AfterOctet(q: Quad, k: nat): (t: string)
    requires k < 4
    ensures k == 3 ==> t == ""
    ensures k < 3 ==> |t| > 0 && t[0] == '.'
    decreases 4 - k
  {
    if k == 3 then "" else "." + (OctetText(q[k + 1]) + AfterOctet(q, k + 1))
  }

  lemma {:induction false} TextAroundOctet(q: Quad, k: nat)
    requires k < 4
    ensures Ipv4Text(q) == Dotted(q[..k]) + OctetText(q[k]) + AfterOctet(q, k)
    decreases 4 - k
  {
    hide OctetText;
    Ipv4TextIsDotted(q);
    if k < 3 {
      hide Ipv4Text, Dotted;
      TextAroundOctet(q, k + 1);
      Regroup(Dotted(q[..k]) + OctetText(q[k]), ".", OctetText(q[k + 1]) + AfterOctet(q, k + 1));
      Regroup(Dotted(q[..k]) + OctetText(q[k]) + ".", OctetText(q[k + 1]), AfterOctet(q, k + 1));
    }
  }

  lemma Regroup(a: string, b: string, c: string)
    ensures a + (b + c) == (a + b) + c
  {
  }

  lemma OctetAtSplit(p: string, v: Byte, rest: string)
    requires rest == "" || rest[0] == '.'
    ensures OctetAt(p + OctetText(v) + rest, |p|, v)
  {
    hide OctetText;
    var s, e := p + OctetText(v) + rest, |p| + |OctetText(v)|;
    assert s[|p|..e] == OctetText(v);
    assert rest != "" ==> s[e] == '.';
  }

  /** In an address text, octet k stands after the dotted octets before it, and a
      dot (or the end) stands after octet k. */
  lemma OctetInText(q: Quad, k: nat)
    requires k < 4
    ensures var i, e := |Dotted(q[..k])|, |Dotted(q[..k])| + |OctetText(q[k])|;
            && OctetAt(Ipv4Text(q), i, q[k])
            && (k == 3 ==> e == |Ipv4Text(q)|)
            && (k < 3 ==> e < |Ipv4Text(q)| && Ipv4Text(q)[e] == '.' && e + 1 == |Dotted(q[..k + 1])|)
  {
    hide OctetText, Ipv4Text, Dotted, OctetAt, AfterOctet;
    TextAroundOctet(q, k);
    OctetAtSplit(Dotted(q[..k]), q[k], AfterOctet(q, k));
    Ipv4TextIsDotted(q);
  }

  /** `octets` have been read up to `it`, and any address whose text is `s` starts
      with them. */
  ghost predicate HasRead(s: string, it: nat, octets: seq<Byte>) {
    && 1 <= |octets| <= 4 && it <= |s|
    && s[..it] == Dotted(octets[..|octets| - 1]) + OctetText(octets[|octets| - 1])
    && forall q: Quad | Ipv4Text(q) == s :: q[..|octets|] == octets
  }

  lemma StartsWithOctet(s: string)
    requires IsIpv4Address(s)
    ensures exists v: Byte :: OctetAt(s, 0, v)
  {
    var q: Quad :| Ipv4Text(q) == s;
    OctetInText(q, 0);
  }

  lemma ReadFirst(s: string, it: nat, v: Byte)
    requires it <= |s| && OctetAt(s, 0, v) && s[..it] == OctetText(v)
    ensures HasRead(s, it, [v])
  {
    hide OctetText, OctetAt, Ipv4Text;
    assert Dotted([v][..0]) + OctetText(v) == OctetText(v);
    forall q: Quad | Ipv4Text(q) == s ensures q[..1] == [v] {
      OctetInText(q, 0);
      OctetAtUnique(s, 0, v, q[0]);
    }
  }

  /** In an address text, fewer than four octets are followed by a dot and one more. */
  lemma ContinuesWithOctet(s: string, it: nat, octets: seq<Byte>, q: Quad)
    requires HasRead(s, it, octets) && |octets| < 4 && Ipv4Text(q) == s
    ensures it < |s| && s[it] == '.' && OctetAt(s, it + 1, q[|octets|])
  {
    hide OctetText, OctetAt, Ipv4Text;
    var i := |octets|;
    assert q[..i - 1] == octets[..i - 1] && q[i - 1] == octets[i - 1] by { assert q[..i] == octets; }
    OctetInText(q, i - 1);
    OctetInText(q, i);
  }

  lemma ReadNext(s: string, it: nat, octets: seq<Byte>, next: nat, v: Byte)
    requires HasRead(s, it, octets) && |octets| < 4 && it + 1 < next <= |s| && s[it] == '.'
    requires OctetAt(s, it + 1, v) && s[it + 1..next] == OctetText(v)
    ensures HasRead(s, next, octets + [v])
  {
    hide OctetText, OctetAt, Ipv4Text;
    var more := octets + [v];
    assert more[..|octets|] == octets;
    assert s[..next] == s[..it] + "." + s[it + 1..next];
    forall q: Quad | Ipv4Text(q) == s ensures q[..|more|] == more {
      ContinuesWithOctet(s, it, octets, q);
      OctetAtUnique(s, it + 1, v, q[|octets|]);
      assert q[..|octets|] == octets;
    }
  }

  lemma ReadAll(s: string, it: nat, q: Quad)
    requires HasRead(s, it, q)
    ensures it == |s| <==> IsIpv4Address(s)
    ensures it == |s| ==> Ipv4Text(q) == s
  {
    hide OctetText;
    Ipv4TextIsDotted(q);
    assert it == |s| ==> s[..it] == s;
    forall p: Quad | Ipv4Text(p) == s ensures it == |s| {
      assert p[..4] == p && q[..3] == p[..3];
    }
  }

  /** The whole string is consumed, so it is accepted exactly when it is the text
      of an address, and the address is the one it is the text of. */
  method ParseIpv4Address(s: string, addr0: Uint32) returns (ok: bool, addr: Uint32)
    ensures ok <==> IsIpv4Address(s)
    ensures ok ==> Ipv4Text(ToBytes(addr)) == s
    ensures ok ==> forall q: Quad | Ipv4Text(q) == s ::
              addr == Weighted(q[0], q[1], q[2], q[3])
    ensures !ok ==> addr == addr0
  {
    hide OctetText, OctetAt, Ipv4Text, ToBytes, FromBytes, HasRead, Weighted;
    ok, addr := false, addr0;
    var good, it, octet := ParseDecOctet(s, 0);
    if !good {
      if IsIpv4Address(s) { StartsWithOctet(s); }
      return;
    }
    var octets: seq<Byte> := [octet];
    ReadFirst(s, it, octet);
    for i := 1 to 4
      invariant |octets| == i && 0 <= it <= |s| && HasRead(s, it, octets)
    {
      forall q: Quad | Ipv4Text(q) == s
        ensures it < |s| && s[it] == '.' && OctetAt(s, it + 1, q[i])
      {
        ContinuesWithOctet(s, it, octets, q);
      }
      if it == |s| || s[it] != '.' { return; }
      var next;
      good, next, octet := ParseDecOctet(s, it + 1);
      if !good { return; }
      ReadNext(s, it, octets, next, octet);
      octets, it := octets + [octet], next;
    }
    ReadAll(s, it, octets);
    if it != |s| { return; }
    PackUnpack(octets);
    ok, addr := true, FromBytes(octets);
    NumberOf(s, octets);
  }

  lemma NumberOf(s: string, octets: Quad)
    requires Ipv4Text(octets) == s
    ensures forall q: Quad | Ipv4Text(q) == s :: FromBytes(octets) == Weighted(q[0], q[1], q[2], q[3])
  {
    hide Ipv4Text, FromBytes, Weighted;
    NetworkOrder(octets);
    forall q: Quad | Ipv4Text(q) == s ensures q == octets { PrintingIsInjective(q, octets); }
  }

  // ------------------------------------------------------------------ printer

  /** Writes one octet at `pos` and leaves every later cell alone. */
  method WriteOctet(dest: array<char>, pos: nat, octet: Byte) returns (next: nat)
    requires pos + 3 <= dest.Length
    modifies dest
    ensures next == pos + |OctetText(octet)| <= dest.Length
    ensures dest[..next] == old(dest[..pos]) + OctetText(octet)
  {
    var v := octet;
    next := pos;
    if v >= 100 {
      dest[next] := DigitChar(v / 100);
      next := next + 1;
      v := v % 100;
      dest[next] := DigitChar(v / 10);
      next := next + 1;
      v := v % 10;
    } else if v >= 10 {
      dest[next] := DigitChar(v / 10);
      next := next + 1;
      v := v % 10;
    }
    dest[next] := DigitChar(v);
    next := next + 1;
  }

  method WriteDot(dest: array<char>, pos: nat) returns (next: nat)
    requires pos < dest.Length
    modifies dest
    ensures next == pos + 1
    ensures dest[..next] == old(dest[..pos]) + "."
  {
    dest[pos] := '.';
    next := pos + 1;
  }

  /** Writes the text of the address at `pos`: no cell before it changes, and at
      most MAX_STR_LEN cells are written. */
  method PrintImpl(addr: Uint32, dest: array<char>, pos: nat) returns (next: nat)
    requires pos + MAX_STR_LEN <= dest.Length
    modifies dest
    ensures pos < next <= pos + MAX_STR_LEN
    ensures dest[..next] == old(dest[..pos]) + Ipv4Text(ToBytes(addr))
  {
    hide OctetText;
    var q := ToBytes(addr);
    hide ToBytes;
    ghost var before := dest[..pos];
    next := WriteOctet(dest, pos, q[0]);
    next := WriteDot(dest, next);
    next := WriteOctet(dest, next, q[1]);
    next := WriteDot(dest, next);
    next := WriteOctet(dest, next, q[2]);
    next := WriteDot(dest, next);
    next := WriteOctet(dest, next, q[3]);
    AppendParts(before, q);
  }

  lemma AppendParts(p: string, q: Quad)
    ensures p + Ipv4Text(q) ==
            p + OctetText(q[0]) + "." + OctetText(q[1]) + "." + OctetText(q[2]) + "." + OctetText(q[3])
  {
    hide OctetText;
    var a, b, c, d := OctetText(q[0]), OctetText(q[1]), OctetText(q[2]), OctetText(q[3]);
    Regroup(p, a + "." + b + "." + c + ".", d);
    Regroup(p, a + "." + b + "." + c, ".");
    Regroup(p, a + "." + b + ".", c);
    Regroup(p, a + "." + b, ".");
    Regroup(p, a + ".", b);
    Regroup(p, a, ".");
  }

  /** Different addresses have different texts. */
  lemma PrintingIsInjective(q: Quad, p: Quad)
    requires Ipv4Text(q) == Ipv4Text(p)
    ensures q == p
  {
    forall k | 0 <= k < 4 ensures q[k] == p[k] { SameOctets(q, p, k); }
  }

  lemma {:induction false} SameOctets(q: Quad, p: Quad, k: nat)
    requires Ipv4Text(q) == Ipv4Text(p) && k < 4
    ensures q[..k + 1] == p[..k + 1]
  {
    hide OctetText, OctetAt, Ipv4Text;
    if k > 0 { SameOctets(q, p, k - 1); }
    assert q[..k] == p[..k];
    OctetInText(q, k);
    OctetInText(p, k);
    OctetAtUnique(Ipv4Text(q), |Dotted(q[..k])|, q[k], p[k]);
  }

  lemma TextDeterminesNumber(u: Uint32, w: Uint32)
    requires Ipv4Text(ToBytes(u)) == Ipv4Text(ToBytes(w))
    ensures u == w
  {
    PrintingIsInjective(ToBytes(u), ToBytes(w));
    UnpackPack(u);
    UnpackPack(w);
  }

  /** Parsing what was printed gives back the number, for every 32-bit number. */
  method PrintThenParse(u: Uint32) returns (w: Uint32)
    ensures w == u
  {
    hide Ipv4Text, ToBytes;
    var buf := new char[MAX_STR_LEN];
    var n := PrintImpl(u, buf, 0);
    var text := buf[..n];
    assert text == Ipv4Text(ToBytes(u));
    var ok;
    ok, w := ParseIpv4Address(text, 0);
    TextDeterminesNumber(u, w);
  }
}
