/** Endpoint texts: an address with an optional port. */
module Endpoint {
  import opened Basics
  import opened Ipv4Address
  import opened Ipv6Grammar
  import opened Ipv6Scan
  import opened Ipv6Parser
  import Printer = Ipv6Printer

  /** Both addresses are stored, with a discriminator. */
  datatype Endpoint = Endpoint(v4: Uint32, v6: Octets, port: Word, isV4: bool)

  const ANY_V6: Octets := [0, 0, 0, 0, 0, 0, 0, 0, 0, 0, 0, 0, 0, 0, 0, 0]

  function V4Endpoint(addr: Uint32, port: Word): Endpoint { Endpoint(addr, ANY_V6, port, true) }

  function V6Endpoint(addr: Octets, port: Word): Endpoint { Endpoint(0, addr, port, false) }

  // -------------------------------------------------------------------- numbers

  predicate AllDigits(s: string) { forall i | 0 <= i < |s| :: IsDigit(s[i]) }

  function DecimalValue(s: string): (v: nat)
    requires AllDigits(s)
  {
    if s == "" then 0 else DecimalValue(s[..|s| - 1]) * 10 + DigitValue(s[|s| - 1])
  }

  function Power10(k: nat): nat { if k == 0 then 1 else 10 * Power10(k - 1) }

  /** Decimal reading is positional. */
  lemma {:induction false} DecimalPositions(s: string, t: string)
    requires AllDigits(s) && AllDigits(t)
    ensures AllDigits(s + t) && DecimalValue(s + t) == DecimalValue(s) * Power10(|t|) + DecimalValue(t)
  {
    if t == "" {
      assert s + t == s;
    } else {
      var u := t[..|t| - 1];
      DecimalPositions(s, u);
      assert (s + t)[..|s + t| - 1] == s + u;
      Shifted(DecimalValue(s), Power10(|u|), DecimalValue(u), DigitValue(t[|t| - 1]));
    }
  }

  lemma Shifted(a: int, p: int, b: int, d: int)
    ensures (a * p + b) * 10 + d == a * (10 * p) + (b * 10 + d)
  {
  }

  /** The decimal text of a number, without leading zeros. */
  function Decimal(n: nat): (s: string)
    ensures s != "" && AllDigits(s)
  {
    if n < 10 then [DigitChar(n)] else Decimal(n / 10) + [DigitChar(n % 10)]
  }

  lemma {:induction false} ValueOfDecimal(n: nat)
    ensures DecimalValue(Decimal(n)) == n
    ensures n > 0 ==> Decimal(n)[0] != '0'
    ensures n == 0 ==> Decimal(n) == "0"
  {
    if n >= 10 {
      ValueOfDecimal(n / 10);
      var s := Decimal(n);
      assert s[..|s| - 1] == Decimal(n / 10);
      assert s[0] == Decimal(n / 10)[0];
    } else {
      assert [DigitChar(n)][..0] == "";
    }
  }

  lemma {:induction false} DecimalOfValue(s: string)
    requires s != "" && AllDigits(s) && (|s| == 1 || s[0] != '0')
    ensures Decimal(DecimalValue(s)) == s
    ensures s[0] != '0' ==> DecimalValue(s) > 0
  {
    var n := |s| - 1;
    var v := DecimalValue(s);
    var hi, lo := DecimalValue(s[..n]), DigitValue(s[n]);
    assert v == hi * 10 + lo;
    if n == 0 {
      assert s[..0] == "";
    } else {
      DecimalOfValue(s[..n]);
      assert v / 10 == hi && v % 10 == lo;
    }
  }

  lemma {:induction false} ValueMonotone(s: string, k: nat)
    requires AllDigits(s) && k <= |s|
    ensures DecimalValue(s[..k]) <= DecimalValue(s)
  {
    if k < |s| {
      ValueMonotone(s[..|s| - 1], k);
      assert s[..|s| - 1][..k] == s[..k];
    } else {
      assert s[..k] == s;
    }
  }

  /** Unsigned decimal reading of the leading digits, as the standard library's
      from_chars does it: no digits, or a value above `max`, is an error. */
  method FromChars(s: string, max: nat) returns (ok: bool, val: nat, end: nat)
    ensures end <= |s| && AllDigits(s[..end]) && !DigitAt(s, end)
    ensures ok <==> end > 0 && DecimalValue(s[..end]) <= max
    ensures ok ==> val == DecimalValue(s[..end])
  {
    end, val := 0, 0;
    var overflow := false;
    while end < |s| && IsDigit(s[end])
      invariant end <= |s| && AllDigits(s[..end])
      invariant overflow <==> DecimalValue(s[..end]) > max
      invariant !overflow ==> val == DecimalValue(s[..end])
    {
      assert s[..end + 1][..end] == s[..end];
      ValueMonotone(s[..end + 1], end);
      if !overflow {
        val := val * 10 + DigitValue(s[end]);
        overflow := val > max;
      }
      end := end + 1;
    }
    ok := end > 0 && !overflow;
  }

  /** Accepts exactly the decimal texts of 0..65535, whatever the width of the
      integer that from_chars reads into, as long as it holds a port. */
  method ParsePort(s: string, ulongMax: nat) returns (ok: bool, port: Word)
    requires ulongMax >= 65535
    ensures ok <==> exists p: Word :: Decimal(p) == s
    ensures ok ==> Decimal(port) == s
  {
    ok, port := false, 0;
    forall p: Word | Decimal(p) == s
      ensures s != "" && AllDigits(s) && DecimalValue(s) == p && !(|s| > 1 && s[0] == '0')
    {
      ValueOfDecimal(p);
    }
    hide Decimal, DecimalValue;
    if s == "" { return; }
    if |s| > 1 && s[0] == '0' { return; }
    var good, val, end := FromChars(s, ulongMax);
    assert end == |s| ==> s[..end] == s;
    if !good || end != |s| { return; }
    DecimalOfValue(s);
    if val > 65535 { return; }
    ok, port := true, val;
  }

  // --------------------------------------------------------------------- colons

  function Colons(s: string): nat { multiset(s)[':'] }

  lemma ColonsConcat(a: string, b: string)
    ensures Colons(a + b) == Colons(a) + Colons(b)
  {
  }

  lemma NoColons(s: string)
    requires ':' !in s
    ensures Colons(s) == 0
  {
  }

  datatype Format = Ipv4NoPort | Ipv4WithPort | Ipv6NoPort | Ipv6Bracketed

  /** A leading bracket, else the number of colons. */
  method DetectEndpointFormat(s: string) returns (f: Format)
    ensures f == if s != "" && s[0] == '[' then Ipv6Bracketed
                 else if Colons(s) == 0 then Ipv4NoPort
                 else if Colons(s) == 1 then Ipv4WithPort else Ipv6NoPort
  {
    if s == "" { return Ipv4NoPort; }
    if s[0] == '[' { return Ipv6Bracketed; }
    var colons := 0;
    for i := 0 to |s|
      invariant colons == Colons(s[..i])
    {
      assert s[..i + 1] == s[..i] + [s[i]];
      if s[i] == ':' { colons := colons + 1; }
    }
    assert s[..|s|] == s;
    f := if colons == 0 then Ipv4NoPort else if colons == 1 then Ipv4WithPort else Ipv6NoPort;
  }

  method FindChar(s: string, c: char) returns (found: bool, at: nat)
    ensures found <==> c in s
    ensures found ==> at < |s| && s[at] == c && forall i | 0 <= i < at :: s[i] != c
  {
    at := 0;
    while at < |s| && s[at] != c
      invariant at <= |s| && forall i | 0 <= i < at :: s[i] != c
    {
      at := at + 1;
    }
    found := at < |s|;
  }

  method FindLastChar(s: string, c: char) returns (found: bool, at: nat)
    ensures found <==> c in s
    ensures found ==> at < |s| && s[at] == c && c !in s[at + 1..]
  {
    at := |s|;
    while at > 0 && s[at - 1] != c
      invariant at <= |s| && c !in s[at..]
    {
      assert s[at - 1..] == [s[at - 1]] + s[at..];
      at := at - 1;
    }
    found := at > 0;
    if found { at := at - 1; } else { assert s[0..] == s; }
  }

  // ----------------------------------------------------------------- the language

  /** The documented forms of an endpoint text; the bracketed form may omit the port. */
  datatype Form =
    | PlainV4(addr: Uint32)
    | PortV4(addr: Uint32, port: Word)
    | PlainV6(tree: Tree)
    | BracketV6(tree: Tree)
    | PortV6(tree: Tree, port: Word)
  {
    ghost predicate Valid() { PlainV4? || PortV4? || IsDerivation(tree) }

    function Written(): string {
      match this
      case PlainV4(a) => Ipv4Text(ToBytes(a))
      case PortV4(a, p) => Ipv4Text(ToBytes(a)) + ":" + Decimal(p)
      case PlainV6(t) => Text(t)
      case BracketV6(t) => "[" + Text(t) + "]"
      case PortV6(t, p) => "[" + Text(t) + "]:" + Decimal(p)
    }

    /** The fields of the endpoint that the form stands for; the other address is zero. */
    ghost predicate StandsFor(ep: Endpoint)
      requires Valid()
    {
      && ep.port == (if PortV4? || PortV6? then port else 0)
      && (ep.isV4 <==> PlainV4? || PortV4?)
      && ep.v4 == (if PlainV4? || PortV4? then addr else 0)
      && ep.v6 == (if PlainV4? || PortV4? then seq(16, i => 0) else OctetsOf(Denotes(tree)))
    }
  }

  ghost predicate Writes(f: Form, s: string) { f.Valid() && f.Written() == s }

  predicate IsAddressChar(c: char) { IsHexDigit(c) || c == ':' || c == '.' }

  ghost predicate AddressChars(s: string) { forall c | c in s :: IsAddressChar(c) }

  lemma {:induction false} PrefixedChars(gs: seq<string>)
    requires forall i | 0 <= i < |gs| :: AddressChars(gs[i])
    ensures AddressChars(Prefixed(gs))
  {
    if gs != [] { PrefixedChars(gs[1..]); }
  }

  lemma JoinChars(gs: seq<string>)
    requires IsGroupList(gs)
    ensures AddressChars(Join(gs))
  {
    forall i | 0 <= i < |gs| ensures AddressChars(gs[i]) {
      if IsIpv4Address(gs[i]) { DottedCharacters(QuadOf(gs[i])); }
    }
    if gs != [] { PrefixedChars(gs[1..]); }
  }

  lemma {:induction false} PrefixedColons(gs: seq<string>)
    ensures Colons(Prefixed(gs)) >= |gs|
  {
    if gs != [] {
      PrefixedColons(gs[1..]);
      ColonsConcat(":" + gs[0], Prefixed(gs[1..]));
      ColonsConcat(":", gs[0]);
    }
  }

  /** An IPv6 address has no bracket and at least two colons. */
  lemma AddressShape(t: Tree)
    requires IsDerivation(t)
    ensures AddressChars(Text(t)) && Colons(Text(t)) >= 2 && |Text(t)| >= 2
  {
    hide IsDerivation, IsIpv4Address, IsH16;
    DerivationFits(t);
    if t.elided {
      AllH16Weight(t.pre);
      JoinChars(t.pre);
      JoinChars(t.post);
      ColonsConcat(Join(t.pre) + "::", Join(t.post));
      ColonsConcat(Join(t.pre), "::");
      assert multiset("::")[':'] == 2;
    } else {
      JoinChars(t.pre);
      PrefixedColons(t.pre[1..]);
      ColonsConcat(t.pre[0], Prefixed(t.pre[1..]));
    }
    assert Colons(Text(t)) <= |Text(t)| by { ColonsBound(Text(t)); }
  }

  lemma ColonsBound(s: string)
    ensures Colons(s) <= |s|
  {
    assert multiset(s)[':'] <= |multiset(s)|;
  }

  lemma DecimalColons(n: nat)
    ensures ':' !in Decimal(n) && Colons(Decimal(n)) == 0
  {
    assert forall i | 0 <= i < |Decimal(n)| :: IsDigit(Decimal(n)[i]);
  }

  lemma Ipv4Colons(u: Uint32)
    ensures var s := Ipv4Text(ToBytes(u)); ':' !in s && Colons(s) == 0 && s != "" && s[0] != '['
  {
    hide Ipv4Text, ToBytes;
    var s := Ipv4Text(ToBytes(u));
    DottedCharacters(ToBytes(u));
    assert s[0] in s;
  }

  /** Counting colons never sends a text to the wrong parser. */
  lemma FormatOfForm(f: Form, s: string)
    requires Writes(f, s)
    ensures s != ""
    ensures f.PlainV4? <==> s[0] != '[' && Colons(s) == 0
    ensures f.PortV4? <==> s[0] != '[' && Colons(s) == 1
    ensures f.PlainV6? <==> s[0] != '[' && Colons(s) >= 2
    ensures f.BracketV6? || f.PortV6? <==> s[0] == '['
  {
    hide Ipv4Text, ToBytes, Decimal, Text, IsDerivation;
    match f
    case PlainV4(a) =>
      Ipv4Colons(a);
    case PortV4(a, p) =>
      Ipv4Colons(a);
      DecimalColons(p);
      ColonsConcat(Ipv4Text(ToBytes(a)) + ":", Decimal(p));
      ColonsConcat(Ipv4Text(ToBytes(a)), ":");
    case PlainV6(t) =>
      AddressShape(t);
      assert s[0] in s;
    case BracketV6(t) =>
    case PortV6(t, p) =>
  }

  /** A port text splits at its only colon. */
  lemma PortV4Splits(f: Form, s: string, at: nat)
    requires Writes(f, s) && f.PortV4? && at < |s| && s[at] == ':'
    ensures s[..at] == Ipv4Text(ToBytes(f.addr)) && s[at + 1..] == Decimal(f.port)
  {
    hide Ipv4Text, ToBytes, Decimal;
    var a, d := Ipv4Text(ToBytes(f.addr)), Decimal(f.port);
    Ipv4Colons(f.addr);
    DecimalColons(f.port);
    forall i | 0 <= i < |a| ensures s[i] != ':' { assert s[i] == a[i] && a[i] in a; }
    forall i | |a| < i < |s| ensures s[i] != ':' { assert s[i] == d[i - |a| - 1] && d[i - |a| - 1] in d; }
    assert at == |a|;
  }

  /** A bracketed text splits at its first closing bracket. */
  lemma BracketSplits(f: Form, s: string, at: nat)
    requires Writes(f, s) && (f.BracketV6? || f.PortV6?)
    requires at < |s| && s[at] == ']' && forall i | 0 <= i < at :: s[i] != ']'
    ensures 1 <= at && s[1..at] == Text(f.tree)
    ensures f.BracketV6? ==> at + 1 == |s|
    ensures f.PortV6? ==> at + 1 < |s| && s[at + 1] == ':' && s[at + 2..] == Decimal(f.port)
  {
    hide Text, Decimal, IsDerivation;
    var t := Text(f.tree);
    AddressShape(f.tree);
    var rest := if f.BracketV6? then "]" else "]:" + Decimal(f.port);
    assert s == "[" + t + rest;
    forall i | 1 <= i <= |t| ensures s[i] != ']' { assert s[i] == t[i - 1] && t[i - 1] in t; }
    assert s[|t| + 1] == ']';
    assert at == |t| + 1;
  }

  lemma BracketPresent(f: Form, s: string)
    requires Writes(f, s) && (f.BracketV6? || f.PortV6?)
    ensures ']' in s && |s| >= 2
  {
    hide Text, Decimal, IsDerivation;
    assert s[|Text(f.tree)| + 1] == ']';
  }

  ghost predicate IsEndpointText(s: string) { exists f: Form :: Writes(f, s) }

  /** `ep` is what every reading of `s` as one of the documented forms stands for. */
  ghost predicate Denoted(s: string, ep: Endpoint) {
    IsEndpointText(s) && forall f: Form | Writes(f, s) :: f.StandsFor(ep)
  }

  method ParsePlainV4(s: string) returns (ok: bool, ep: Endpoint)
    requires s != "" && s[0] != '[' && Colons(s) == 0
    ensures ok <==> IsEndpointText(s)
    ensures ok ==> Denoted(s, ep)
  {
    hide Ipv4Text, ToBytes, Text, Decimal, IsDerivation, Denotes, OctetsOf;
    var addr;
    ok, addr := ParseIpv4Address(s, 0);
    ep := V4Endpoint(addr, 0);
    if ok { assert Writes(PlainV4(addr), s); }
    forall f: Form | Writes(f, s) ensures ok && f.StandsFor(ep) {
      FormatOfForm(f, s);
      assert IsIpv4Address(Ipv4Text(ToBytes(f.addr)));
      TextDeterminesNumber(f.addr, addr);
    }
  }

  method ParsePortV4(s: string, ulongMax: nat) returns (ok: bool, ep: Endpoint)
    requires s != "" && s[0] != '[' && Colons(s) == 1 && ulongMax >= 65535
    ensures ok <==> IsEndpointText(s)
    ensures ok ==> Denoted(s, ep)
  {
    hide Ipv4Text, ToBytes, Text, Decimal, IsDerivation, Denotes, OctetsOf, IsIpv4Address;
    ok, ep := false, V4Endpoint(0, 0);
    var found, at := FindLastChar(s, ':');
    if !found {
      NoColons(s);
      return;
    }
    forall f: Form | Writes(f, s)
      ensures f.PortV4? && s[..at] == Ipv4Text(ToBytes(f.addr)) && s[at + 1..] == Decimal(f.port)
    {
      FormatOfForm(f, s);
      PortV4Splits(f, s, at);
    }
    var good, addr := ParseIpv4Address(s[..at], 0);
    forall f: Form | Writes(f, s) ensures good { PrintedIsAddress(f.addr); }
    if !good { return; }
    var port;
    good, port := ParsePort(s[at + 1..], ulongMax);
    forall f: Form | Writes(f, s) ensures good { assert Decimal(f.port) == s[at + 1..]; }
    if !good { return; }
    ok, ep := true, V4Endpoint(addr, port);
    PortV4Denoted(s, at, addr, port);
  }

  lemma PortV4Denoted(s: string, at: nat, addr: Uint32, port: Word)
    requires at < |s| && s[at] == ':' && s[0] != '[' && Colons(s) == 1
    requires s[..at] == Ipv4Text(ToBytes(addr)) && s[at + 1..] == Decimal(port)
    ensures Denoted(s, V4Endpoint(addr, port))
  {
    hide Ipv4Text, ToBytes, Decimal, Colons;
    assert s == s[..at] + ":" + s[at + 1..];
    assert Writes(PortV4(addr, port), s);
    forall f: Form | Writes(f, s) ensures f.StandsFor(V4Endpoint(addr, port)) {
      FormatOfForm(f, s);
      PortV4Splits(f, s, at);
      TextDeterminesNumber(f.addr, addr);
      ValueOfDecimal(f.port);
      ValueOfDecimal(port);
    }
  }

  lemma PrintedIsAddress(u: Uint32)
    ensures IsIpv4Address(Ipv4Text(ToBytes(u)))
  {
  }

  method ParsePlainV6(s: string) returns (ok: bool, ep: Endpoint)
    requires s != "" && s[0] != '[' && Colons(s) >= 2
    ensures ok <==> IsEndpointText(s)
    ensures ok ==> Denoted(s, ep)
  {
    hide Ipv4Text, ToBytes, Text, Decimal, IsDerivation, Denotes, OctetsOf, IsIpv4Address;
    var addr;
    ok, addr := ParseIpv6Address(s, ANY_V6);
    ep := V6Endpoint(addr, 0);
    if ok {
      ghost var t: Tree :| IsDerivation(t) && Text(t) == s;
      assert Writes(PlainV6(t), s);
    }
    forall f: Form | Writes(f, s) ensures ok && f.StandsFor(ep) { FormatOfForm(f, s); }
  }

  method ParseBracketed(s: string, ulongMax: nat) returns (ok: bool, ep: Endpoint)
    requires s != "" && s[0] == '[' && ulongMax >= 65535
    ensures ok <==> IsEndpointText(s)
    ensures ok ==> Denoted(s, ep)
  {
    hide Ipv4Text, ToBytes, Text, Decimal, IsDerivation, Denotes, OctetsOf, IsIpv4Address;
    ok, ep := false, V4Endpoint(0, 0);
    forall f: Form | Writes(f, s) ensures (f.BracketV6? || f.PortV6?) && ']' in s && |s| >= 2 {
      FormatOfForm(f, s);
      BracketPresent(f, s);
    }
    if |s| < 2 || s[0] != '[' { return; }
    var found, at := FindChar(s, ']');
    if !found { return; }
    forall f: Form | Writes(f, s)
      ensures s[1..at] == Text(f.tree)
      ensures f.BracketV6? ==> at + 1 == |s|
      ensures f.PortV6? ==> at + 1 < |s| && s[at + 1] == ':' && s[at + 2..] == Decimal(f.port)
    {
      BracketSplits(f, s, at);
    }
    var good, addr := ParseIpv6Address(s[1..at], ANY_V6);
    forall f: Form | Writes(f, s) ensures good { assert Text(f.tree) == s[1..at]; }
    if !good { return; }
    var port := 0;
    if at + 1 < |s| {
      if s[at + 1] != ':' { return; }
      good, port := ParsePort(s[at + 2..], ulongMax);
      forall f: Form | Writes(f, s) ensures good { assert Decimal(f.port) == s[at + 2..]; }
      if !good { return; }
    }
    ok, ep := true, V6Endpoint(addr, port);
    BracketDenoted(s, at, addr, port);
  }

  lemma BracketDenoted(s: string, at: nat, addr: Octets, port: Word)
    requires 1 <= at < |s| && s[0] == '[' && s[at] == ']' && forall i | 0 <= i < at :: s[i] != ']'
    requires IsIpv6Address(s[1..at])
    requires forall t: Tree | IsDerivation(t) && Text(t) == s[1..at] :: addr == OctetsOf(Denotes(t))
    requires if at + 1 == |s| then port == 0 else s[at + 1] == ':' && s[at + 2..] == Decimal(port)
    ensures Denoted(s, V6Endpoint(addr, port))
  {
    hide Text, Decimal, IsDerivation, Denotes, OctetsOf;
    var t: Tree :| IsDerivation(t) && Text(t) == s[1..at];
    assert s == s[..1] + s[1..at] + s[at..] && s[..1] == "[";
    if at + 1 == |s| {
      assert s[at..] == "]";
      assert Writes(BracketV6(t), s);
    } else {
      assert s[at..] == "]:" + s[at + 2..];
      assert "[" + Text(t) + ("]:" + Decimal(port)) == "[" + Text(t) + "]:" + Decimal(port);
      assert Writes(PortV6(t, port), s);
    }
    forall f: Form | Writes(f, s) ensures f.StandsFor(V6Endpoint(addr, port)) {
      FormatOfForm(f, s);
      BracketSplits(f, s, at);
      if f.PortV6? {
        ValueOfDecimal(f.port);
        ValueOfDecimal(port);
      }
    }
  }

  /** Accepts exactly the documented forms, gives the endpoint that every reading of
      the text denotes, and leaves the endpoint alone on failure. */
  method ParseEndpoint(s: string, ulongMax: nat, ep0: Endpoint) returns (ok: bool, ep: Endpoint)
    requires ulongMax >= 65535
    ensures ok <==> IsEndpointText(s)
    ensures ok ==> Denoted(s, ep)
    ensures !ok ==> ep == ep0
  {
    hide Denoted, Writes;
    if s == "" {
      forall f: Form | Writes(f, s) ensures false { FormatOfForm(f, s); }
      return false, ep0;
    }
    var fmt := DetectEndpointFormat(s);
    var read;
    match fmt {
      case Ipv4NoPort => ok, read := ParsePlainV4(s);
      case Ipv4WithPort => ok, read := ParsePortV4(s, ulongMax);
      case Ipv6NoPort => ok, read := ParsePlainV6(s);
      case Ipv6Bracketed => ok, read := ParseBracketed(s, ulongMax);
    }
    ep := if ok then read else ep0;
  }

  // ---------------------------------------------------------------- round trips

  lemma DenotedIs(f: Form, s: string, ep: Endpoint)
    requires Writes(f, s) && Denoted(s, ep)
    ensures f.StandsFor(ep)
  {
  }

  /** A printed IPv4 address, a colon and a decimal port parse back. */
  method PrintThenParseV4(addr: Uint32, port: Word, ulongMax: nat) returns (ep: Endpoint)
    requires ulongMax >= 65535
    ensures ep.isV4 && ep.v4 == addr && ep.port == port && ep.v6 == seq(16, i => 0)
  {
    var buf := new char[15];
    var n := Ipv4Address.PrintImpl(addr, buf, 0);
    var text := buf[..n] + ":" + Decimal(port);
    hide Ipv4Text, ToBytes, Decimal;
    ghost var f := PortV4(addr, port);
    assert Writes(f, text);
    hide Denoted, Writes;
    var ok;
    ok, ep := ParseEndpoint(text, ulongMax, V4Endpoint(0, 0));
    DenotedIs(f, text, ep);
  }

  /** A printed IPv6 address in brackets, a colon and a decimal port parse back. */
  method PrintThenParseV6(addr: Octets, port: Word, ulongMax: nat) returns (ep: Endpoint)
    requires ulongMax >= 65535
    ensures !ep.isV4 && ep.v6 == addr && ep.port == port && ep.v4 == 0
  {
    hide Decimal, Text, IsDerivation, Denotes, OctetsOf, WordsOf, Printer.PrintedTree, Printer.IsBestRun;
    var buf := new char[49];
    var n, pos, len := Printer.PrintImpl(addr, buf);
    var text := "[" + buf[..n] + "]:" + Decimal(port);
    Printer.PrintedTreeDenotes(addr, pos, len);
    ghost var f := PortV6(Printer.PrintedTree(addr, pos, len), port);
    assert Writes(f, text);
    hide Denoted, Writes;
    var ok;
    ok, ep := ParseEndpoint(text, ulongMax, V4Endpoint(0, 0));
    DenotedIs(f, text, ep);
    OctetsRoundTrip(addr);
  }
}
