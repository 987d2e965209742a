/** The IPv6 address printer: the leftmost longest run of zero words is elided, an
    IPv4-mapped address ends in dotted form. What it prints is a derivation of the
    grammar that denotes the address, so parsing it gives the address back. */
module Ipv6Printer {
  import opened Basics
  import opened Ipv4Address
  import opened Ipv6Grammar
  import opened Ipv6Scan
  import opened Ipv6Parser

  const MAX_STR_LEN := 49

  // ----------------------------------------------------------------- one word

  function HexChar(d: int): (c: char)
    requires 0 <= d < 16
    ensures IsHexDigit(c) && HexValue(c) == d
  {
    if d < 10 then (d + 48) as char else (d + 87) as char
  }

  /** Lower-case hexadecimal without leading zeros. */
  function HexText(w: Word): (t: string) {
    if w >= 0x1000 then [HexChar(w / 4096), HexChar(w / 256 % 16), HexChar(w / 16 % 16), HexChar(w % 16)]
    else if w >= 0x100 then [HexChar(w / 256), HexChar(w / 16 % 16), HexChar(w % 16)]
    else if w >= 0x10 then [HexChar(w / 16), HexChar(w % 16)]
    else [HexChar(w)]
  }

  lemma FourDigits(a: char, b: char, c: char, d: char)
    requires IsHexDigit(a) && IsHexDigit(b) && IsHexDigit(c) && IsHexDigit(d)
    ensures AllHex([a, b, c, d]) && HexNumber([a, b, c, d]) ==
            HexValue(a) * 4096 + HexValue(b) * 256 + HexValue(c) * 16 + HexValue(d)
  {
    hide HexValue;
    ThreeDigits(a, b, c);
    assert [a, b, c, d][..3] == [a, b, c];
  }

  /** Every word is the value of its text. */
  lemma HexTextReads(w: Word)
    ensures IsH16(HexText(w)) && H16Value(HexText(w)) == w
  {
    hide HexNumber, HexChar;
    var a, b, c, d := HexChar(w / 4096), HexChar(w / 256 % 16), HexChar(w / 16 % 16), HexChar(w % 16);
    ThreeDigits(b, c, d);
    FourDigits(a, b, c, d);
    WordNibbles(w);
  }

  /** No leading zero and no upper-case digit. */
  predicate IsShortest(g: string) {
    && 1 <= |g| <= 4
    && (forall i | 0 <= i < |g| :: '0' <= g[i] <= '9' || 'a' <= g[i] <= 'f')
    && (|g| > 1 ==> g[0] != '0')
  }

  lemma HexTextShortest(w: Word)
    ensures IsShortest(HexText(w))
  {
  }

  lemma HexCharOf(c: char)
    requires '0' <= c <= '9' || 'a' <= c <= 'f'
    ensures HexChar(HexValue(c)) == c && (c != '0' ==> HexValue(c) > 0)
  {
  }

  lemma Nibbles4(a: int, b: int, c: int, d: int)
    requires 0 <= a < 16 && 0 <= b < 16 && 0 <= c < 16 && 0 <= d < 16
    ensures var w := a * 4096 + b * 256 + c * 16 + d;
            w / 4096 == a && w / 256 % 16 == b && w / 16 % 16 == c && w % 16 == d
  {
    var w := a * 4096 + b * 256 + c * 16 + d;
    assert w / 16 == a * 256 + b * 16 + c;
    assert w / 256 == a * 16 + b;
  }

  /** The printed text of a word is its only shortest text. */
  lemma ShortestIsPrinted(g: string)
    requires IsShortest(g)
    ensures IsH16(g) && HexText(H16Value(g)) == g
  {
    hide HexChar, HexValue;
    var n := |g|;
    forall i | 0 <= i < n ensures HexChar(HexValue(g[i])) == g[i] && IsHexDigit(g[i]) { HexCharOf(g[i]); }
    HexCharOf(g[0]);
    if n == 1 {
      assert g == [g[0]] && g[..0] == "";
    } else if n == 2 {
      TwoDigits(g[0], g[1]);
      Nibbles4(0, 0, HexValue(g[0]), HexValue(g[1]));
      assert g == [g[0], g[1]];
    } else if n == 3 {
      ThreeDigits(g[0], g[1], g[2]);
      Nibbles4(0, HexValue(g[0]), HexValue(g[1]), HexValue(g[2]));
      assert g == [g[0], g[1], g[2]];
    } else {
      FourDigits(g[0], g[1], g[2], g[3]);
      Nibbles4(HexValue(g[0]), HexValue(g[1]), HexValue(g[2]), HexValue(g[3]));
      assert g == [g[0], g[1], g[2], g[3]];
    }
  }

  lemma TwoDigits(a: char, b: char)
    requires IsHexDigit(a) && IsHexDigit(b)
    ensures AllHex([a, b]) && HexNumber([a, b]) == HexValue(a) * 16 + HexValue(b)
  {
    hide HexValue;
    assert [a, b][..1] == [a] && [a][..0] == "";
  }

  lemma WordNibbles(w: Word)
    ensures w == w / 4096 * 4096 + w / 256 % 16 * 256 + w / 16 % 16 * 16 + w % 16
  {
    assert w / 256 == w / 16 / 16 && w / 4096 == w / 16 / 16 / 16;
  }

  /** Writes one word, masking off each digit as it goes. */
  method PrintHex(dest: array<char>, pos: nat, word: Word) returns (next: nat)
    requires pos + 4 <= dest.Length
    modifies dest
    ensures pos < next <= pos + 4 && next == pos + |HexText(word)|
    ensures dest[..next] == old(dest[..pos]) + HexText(word)
  {
    var v := word;
    next := pos;
    if v >= 0x1000 {
      dest[next] := HexChar(v / 4096);
      v := v % 4096;
      dest[next + 1] := HexChar(v / 256);
      v := v % 256;
      dest[next + 2] := HexChar(v / 16);
      v := v % 16;
      next := next + 3;
    } else if v >= 0x100 {
      dest[next] := HexChar(v / 256);
      v := v % 256;
      dest[next + 1] := HexChar(v / 16);
      v := v % 16;
      next := next + 2;
    } else if v >= 0x10 {
      dest[next] := HexChar(v / 16);
      v := v % 16;
      next := next + 1;
    }
    dest[next] := HexChar(v);
    next := next + 1;
    MaskHigh(word);
    MaskLow(word);
    hide HexChar;
  }

  lemma MaskHigh(w: Word)
    ensures w % 4096 / 256 == w / 256 % 16
    ensures w % 4096 % 256 == w % 256
  {
  }

  lemma MaskLow(w: Word)
    ensures w % 256 / 16 == w / 16 % 16
    ensures w % 256 % 16 == w % 16
  {
  }

  // ------------------------------------------------------- the run to be elided

  predicate ZeroRun(ws: seq<Word>, i: int, n: int) {
    0 <= i && 0 <= n && i + n <= |ws| && forall k | i <= k < i + n :: ws[k] == 0
  }

  /** No run of zero words is longer, and none as long starts further left; -1 when
      no word is zero. */
  ghost predicate IsBestRun(ws: seq<Word>, pos: int, len: int) {
    && (if pos == -1 then len == 0 else 0 < len && ZeroRun(ws, pos, len))
    && (forall i, n | ZeroRun(ws, i, n) :: n <= len && (n == len && n > 0 ==> pos <= i))
  }

  /** The best run is made of zeros, and any other run of zeros is shorter, or as long and
      further right. */
  lemma BestRunMeans(ws: seq<Word>, pos: int, len: int, i: int, n: int)
    requires IsBestRun(ws, pos, len)
    requires 0 <= i < i + n <= |ws| && forall k | i <= k < i + n :: ws[k] == 0
    ensures 0 <= pos < pos + len <= |ws| && (forall k | pos <= k < pos + len :: ws[k] == 0)
    ensures n < len || (n == len && pos <= i)
  {
    assert ZeroRun(ws, i, n);
  }

  lemma BestRunUnique(ws: seq<Word>, pos: int, len: int, pos': int, len': int)
    requires IsBestRun(ws, pos, len) && IsBestRun(ws, pos', len')
    ensures pos == pos' && len == len'
  {
    assert pos != -1 ==> ZeroRun(ws, pos, len);
    assert pos' != -1 ==> ZeroRun(ws, pos', len');
  }

  /** No run of zero words goes across position `k`. */
  predicate Cuts(ws: seq<Word>, k: nat) {
    k <= |ws| && (k == 0 || k == |ws| || ws[k - 1] != 0 || ws[k] != 0)
  }

  lemma ExtendByWord(ws: seq<Word>, k: nat, pos: int, len: int)
    requires k < |ws| && ws[k] != 0 && Cuts(ws, k) && IsBestRun(ws[..k], pos, len)
    ensures Cuts(ws, k + 1) && IsBestRun(ws[..k + 1], pos, len)
  {
    var x, y := ws[..k], ws[..k + 1];
    assert forall i, n | ZeroRun(x, i, n) :: ZeroRun(y, i, n);
    forall i, n | ZeroRun(y, i, n) ensures n <= len && (n == len && n > 0 ==> pos <= i) {
      if n > 0 {
        assert y[k] != 0;
        assert ZeroRun(x, i, n);
      } else {
        assert ZeroRun(x, 0, 0);
      }
    }
  }

  lemma ExtendByRun(ws: seq<Word>, k: nat, m: nat, pos: int, len: int)
    requires k + m <= |ws| && m > 0 && Cuts(ws, k) && IsBestRun(ws[..k], pos, len)
    requires ZeroRun(ws, k, m) && (k + m == |ws| || ws[k + m] != 0)
    ensures Cuts(ws, k + m)
    ensures if m > len then IsBestRun(ws[..k + m], k, m) else IsBestRun(ws[..k + m], pos, len)
  {
    var x, y := ws[..k], ws[..k + m];
    assert ZeroRun(x, 0, 0);
    assert len >= 0;
    assert ZeroRun(y, k, m);
    assert pos != -1 ==> ZeroRun(y, pos, len) by { assert pos != -1 ==> ZeroRun(x, pos, len); }
    forall i, n | ZeroRun(y, i, n)
      ensures n <= (if m > len then m else len)
      ensures n > 0 && i < k ==> n <= len && (n == len ==> pos <= i)
    {
      if n > 0 && i < k {
        assert y[k] == 0 && y[k - 1] != 0;
        assert ZeroRun(x, i, n);
      }
    }
  }

  /** The number of zero words from `first` on, before `last`. */
  method CountZeroes(addr: Octets, first: nat, last: nat) returns (n: nat)
    requires first <= last <= 8
    ensures first + n <= last && ZeroRun(WordsOf(addr), first, n)
    ensures first + n == last || WordsOf(addr)[first + n] != 0
  {
    n := 0;
    while first + n != last
      invariant first + n <= last && ZeroRun(WordsOf(addr), first, n)
      decreases last - n
    {
      var k := first + n;
      assert WordsOf(addr)[k] == BigEndian(addr[2 * k], addr[2 * k + 1]);
      if addr[2 * k] != 0 || addr[2 * k + 1] != 0 { break; }
      n := n + 1;
    }
  }

  /** Finds the run to elide among the first `end` words (positions in words). */
  method FindBestRun(addr: Octets, end: nat) returns (pos: int, len: nat)
    requires end <= 8
    ensures IsBestRun(WordsOf(addr)[..end], pos, len)
  {
    pos, len := -1, 0;
    ghost var ws := WordsOf(addr)[..end];
    var it := 0;
    assert IsBestRun(ws[..0], -1, 0);
    while it != end
      invariant 0 <= it <= end && Cuts(ws, it) && IsBestRun(ws[..it], pos, len)
      decreases end - it
    {
      hide IsBestRun, WordsOf;
      var n := CountZeroes(addr, it, end);
      if n == 0 {
        ExtendByWord(ws, it, pos, len);
        it := it + 1;
        continue;
      }
      assert ZeroRun(ws, it, n);
      ExtendByRun(ws, it, n, pos, len);
      if n > len {
        pos, len := it, n;
      }
      it := it + n;
    }
    assert ws[..it] == ws;
  }

  // -------------------------------------------------------------- the printed tree

  predicate IsV4Mapped(addr: Octets) {
    (forall i | 0 <= i < 10 :: addr[i] == 0) && addr[10] == 0xff && addr[11] == 0xff
  }

  /** The IPv4-mapped address of section 2.5.5.2 of RFC 4291. */
  function FromIpv4(q: Quad): (addr: Octets)
    ensures IsV4Mapped(addr)
  {
    [0, 0, 0, 0, 0, 0, 0, 0, 0, 0, 0xff, 0xff] + q
  }

  /** The number of words printed in hexadecimal. */
  function HexWords(addr: Octets): nat { if IsV4Mapped(addr) then 6 else 8 }

  function HexTexts(ws: seq<Word>): (gs: seq<string>)
    ensures |gs| == |ws| && forall i | 0 <= i < |ws| :: gs[i] == HexText(ws[i])
  {
    seq(|ws|, i requires 0 <= i < |ws| => HexText(ws[i]))
  }

  /** Words before the elided run, words after it. */
  function HexTree(ws: seq<Word>, pos: int, len: nat): Tree
    requires pos == -1 || 0 <= pos <= pos + len <= |ws|
  {
    if pos == -1 then Tree(HexTexts(ws), false, [])
    else Tree(HexTexts(ws[..pos]), true, HexTexts(ws[pos + len..]))
  }

  function PrintedTree(addr: Octets, pos: int, len: nat): Tree
    requires pos == -1 || 0 <= pos <= pos + len <= HexWords(addr)
  {
    var t := HexTree(WordsOf(addr)[..HexWords(addr)], pos, len);
    if IsV4Mapped(addr) then Append(t, Ipv4Text(addr[12..])) else t
  }

  /** The groups of `gs` are the shortest texts of the words. */
  ghost predicate ShortTextsOf(gs: seq<string>, ws: seq<Word>) {
    |gs| == |ws| && forall i | 0 <= i < |ws| :: IsShortest(gs[i]) && IsH16(gs[i]) && H16Value(gs[i]) == ws[i]
  }

  /** Hexadecimal groups of the words before `end` around the run of zeros, "::" in the place
      of the run if there is one, then `tail`. */
  ghost predicate Surrounds(ws: seq<Word>, tail: seq<string>, t: Tree, pos: int, len: nat) {
    && (t.elided <==> exists k | 0 <= k < |ws| :: ws[k] == 0)
    && (t.elided ==>
          && 0 <= pos <= pos + len <= |ws|
          && ShortTextsOf(t.pre, ws[..pos])
          && |t.post| >= |tail| && t.post[|t.post| - |tail|..] == tail
          && ShortTextsOf(t.post[..|t.post| - |tail|], ws[pos + len..]))
    && (!t.elided ==> tail == [] && t.post == [] && ShortTextsOf(t.pre, ws))
  }

  /** What is to be printed: all words in hexadecimal, or for the image of an IPv4 address
      six words and the dotted quad. */
  ghost predicate IsCanonical(addr: Octets, t: Tree, pos: int, len: nat) {
    if exists q: Quad :: addr == FromIpv4(q)
    then Surrounds(WordsOf(addr)[..6], [Ipv4Text(addr[12..])], t, pos, len)
    else Surrounds(WordsOf(addr), [], t, pos, len)
  }

  // ----------------------------------------------------------------- the writer

  /** What has been written when the words before `k` are done. */
  function Emitted(ws: seq<Word>, pos: int, len: nat, k: nat): string
    requires k <= |ws| && (pos == -1 || (0 <= pos && (k <= pos || pos + len <= k)))
  {
    if pos == -1 || k <= pos then Join(HexTexts(ws[..k]))
    else Join(HexTexts(ws[..pos])) + ":" + (if k == pos + len == |ws| then ":" else "") +
         Prefixed(HexTexts(ws[pos + len..k]))
  }

  lemma HexTextsAppend(ws: seq<Word>, i: nat, k: nat)
    requires i <= k < |ws|
    ensures HexTexts(ws[i..k + 1]) == HexTexts(ws[i..k]) + [HexText(ws[k])]
  {
  }

  lemma EmittedWord(ws: seq<Word>, pos: int, len: nat, k: nat)
    requires 0 < k < |ws| && (pos == -1 || (0 <= pos && len > 0 && (k < pos || pos + len <= k)))
    ensures Emitted(ws, pos, len, k + 1) == Emitted(ws, pos, len, k) + ":" + HexText(ws[k])
  {
    hide HexTexts, HexText, Join, Prefixed;
    if pos == -1 || k < pos {
      HexTextsAppend(ws, 0, k);
      assert ws[0..k] == ws[..k] && ws[0..k + 1] == ws[..k + 1];
      JoinAppend(HexTexts(ws[..k]), HexText(ws[k]));
    } else {
      HexTextsAppend(ws, pos + len, k);
      PrefixedAppend(HexTexts(ws[pos + len..k]), HexText(ws[k]));
      Regroup4(Join(HexTexts(ws[..pos])) + ":", Prefixed(HexTexts(ws[pos + len..k])), HexText(ws[k]));
    }
  }

  lemma Regroup4(a: string, b: string, c: string)
    ensures a + "" + (b + ":" + c) == a + "" + b + ":" + c
  {
  }

  lemma EmittedElision(ws: seq<Word>, pos: nat, len: nat)
    requires pos + len <= |ws| && len > 0
    ensures Emitted(ws, pos, len, pos + len) ==
            Join(HexTexts(ws[..pos])) + ":" + (if pos + len == |ws| then ":" else "")
    ensures pos == 0 ==> Emitted(ws, pos, len, pos + len) == ":" + (if len == |ws| then ":" else "")
  {
    assert ws[pos + len..pos + len] == [];
    NoPrefixed();
  }

  lemma EmittedAll(ws: seq<Word>, pos: int, len: nat)
    requires pos == -1 || (0 <= pos <= pos + len <= |ws| && len > 0)
    ensures Emitted(ws, pos, len, |ws|) == Text(HexTree(ws, pos, len))
  {
    hide HexTexts, Join, Prefixed;
    assert ws[..|ws|] == ws;
    NoPrefixed();
    if pos != -1 {
      var pre, post := HexTexts(ws[..pos]), HexTexts(ws[pos + len..]);
      assert ws[pos + len..|ws|] == ws[pos + len..];
      if post != [] { PrefixedJoin(post); }
      ElisionColons(Join(pre), Join(post));
    }
  }

  lemma PrefixedJoin(gs: seq<string>)
    requires gs != []
    ensures Prefixed(gs) == ":" + Join(gs)
  {
  }

  lemma ElisionColons(a: string, b: string)
    ensures a + ":" + "" + (":" + b) == a + "::" + b
    ensures a + ":" + ":" + "" == a + "::" + ""
  {
  }

  lemma {:induction false} PrefixedLength(gs: seq<string>)
    requires forall i | 0 <= i < |gs| :: |gs[i]| <= 4
    ensures |Prefixed(gs)| <= 5 * |gs|
  {
    if gs != [] { PrefixedLength(gs[1..]); }
  }

  lemma JoinLength(gs: seq<string>)
    requires forall i | 0 <= i < |gs| :: |gs[i]| <= 4
    ensures |Join(gs)| <= if gs == [] then 0 else 5 * |gs| - 1
  {
    if gs != [] { PrefixedLength(gs[1..]); }
  }

  lemma EmittedLength(ws: seq<Word>, pos: int, len: nat, k: nat)
    requires 0 < k <= |ws| && (pos == -1 || (0 <= pos && len > 0 && (k <= pos || pos + len <= k)))
    ensures |Emitted(ws, pos, len, k)| <= 5 * k
  {
    hide HexText, Join, Prefixed;
    ShortTexts(ws[..k]);
    JoinLength(HexTexts(ws[..k]));
    if pos != -1 && pos < k {
      ShortTexts(ws[..pos]);
      JoinLength(HexTexts(ws[..pos]));
      ShortTexts(ws[pos + len..k]);
      PrefixedLength(HexTexts(ws[pos + len..k]));
    }
  }

  lemma ShortTexts(ws: seq<Word>)
    ensures forall i | 0 <= i < |HexTexts(ws)| :: |HexTexts(ws)[i]| <= 4
  {
  }

  method WriteColon(dest: array<char>, pos: nat) returns (next: nat)
    requires pos < dest.Length
    modifies dest
    ensures next == pos + 1
    ensures dest[..next] == old(dest[..pos]) + ":"
  {
    dest[pos] := ':';
    next := pos + 1;
  }

  /** Writes the hexadecimal part: the first `end` words, with the run at `best`
      elided (positions in words). */
  method PrintWords(addr: Octets, end: nat, best: int, len: nat, dest: array<char>) returns (d: nat)
    requires (end == 6 || end == 8) && dest.Length >= MAX_STR_LEN
    requires best == -1 || (0 <= best && best + len <= end && len > 0)
    modifies dest
    ensures d <= 5 * end
    ensures dest[..d] == Text(HexTree(WordsOf(addr)[..end], best, len))
  {
    hide HexText, HexTexts, Join, Prefixed, Emitted, WordsOf, HexTree, Text;
    ghost var ws := WordsOf(addr)[..end];
    var it := 0;
    d := 0;
    assert dest[..0] == "";
    if best != 0 {
      d := PrintHex(dest, d, WordAt(addr, 0));
      it := 1;
      FirstWord(addr, end, best, len);
    } else {
      d := WriteColon(dest, d);
      it := it + len;
      if it == end { d := WriteColon(dest, d); }
      EmittedElision(ws, 0, len);
    }
    while it != end
      invariant 0 < it <= end && d <= dest.Length
      invariant best == -1 || it <= best || best + len <= it
      invariant dest[..d] == Emitted(ws, best, len, it)
      decreases end - it
    {
      EmittedLength(ws, best, len, it);
      ghost var at := it;
      d := WriteColon(dest, d);
      if it == best {
        it := it + len;
        if it == end { d := WriteColon(dest, d); }
        EmittedElision(ws, best, len);
        EmittedPrefix(ws, best, len);
        continue;
      }
      assert WordAt(addr, it) == ws[it] by { WordOf(addr, end, it); }
      d := PrintHex(dest, d, WordAt(addr, it));
      EmittedWord(ws, best, len, it);
      it := it + 1;
    }
    EmittedLength(ws, best, len, end);
    EmittedAll(ws, best, len);
  }

  lemma WordOf(addr: Octets, end: nat, k: nat)
    requires k < end <= 8
    ensures WordAt(addr, k) == WordsOf(addr)[..end][k]
  {
  }

  lemma FirstWord(addr: Octets, end: nat, best: int, len: nat)
    requires 0 < end <= 8 && (best == -1 || 1 <= best)
    ensures Emitted(WordsOf(addr)[..end], best, len, 1) == HexText(WordAt(addr, 0))
  {
    hide HexText;
    var ws := WordsOf(addr)[..end];
    assert HexTexts(ws[..1]) == [HexText(WordAt(addr, 0))];
    NoPrefixed();
    assert [HexText(WordAt(addr, 0))][1..] == [];
  }

  lemma EmittedPrefix(ws: seq<Word>, pos: nat, len: nat)
    requires pos <= |ws|
    ensures Emitted(ws, pos, len, pos) == Join(HexTexts(ws[..pos]))
  {
  }

  /** Prints into a buffer of MAX_STR_LEN characters: the text of the tree in which
      exactly the leftmost longest run of zero words is elided. */
  method PrintImpl(addr: Octets, dest: array<char>) returns (n: nat, ghost pos: int, ghost len: nat)
    requires dest.Length >= MAX_STR_LEN
    modifies dest
    ensures n <= dest.Length
    ensures IsBestRun(WordsOf(addr)[..HexWords(addr)], pos, len)
    ensures pos == -1 || 0 <= pos <= pos + len <= HexWords(addr)
    ensures dest[..n] == Text(PrintedTree(addr, pos, len))
    ensures exists t :: IsCanonical(addr, t, pos, len) && Text(t) == dest[..n]
  {
    PrintedIsCanonical(addr);
    hide IsCanonical, HexTree, Text, WordsOf, FromBytes, ToBytes, Ipv4Text;
    var v4 := IsV4Mapped(addr);
    var end := if v4 then 6 else 8;
    var best, run := FindBestRun(addr, end);
    pos, len := best, run;
    n := PrintWords(addr, end, best, run, dest);
    if v4 {
      ghost var t := HexTree(WordsOf(addr)[..6], best, run);
      var bytes: Quad := [addr[12], addr[13], addr[14], addr[15]];
      var a := FromBytes(bytes);
      n := WriteColon(dest, n);
      n := Ipv4Address.PrintImpl(a, dest, n);
      PackUnpack(bytes);
      assert bytes == addr[12..];
      MappedSide(addr, best, run);
      AppendText(t, Ipv4Text(bytes));
    }
  }

  lemma MappedSide(addr: Octets, pos: int, len: nat)
    requires IsV4Mapped(addr) && IsBestRun(WordsOf(addr)[..6], pos, len)
    ensures pos == 0 && len == 5
    ensures var t := HexTree(WordsOf(addr)[..6], pos, len);
            t == Tree([], true, ["ffff"]) && Side(t) != [] && (!t.elided ==> t.post == [])
  {
    hide HexText;
    MappedWords(addr);
    hide WordsOf, IsV4Mapped;
    var ws := WordsOf(addr)[..6];
    assert ws == [0, 0, 0, 0, 0, 0xffff];
    assert ZeroRun(ws, 0, 5);
    assert forall i, n | ZeroRun(ws, i, n) :: n <= 5 by {
      forall i, n | ZeroRun(ws, i, n) ensures n <= 5 { assert ws[5] != 0; }
    }
    BestRunUnique(ws, pos, len, 0, 5);
    hide IsBestRun, ZeroRun;
    LastMapped();
    assert ws[5..] == [0xffff] && HexTexts(ws[5..]) == [HexText(0xffff)];
    assert ws[..0] == [] && HexTexts(ws[..0]) == [];
  }

  lemma LastMapped()
    ensures HexText(0xffff) == "ffff"
  {
  }

  // ------------------------------------------------------------------- theorems

  lemma {:induction false} HexTextsWords(ws: seq<Word>)
    ensures GroupsWords(HexTexts(ws)) == ws && AllH16(HexTexts(ws))
  {
    hide HexText, GroupWords, IsH16;
    if ws != [] {
      HexTextsWords(ws[1..]);
      HexTextReads(ws[0]);
      H16Words(HexText(ws[0]));
      assert HexTexts(ws)[1..] == HexTexts(ws[1..]);
    }
    forall i | 0 <= i < |ws| ensures IsH16(HexTexts(ws)[i]) { HexTextReads(ws[i]); }
  }

  /** What is printed is a derivation of the grammar, and it denotes the address. */
  lemma PrintedTreeDenotes(addr: Octets, pos: int, len: nat)
    requires pos == -1 || 0 <= pos <= pos + len <= HexWords(addr)
    requires IsBestRun(WordsOf(addr)[..HexWords(addr)], pos, len)
    ensures IsDerivation(PrintedTree(addr, pos, len))
    ensures Denotes(PrintedTree(addr, pos, len)) == WordsOf(addr)
  {
    if IsV4Mapped(addr) { MappedDenotes(addr, pos, len); } else { PlainDenotes(addr, pos, len); }
  }

  lemma PlainDenotes(addr: Octets, pos: int, len: nat)
    requires !IsV4Mapped(addr) && (pos == -1 || 0 <= pos <= pos + len <= 8)
    requires IsBestRun(WordsOf(addr)[..8], pos, len)
    ensures IsDerivation(PrintedTree(addr, pos, len))
    ensures Denotes(PrintedTree(addr, pos, len)) == WordsOf(addr)
  {
    hide HexTexts, GroupsWords, IsDerivation;
    var ws: Words8 := WordsOf(addr);
    hide WordsOf;
    assert ws[..8] == ws;
    var t := PrintedTree(addr, pos, len);
    if pos == -1 {
      HexTextsWords(ws);
      NoWords();
      AllH16Fits(t);
      assert Expand(ws, []) == ws;
    } else {
      HexTextsWords(ws[..pos]);
      HexTextsWords(ws[pos + len..]);
      AllH16Fits(t);
      assert ZeroRun(ws, pos, len);
      assert Expand(ws[..pos], ws[pos + len..]) == ws;
    }
  }

  lemma MappedDenotes(addr: Octets, pos: int, len: nat)
    requires IsV4Mapped(addr) && (pos == -1 || 0 <= pos <= pos + len <= 6)
    requires IsBestRun(WordsOf(addr)[..6], pos, len)
    ensures PrintedTree(addr, pos, len) == Tree([], true, ["ffff", Ipv4Text(addr[12..])])
    ensures IsDerivation(PrintedTree(addr, pos, len))
    ensures Denotes(PrintedTree(addr, pos, len)) == WordsOf(addr)
  {
    var t := PrintedTree(addr, pos, len);
    hide *;
    var q: Quad := addr[12..];
    var g := Ipv4Text(q);
    var ffff := Tree([], true, ["ffff"]);
    PrintedMapped(addr, pos, len);
    MappedGroups(q);
    AppendDottedFits(ffff, g) by { SmallTree(); }
    NoWords();
    var ws := [0xffff, BigEndian(q[0], q[1]), BigEndian(q[2], q[3])];
    DenotesIs(t, [], ws);
    MappedExpand(addr);
  }

  lemma SmallTree()
    ensures var t := Tree([], true, ["ffff"]); AllH16(t.pre) && AllH16(t.post)
  {
  }

  lemma PrintedMapped(addr: Octets, pos: int, len: nat)
    requires IsV4Mapped(addr) && (pos == -1 || 0 <= pos <= pos + len <= 6)
    requires IsBestRun(WordsOf(addr)[..6], pos, len)
    ensures PrintedTree(addr, pos, len) == Append(Tree([], true, ["ffff"]), Ipv4Text(addr[12..]))
    ensures PrintedTree(addr, pos, len) == Tree([], true, ["ffff", Ipv4Text(addr[12..])])
  {
    hide HexTexts, Ipv4Text, IsBestRun, WordsOf, HexTree, IsV4Mapped;
    MappedSide(addr, pos, len);
    assert ["ffff"] + [Ipv4Text(addr[12..])] == ["ffff", Ipv4Text(addr[12..])];
  }

  lemma DenotesIs(t: Tree, p: seq<Word>, q: seq<Word>)
    requires IsDerivation(t) && GroupsWords(t.pre) == p && GroupsWords(t.post) == q && |p| + |q| <= 8
    ensures Denotes(t) == Expand(p, q)
  {
  }

  lemma MappedExpand(addr: Octets)
    requires IsV4Mapped(addr)
    ensures WordsOf(addr) ==
            Expand([], [0xffff, BigEndian(addr[12..][0], addr[12..][1]), BigEndian(addr[12..][2], addr[12..][3])])
  {
    MappedWords(addr);
    hide IsV4Mapped, WordsOf;
  }

  lemma MappedGroups(q: Quad)
    ensures IsIpv4Address(Ipv4Text(q)) && IsH16("ffff")
    ensures GroupsWords(["ffff", Ipv4Text(q)]) == [0xffff, BigEndian(q[0], q[1]), BigEndian(q[2], q[3])]
  {
    hide Ipv4Text;
    var g := Ipv4Text(q);
    assert IsIpv4Address(g);
    PrintingIsInjective(q, QuadOf(g));
    hide IsIpv4Address;
    FourDigits('f', 'f', 'f', 'f');
    H16Words("ffff");
    OneGroupWords(g);
    assert ["ffff", g][1..] == [g];
  }

  lemma MappedWords(addr: Octets)
    requires IsV4Mapped(addr)
    ensures WordsOf(addr) == [0, 0, 0, 0, 0, 0xffff, BigEndian(addr[12], addr[13]), BigEndian(addr[14], addr[15])]
  {
    assert forall i | 0 <= i < 5 :: addr[2 * i] == 0 && addr[2 * i + 1] == 0;
  }

  /** The v4-mapped addresses are the images of the IPv4 addresses. */
  lemma MappedIsImage(addr: Octets)
    ensures IsV4Mapped(addr) <==> exists q: Quad :: addr == FromIpv4(q)
  {
    if IsV4Mapped(addr) {
      var q: Quad := addr[12..];
      assert addr == FromIpv4(q);
    }
  }

  lemma HexTextsShort(ws: seq<Word>)
    ensures ShortTextsOf(HexTexts(ws), ws)
  {
    hide HexText, IsShortest, H16Value;
    forall i | 0 <= i < |ws|
      ensures var g := HexTexts(ws)[i]; IsShortest(g) && IsH16(g) && H16Value(g) == ws[i]
    {
      HexTextShortest(ws[i]);
      HexTextReads(ws[i]);
    }
  }

  lemma PrintedIsCanonical(addr: Octets)
    ensures forall pos: int, len: nat {:trigger PrintedTree(addr, pos, len)} |
              (pos == -1 || 0 <= pos <= pos + len <= HexWords(addr)) &&
              IsBestRun(WordsOf(addr)[..HexWords(addr)], pos, len) ::
                IsCanonical(addr, PrintedTree(addr, pos, len), pos, len)
  {
    forall pos: int, len: nat |
      (pos == -1 || 0 <= pos <= pos + len <= HexWords(addr)) && IsBestRun(WordsOf(addr)[..HexWords(addr)], pos, len)
      ensures IsCanonical(addr, PrintedTree(addr, pos, len), pos, len)
    {
      if IsV4Mapped(addr) { MappedCanonical(addr, pos, len); } else { PlainCanonical(addr, pos, len); }
    }
  }

  lemma RunMeansZero(ws: seq<Word>, pos: int, len: nat)
    requires IsBestRun(ws, pos, len)
    ensures pos != -1 <==> exists k | 0 <= k < |ws| :: ws[k] == 0
  {
    if pos != -1 { assert ws[pos] == 0; }
    if k :| 0 <= k < |ws| && ws[k] == 0 { assert ZeroRun(ws, k, 1); }
  }

  lemma PlainCanonical(addr: Octets, pos: int, len: nat)
    requires !IsV4Mapped(addr) && (pos == -1 || 0 <= pos <= pos + len <= 8)
    requires IsBestRun(WordsOf(addr)[..8], pos, len)
    ensures IsCanonical(addr, PrintedTree(addr, pos, len), pos, len)
  {
    hide IsV4Mapped, IsBestRun, WordsOf, ShortTextsOf, HexTexts, FromIpv4;
    MappedIsImage(addr);
    var ws := WordsOf(addr);
    assert ws[..8] == ws;
    RunMeansZero(ws, pos, len);
    HexTextsShort(ws);
    var t := PrintedTree(addr, pos, len);
    if pos != -1 {
      HexTextsShort(ws[..pos]);
      HexTextsShort(ws[pos + len..]);
      assert t.post[..|t.post|] == t.post && t.post[|t.post|..] == [];
    }
  }

  lemma MappedCanonical(addr: Octets, pos: int, len: nat)
    requires IsV4Mapped(addr) && (pos == -1 || 0 <= pos <= pos + len <= 6)
    requires IsBestRun(WordsOf(addr)[..6], pos, len)
    ensures IsCanonical(addr, PrintedTree(addr, pos, len), pos, len)
  {
    MappedWords(addr);
    MappedSide(addr, pos, len);
    PrintedMapped(addr, pos, len);
    hide IsV4Mapped, IsBestRun, WordsOf, ShortTextsOf, HexTexts, FromIpv4, PrintedTree, Ipv4Text;
    MappedIsImage(addr);
    var ws, t := WordsOf(addr)[..6], PrintedTree(addr, pos, len);
    assert ws[0] == 0;
    HexTextsShort([]);
    HexTextsShort([0xffff]);
    LastTexts();
    assert ws[..0] == [] && ws[5..] == [0xffff];
    assert t.post[..1] == ["ffff"] && t.post[1..] == [Ipv4Text(addr[12..])];
  }

  lemma LastTexts()
    ensures HexTexts([]) == [] && HexTexts([0xffff]) == ["ffff"]
  {
    LastMapped();
  }

  lemma ShortTextsUnique(gs: seq<string>, hs: seq<string>, ws: seq<Word>)
    requires ShortTextsOf(gs, ws) && ShortTextsOf(hs, ws)
    ensures gs == hs
  {
    hide IsShortest, HexText, H16Value;
    forall i | 0 <= i < |ws| ensures gs[i] == hs[i] {
      ShortestIsPrinted(gs[i]);
      ShortestIsPrinted(hs[i]);
    }
  }

  lemma SurroundsIsUnique(ws: seq<Word>, tail: seq<string>, t: Tree, u: Tree, pos: int, len: nat)
    requires Surrounds(ws, tail, t, pos, len) && Surrounds(ws, tail, u, pos, len)
    ensures t == u
  {
    hide ShortTextsOf;
    if t.elided {
      var m, n := |t.post| - |tail|, |u.post| - |tail|;
      ShortTextsUnique(t.pre, u.pre, ws[..pos]);
      ShortTextsUnique(t.post[..m], u.post[..n], ws[pos + len..]);
      assert t.post == t.post[..m] + t.post[m..] && u.post == u.post[..n] + u.post[n..];
    } else {
      ShortTextsUnique(t.pre, u.pre, ws);
    }
  }

  /** These conditions leave one tree for each address and run. */
  lemma CanonicalIsUnique(addr: Octets, t: Tree, u: Tree, pos: int, len: nat)
    requires IsCanonical(addr, t, pos, len) && IsCanonical(addr, u, pos, len)
    ensures t == u
  {
    hide Surrounds, WordsOf, FromIpv4, Ipv4Text;
    if exists q: Quad :: addr == FromIpv4(q) {
      SurroundsIsUnique(WordsOf(addr)[..6], [Ipv4Text(addr[12..])], t, u, pos, len);
    } else {
      SurroundsIsUnique(WordsOf(addr), [], t, u, pos, len);
    }
  }

  /** At most 39 characters are written, and at most 22 for an IPv4-mapped address. */
  lemma PrintedLength(addr: Octets, pos: int, len: nat)
    requires pos == -1 || 0 <= pos <= pos + len <= HexWords(addr)
    requires IsBestRun(WordsOf(addr)[..HexWords(addr)], pos, len)
    ensures |Text(PrintedTree(addr, pos, len))| <= if IsV4Mapped(addr) then 22 else 39
  {
    hide HexText, GroupsWords, IsDerivation, WordsOf, Ipv4Text, Prefixed;
    if IsV4Mapped(addr) {
      MappedDenotes(addr, pos, len);
      JoinTwo("ffff", Ipv4Text(addr[12..]));
    } else {
      hide Join;
      var ws := WordsOf(addr)[..8];
      ShortTexts(ws);
      JoinLength(HexTexts(ws));
      if pos != -1 {
        ShortTexts(ws[..pos]);
        JoinLength(HexTexts(ws[..pos]));
        ShortTexts(ws[pos + len..]);
        JoinLength(HexTexts(ws[pos + len..]));
      }
    }
  }

  /** The text of an IPv4-mapped address. */
  lemma MappedText(q: Quad, pos: int, len: nat)
    requires pos == -1 || 0 <= pos <= pos + len <= 6
    requires IsBestRun(WordsOf(FromIpv4(q))[..6], pos, len)
    ensures Text(PrintedTree(FromIpv4(q), pos, len)) == "::ffff:" + Ipv4Text(q)
  {
    hide Ipv4Text, WordsOf, IsBestRun, PrintedTree;
    assert FromIpv4(q)[12..] == q;
    MappedDenotes(FromIpv4(q), pos, len);
    JoinTwo("ffff", Ipv4Text(q));
    NoPrefixed();
    hide Join;
    assert "" + "::" + ("ffff" + ":" + Ipv4Text(q)) == "::ffff:" + Ipv4Text(q);
  }

  lemma JoinTwo(g: string, h: string)
    ensures Join([g, h]) == g + ":" + h
  {
    assert [g, h][1..] == [h] && [h][1..] == [];
    NoPrefixed();
    assert Prefixed([h]) == ":" + h;
  }

  /** Parsing the printed text gives back the sixteen bytes, for every address. */
  method PrintThenParse(addr: Octets) returns (back: Octets)
    ensures back == addr
  {
    hide IsBestRun, PrintedTree, Text, IsDerivation, Denotes, IsIpv6Address, OctetsOf, WordsOf;
    var buf := new char[MAX_STR_LEN];
    var n, pos, len := PrintImpl(addr, buf);
    var text := buf[..n];
    PrintedTreeDenotes(addr, pos, len);
    ghost var t := PrintedTree(addr, pos, len);
    IsAddress(t);
    var ok;
    ok, back := ParseIpv6Address(text, addr);
    assert back == OctetsOf(Denotes(t));
    OctetsRoundTrip(addr);
  }

  lemma IsAddress(t: Tree)
    requires IsDerivation(t)
    ensures IsIpv6Address(Text(t))
  {
  }

  /** Different addresses print differently. */
  lemma TextDeterminesAddress(a: Octets, apos: int, alen: nat, b: Octets, bpos: int, blen: nat)
    requires apos == -1 || 0 <= apos <= apos + alen <= HexWords(a)
    requires bpos == -1 || 0 <= bpos <= bpos + blen <= HexWords(b)
    requires IsBestRun(WordsOf(a)[..HexWords(a)], apos, alen) && IsBestRun(WordsOf(b)[..HexWords(b)], bpos, blen)
    requires Text(PrintedTree(a, apos, alen)) == Text(PrintedTree(b, bpos, blen))
    ensures a == b
  {
    hide WordsOf, IsBestRun, PrintedTree, Text, IsDerivation, Denotes;
    PrintedTreeDenotes(a, apos, alen);
    PrintedTreeDenotes(b, bpos, blen);
    ValueIsUnique(PrintedTree(a, apos, alen), PrintedTree(b, bpos, blen));
    OctetsRoundTrip(a);
    OctetsRoundTrip(b);
  }
}
