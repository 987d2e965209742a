/** The IPv6 address scanner as a state machine: one step per round of the parser's
    loop, and the proof that its runs accept exactly the grammar. */
module Ipv6Scan {
  import opened Basics
  import opened Ipv4Address
  import opened Ipv6Grammar

  /** Text not yet read, text from the start of the last group, words before and
      after "::", whether "::" was seen, whether a colon must come next. */
  datatype State = State(rest: string, prev: string, pre: seq<Word>, seen: bool, post: seq<Word>, colon: bool) {
    /** Words still needed: "::" stands for at least one. */
    function Needed(): int { 8 - |pre| - |post| - (if seen then 1 else 0) }

    function LastWord(): Word
      requires if seen then post != [] else pre != []
    {
      if seen then post[|post| - 1] else pre[|pre| - 1]
    }

    function AddWord(w: Word, r: string, p: string): State {
      if seen then State(r, p, pre, true, post + [w], true) else State(r, p, pre + [w], false, post, true)
    }

    predicate Valid() {
      && Needed() >= 1
      && (!seen ==> post == [])
      && |rest| <= |prev| && prev[|prev| - |rest|..] == rest
      && if colon then (if seen then post != [] else pre != [])
         else if seen then post == [] && ':' in prev
         else pre == []
    }
  }

  datatype Outcome = Continue(next: State) | Accept(pre: seq<Word>, post: seq<Word>) | Reject

  function Start(s: string): State { State(s, s, [], false, [], false) }

  /** The number of hexadecimal digits, at most `max`, that `r` starts with. */
  function HexPrefix(r: string, max: nat): (k: nat)
    ensures k <= max && k <= |r| && AllHex(r[..k])
    ensures k == max || k == |r| || !IsHexDigit(r[k])
  {
    if max == 0 || r == "" || !IsHexDigit(r[0]) then 0 else
    var k := HexPrefix(r[1..], max - 1);
    assert r[..k + 1] == [r[0]] + r[1..][..k];
    k + 1
  }

  lemma {:induction false} HexPrefixOf(g: string, r: string, max: nat)
    requires AllHex(g) && |g| <= max && (|g| == max || r == "" || !IsHexDigit(r[0]))
    ensures HexPrefix(g + r, max) == |g|
  {
    if g == "" {
      assert g + r == r;
    } else {
      assert (g + r)[1..] == g[1..] + r;
      HexPrefixOf(g[1..], r, max - 1);
    }
  }

  /** A word whose hexadecimal digits, read as decimal, can be 0..255. */
  predicate MaybeOctet(w: Word) {
    w <= 0x255 && w / 16 % 16 <= 9 && w % 16 <= 9
  }

  /** Reads one h16 at `r`. The run ends when the eighth word is stored. */
  function TakeWord(st: State, r: string): (o: Outcome)
    requires st.Valid()
    ensures o.Continue? ==> o.next.Valid() && |o.next.rest| < |r|
  {
    var k := HexPrefix(r, 4);
    if k == 0 then Reject else
    var next := st.AddWord(H16Value(r[..k]), r[k..], r);
    if next.Needed() > 0 then Continue(next)
    else if next.rest == "" then Accept(next.pre, next.post)
    else Reject
  }

  /** The two words of the dotted tail take the place of the last word read. */
  ghost function TakeDotted(st: State): (o: Outcome)
    requires st.Valid() && st.colon && IsIpv4Address(st.prev)
    ensures o.Accept?
  {
    if st.seen then Accept(st.pre, st.post[..|st.post| - 1] + GroupWords(st.prev))
    else Accept(st.pre[..|st.pre| - 1] + GroupWords(st.prev), [])
  }

  ghost function Step(st: State): (o: Outcome)
    requires st.Valid()
    ensures o.Continue? ==> o.next.Valid() && |o.next.rest| < |st.rest|
  {
    var r := st.rest;
    if r == "" then if st.seen then Accept(st.pre, st.post) else Reject
    else if r[0] == ':' then
      var r1 := r[1..];
      if r1 == "" then Reject
      else if r1[0] == ':' then
        if st.seen then Reject
        else if st.Needed() == 1 then if r1[1..] == "" then Accept(st.pre, []) else Reject
        else
          assert st.prev[|st.prev| - |r|] == ':';
          Continue(State(r1[1..], st.prev, st.pre, true, [], false))
      else if st.colon then TakeWord(st, r1)
      else Reject
    else if r[0] == '.' then
      if !st.seen && st.Needed() > 1 then Reject
      else if st.colon && MaybeOctet(st.LastWord()) && IsIpv4Address(st.prev) then TakeDotted(st)
      else Reject
    else if st.seen && !IsHexDigit(r[0]) then Reject
    else if !st.colon then TakeWord(st, r)
    else Reject
  }

  ghost function Run(st: State): (o: Outcome)
    requires st.Valid()
    ensures !o.Continue?
    decreases |st.rest|
  {
    var o := Step(st);
    if o.Continue? then Run(o.next) else o
  }

  // ----------------------------------------------------------- texts of groups

  lemma {:induction false} PrefixedAppend(gs: seq<string>, g: string)
    ensures Prefixed(gs + [g]) == Prefixed(gs) + ":" + g
  {
    if gs == [] {
      assert [g][1..] == [];
    } else {
      PrefixedAppend(gs[1..], g);
      assert (gs + [g])[1..] == gs[1..] + [g];
    }
  }

  lemma JoinAppend(gs: seq<string>, g: string)
    ensures Join(gs + [g]) == if gs == [] then g else Join(gs) + ":" + g
  {
    if gs != [] {
      PrefixedAppend(gs[1..], g);
      assert (gs + [g])[1..] == gs[1..] + [g];
    }
  }

  lemma {:induction false} GroupsWordsAppend(gs: seq<string>, g: string)
    ensures GroupsWords(gs + [g]) == GroupsWords(gs) + GroupWords(g)
  {
    hide GroupWords;
    if gs == [] {
      assert [g][1..] == [] && gs + [g] == [g];
    } else {
      GroupsWordsAppend(gs[1..], g);
      assert (gs + [g])[1..] == gs[1..] + [g];
      assert GroupWords(gs[0]) + (GroupsWords(gs[1..]) + GroupWords(g)) == GroupsWords(gs) + GroupWords(g);
    }
  }

  lemma H16Words(g: string)
    requires IsH16(g)
    ensures !IsIpv4Address(g) && GroupWords(g) == [H16Value(g)]
  {
    if IsIpv4Address(g) { DottedIsNotHex(g); }
  }

  /** The tree with one more group on the side being read. */
  function Append(t: Tree, g: string): Tree {
    if t.elided then Tree(t.pre, true, t.post + [g]) else Tree(t.pre + [g], false, t.post)
  }

  function Side(t: Tree): seq<string> { if t.elided then t.post else t.pre }

  lemma AppendText(t: Tree, g: string)
    requires !t.elided ==> t.post == []
    ensures Text(Append(t, g)) == Text(t) + (if Side(t) == [] then "" else ":") + g
  {
    JoinAppend(Side(t), g);
  }

  // ---------------------------------------------------------------- soundness

  /** The state has read the groups of `t`, all of them h16, from the start of `s`. */
  ghost predicate HasRead(s: string, st: State, t: Tree) {
    && t.elided == st.seen
    && AllH16(t.pre) && AllH16(t.post)
    && GroupsWords(t.pre) == st.pre && GroupsWords(t.post) == st.post
    && (!t.elided ==> t.post == [])
    && |t.pre| == |st.pre| && |t.post| == |st.post|
    && s == Text(t) + st.rest
    && (st.colon ==> Side(t) != [] && st.prev == Side(t)[|Side(t)| - 1] + st.rest)
  }

  /** An accepting outcome is a derivation of the whole text with its words. */
  ghost predicate Derived(s: string, o: Outcome, t: Tree) {
    && o.Accept? && IsDerivation(t) && Text(t) == s
    && GroupsWords(t.pre) == o.pre && GroupsWords(t.post) == o.post
  }

  /** One more h16 group read is one more group of the tree. */
  lemma AddWordReads(s: string, st: State, t: Tree, g: string, r: string)
    requires st.Valid() && HasRead(s, st, t) && IsH16(g)
    requires st.rest == (if st.colon then ":" else "") + (g + r)
    ensures HasRead(s, st.AddWord(H16Value(g), r, g + r), Append(t, g))
  {
    hide IsIpv4Address, GroupsWords, GroupWords, Text, H16Value, IsH16;
    AppendText(t, g);
    GroupsWordsAppend(Side(t), g);
    H16Words(g);
    AppendedRest(t, st.colon, g, r);
  }

  lemma TakeWordSound(s: string, st: State, t: Tree, r: string) returns (u: Tree)
    requires st.Valid() && HasRead(s, st, t)
    requires st.rest == (if st.colon then ":" else "") + r
    ensures TakeWord(st, r).Continue? ==> HasRead(s, TakeWord(st, r).next, u)
    ensures TakeWord(st, r).Accept? ==> Derived(s, TakeWord(st, r), u)
  {
    hide IsIpv4Address, GroupsWords, Text, HexPrefix, H16Value, IsDerivation;
    var k := HexPrefix(r, 4);
    if k == 0 { return t; }
    var g := r[..k];
    assert r == g + r[k..];
    u := Append(t, g);
    AddWordReads(s, st, t, g, r[k..]);
    if TakeWord(st, r).Accept? {
      assert s == Text(u) + "";
      AllH16Fits(u);
    }
  }

  lemma AppendedRest(t: Tree, colon: bool, g: string, r: string)
    ensures Text(t) + ((if colon then ":" else "") + (g + r)) == Text(t) + (if colon then ":" else "") + g + r
  {
  }

  lemma AllH16Fits(t: Tree)
    requires AllH16(t.pre) && AllH16(t.post)
    requires if t.elided then |t.pre| + |t.post| <= 7 else t.post == [] && |t.pre| == 8
    ensures IsDerivation(t)
  {
    forall g: string | g in t.pre || g in t.post ensures !IsIpv4Address(g) { H16Words(g); }
    DerivationFits(t);
  }

  /** The tree without the last group that was read. */
  function DropLast(t: Tree): (t0: Tree)
    requires Side(t) != [] && (!t.elided ==> t.post == [])
    ensures Append(t0, Side(t)[|Side(t)| - 1]) == t
    ensures t0.elided == t.elided && Side(t0) == Side(t)[..|Side(t)| - 1]
    ensures t.elided ==> t0.pre == t.pre
    ensures !t.elided ==> t0.post == []
  {
    var k := |Side(t)| - 1;
    assert Side(t)[..k] + [Side(t)[k]] == Side(t);
    if t.elided then Tree(t.pre, true, t.post[..k]) else Tree(t.pre[..k], false, [])
  }

  lemma ReplaceLastText(t: Tree, g: string, r: string)
    requires Side(t) != [] && (!t.elided ==> t.post == []) && g == Side(t)[|Side(t)| - 1]
    ensures Text(Append(DropLast(t), g + r)) == Text(t) + r
  {
    hide Text, Append, DropLast;
    var t0 := DropLast(t);
    AppendText(t0, g);
    AppendText(t0, g + r);
    Regroup(Text(t0) + (if Side(t0) == [] then "" else ":"), g, r);
  }

  lemma ReplaceLastWords(t: Tree, g: string, p: string)
    requires Side(t) != [] && (!t.elided ==> t.post == []) && g == Side(t)[|Side(t)| - 1] && IsH16(g)
    ensures var ws := GroupsWords(Side(t));
            |ws| > 0 && GroupsWords(Side(Append(DropLast(t), p))) == ws[..|ws| - 1] + GroupWords(p)
  {
    hide GroupsWords, GroupWords, H16Value, IsIpv4Address;
    var gs := Side(DropLast(t));
    assert Side(t) == gs + [g] && Side(Append(DropLast(t), p)) == gs + [p];
    GroupsWordsAppend(gs, g);
    GroupsWordsAppend(gs, p);
    H16Words(g);
    assert (GroupsWords(gs) + GroupWords(g))[..|GroupsWords(gs)|] == GroupsWords(gs);
  }

  lemma AppendDottedFits(t: Tree, p: string)
    requires AllH16(t.pre) && AllH16(t.post) && IsIpv4Address(p)
    requires if t.elided then |t.pre| + |t.post| + 2 <= 7 else t.post == [] && |t.pre| == 6
    ensures IsDerivation(Append(t, p))
  {
    hide IsIpv4Address, IsDerivation, IsH16;
    DerivationFits(Append(t, p));
  }

  lemma TakeDottedSound(s: string, st: State, t: Tree) returns (u: Tree)
    requires st.Valid() && HasRead(s, st, t) && st.colon && IsIpv4Address(st.prev)
    requires st.seen || st.Needed() == 1
    ensures Derived(s, TakeDotted(st), u)
  {
    hide IsIpv4Address, GroupsWords, GroupWords, Text, IsDerivation, IsH16;
    var g := Side(t)[|Side(t)| - 1];
    u := Append(DropLast(t), st.prev);
    ReplaceLastText(t, g, st.rest);
    ReplaceLastWords(t, g, st.prev);
    AppendDottedFits(DropLast(t), st.prev);
  }

  /** Reading "::" before any other. */
  lemma ElideSound(s: string, st: State, t: Tree) returns (u: Tree)
    requires st.Valid() && HasRead(s, st, t) && !st.seen && "::" <= st.rest
    ensures Step(st).Continue? ==> HasRead(s, Step(st).next, u)
    ensures Step(st).Accept? ==> Derived(s, Step(st), u)
  {
    hide IsIpv4Address, GroupsWords, GroupWords, Prefixed, TakeWord, TakeDotted, H16Value, IsDerivation, IsH16;
    var r := st.rest;
    u := Tree(t.pre, true, []);
    assert r == "::" + r[2..] && r[1..][1..] == r[2..];
    Regroup(Text(t), "::", r[2..]);
    assert Text(u) == Text(t) + "::";
    NoWords();
    if Step(st).Accept? { AllH16Fits(u); }
  }

  lemma NoWords()
    ensures GroupsWords([]) == []
  {
  }

  lemma ColonSound(s: string, st: State, t: Tree) returns (u: Tree)
    requires st.Valid() && HasRead(s, st, t) && st.rest != "" && st.rest[0] == ':'
    ensures Step(st).Continue? ==> HasRead(s, Step(st).next, u)
    ensures Step(st).Accept? ==> Derived(s, Step(st), u)
  {
    hide IsIpv4Address, GroupsWords, GroupWords, Text, TakeWord, TakeDotted, H16Value, IsDerivation, IsH16, HasRead;
    var r := st.rest;
    u := t;
    if |r| > 1 && r[1] == ':' {
      if !st.seen { u := ElideSound(s, st, t); }
    } else if |r| > 1 && st.colon {
      u := TakeWordSound(s, st, t, r[1..]);
    } else {
      assert |r| == 1 ==> r[1..] == "";
    }
  }

  lemma EndSound(s: string, st: State, t: Tree)
    requires st.Valid() && HasRead(s, st, t) && st.rest == "" && st.seen
    ensures Step(st).Accept? ==> Derived(s, Step(st), t)
  {
    hide IsIpv4Address, GroupsWords, GroupWords, TakeWord, TakeDotted, H16Value, IsDerivation, IsH16, Text;
    assert s == Text(t);
    AllH16Fits(t);
  }

  lemma StepSound(s: string, st: State, t: Tree) returns (u: Tree)
    requires st.Valid() && HasRead(s, st, t)
    ensures Step(st).Continue? ==> HasRead(s, Step(st).next, u)
    ensures Step(st).Accept? ==> Derived(s, Step(st), u)
  {
    hide IsIpv4Address, TakeWord, TakeDotted, HasRead, Derived;
    var r := st.rest;
    u := t;
    if r == "" {
      if st.seen { EndSound(s, st, t); }
    } else if r[0] == ':' {
      u := ColonSound(s, st, t);
    } else if r[0] == '.' {
      if Step(st).Accept? { u := TakeDottedSound(s, st, t); }
    } else if !st.colon {
      assert r == "" + r;
      u := TakeWordSound(s, st, t, r);
    }
  }

  lemma {:induction false} RunSound(s: string, st: State, t: Tree) returns (u: Tree)
    requires st.Valid() && HasRead(s, st, t)
    ensures Run(st).Accept? ==> Derived(s, Run(st), u)
    decreases |st.rest|
  {
    u := StepSound(s, st, t);
    if Step(st).Continue? { u := RunSound(s, Step(st).next, u); }
  }

  // -------------------------------------------------------------- completeness

  /** The text that is left when the groups `rp`, then perhaps "::" and the groups
      `rq`, remain to be read. */
  function Remaining(colon: bool, rp: seq<string>, e: bool, rq: seq<string>): string {
    (if colon then Prefixed(rp) else Join(rp)) + (if e then "::" + Join(rq) else "")
  }

  /** Those groups complete the state to a derivation. */
  ghost predicate Completes(st: State, rp: seq<string>, e: bool, rq: seq<string>) {
    && st.rest == Remaining(st.colon, rp, e, rq)
    && if e then !st.seen && AllH16(rp) && IsGroupList(rq) && |st.pre| + |rp| + Weight(rq) <= 7
       else if st.seen then IsGroupList(rp) && |st.pre| + |st.post| + Weight(rp) <= 7
       else IsGroupList(rp) && |st.pre| + Weight(rp) == 8
  }

  /** The outcome that the groups lead to. */
  ghost function Completed(st: State, rp: seq<string>, e: bool, rq: seq<string>): Outcome {
    if e then Accept(st.pre + GroupsWords(rp), GroupsWords(rq))
    else if st.seen then Accept(st.pre, st.post + GroupsWords(rp))
    else Accept(st.pre + GroupsWords(rp), [])
  }

  lemma RemainingSplits(colon: bool, rp: seq<string>, e: bool, rq: seq<string>)
    requires rp != []
    ensures var tail := Remaining(true, rp[1..], e, rq);
            && Remaining(colon, rp, e, rq) == (if colon then ":" else "") + (rp[0] + tail)
            && (tail == "" || tail[0] == ':')
            && (tail == "" <==> rp[1..] == [] && !e)
  {
    var gs, more := rp[1..], if e then "::" + Join(rq) else "";
    Regroup(rp[0], Prefixed(gs), more);
    if colon {
      assert Prefixed(rp) == ":" + (rp[0] + Prefixed(gs));
      Regroup(":", rp[0] + Prefixed(gs), more);
    }
  }

  lemma {:induction false} AllH16Weight(gs: seq<string>)
    requires AllH16(gs)
    ensures Weight(gs) == |gs| && IsGroupList(gs)
  {
    if gs != [] { H16Words(gs[|gs| - 1]); }
  }

  lemma WeightTail(gs: seq<string>)
    requires IsGroupList(gs) && gs != [] && IsH16(gs[0])
    ensures IsGroupList(gs[1..]) && Weight(gs) == 1 + Weight(gs[1..])
  {
    H16Words(gs[0]);
  }

  /** A step at an h16 group reads that group and nothing more. */
  lemma StepAtGroup(st: State, g: string, tail: string)
    requires st.Valid() && IsH16(g) && (tail == "" || !IsHexDigit(tail[0]))
    requires st.rest == (if st.colon then ":" else "") + (g + tail)
    ensures Step(st) == TakeWord(st, g + tail)
    ensures var next := st.AddWord(H16Value(g), tail, g + tail);
            Step(st) == if next.Needed() > 0 then Continue(next)
                        else if tail == "" then Accept(next.pre, next.post) else Reject
  {
    hide H16Value, HexPrefix, IsIpv4Address, TakeDotted, Step;
    StepTakes(st, g, tail);
    HexPrefixOf(g, tail, 4);
    assert (g + tail)[..|g|] == g && (g + tail)[|g|..] == tail;
  }

  lemma StepTakes(st: State, g: string, tail: string)
    requires st.Valid() && IsH16(g) && st.rest == (if st.colon then ":" else "") + (g + tail)
    ensures Step(st) == TakeWord(st, g + tail)
  {
    hide H16Value, HexPrefix, IsIpv4Address, TakeDotted, TakeWord;
    assert (g + tail)[0] == g[0];
    if st.colon { assert st.rest[1..] == g + tail; } else { assert st.rest == g + tail; }
  }

  /** The state after reading the first remaining group. */
  ghost function AfterGroup(st: State, rp: seq<string>, e: bool, rq: seq<string>): State
    requires rp != [] && IsH16(rp[0])
  {
    var tail := Remaining(true, rp[1..], e, rq);
    st.AddWord(H16Value(rp[0]), tail, rp[0] + tail)
  }

  lemma AfterGroupCompletes(st: State, rp: seq<string>, e: bool, rq: seq<string>)
    requires st.Valid() && Completes(st, rp, e, rq) && rp != [] && IsH16(rp[0])
    ensures Completes(AfterGroup(st, rp, e, rq), rp[1..], e, rq)
  {
    hide H16Value, IsIpv4Address, Weight, IsH16, Remaining;
    if e { AllH16Weight(rp[1..]); } else { WeightTail(rp); }
  }

  lemma AfterGroupCompleted(st: State, rp: seq<string>, e: bool, rq: seq<string>)
    requires st.Valid() && Completes(st, rp, e, rq) && rp != [] && IsH16(rp[0])
    ensures Completed(st, rp, e, rq) == Completed(AfterGroup(st, rp, e, rq), rp[1..], e, rq)
  {
    hide H16Value, IsIpv4Address, GroupWords, Weight, IsH16, Remaining;
    H16Words(rp[0]);
    var w, ws := H16Value(rp[0]), GroupsWords(rp[1..]);
    assert GroupsWords(rp) == [w] + ws;
    hide GroupsWords;
    assert st.pre + ([w] + ws) == (st.pre + [w]) + ws;
    assert st.post + ([w] + ws) == (st.post + [w]) + ws;
  }

  lemma FullMeansDone(st: State, rp: seq<string>, e: bool, rq: seq<string>)
    requires Completes(st, rp, e, rq) && st.Needed() <= 0 && (!st.seen ==> st.post == [])
    ensures st.rest == "" && Completed(st, rp, e, rq) == Accept(st.pre, st.post)
  {
    hide IsIpv4Address, IsH16;
    NoWords();
  }

  lemma CompleteGroup(st: State, rp: seq<string>, e: bool, rq: seq<string>)
    requires st.Valid() && Completes(st, rp, e, rq) && rp != [] && IsH16(rp[0])
    ensures var next := AfterGroup(st, rp, e, rq);
            && Completes(next, rp[1..], e, rq)
            && Completed(st, rp, e, rq) == Completed(next, rp[1..], e, rq)
            && Step(st) == if next.Needed() > 0 then Continue(next) else Completed(st, rp, e, rq)
  {
    hide H16Value, IsIpv4Address, GroupWords, GroupsWords, Weight, Step, TakeWord, Remaining, IsH16, Completed;
    RemainingSplits(st.colon, rp, e, rq);
    StepAtGroup(st, rp[0], Remaining(true, rp[1..], e, rq));
    AfterGroupCompletes(st, rp, e, rq);
    AfterGroupCompleted(st, rp, e, rq);
    var next := AfterGroup(st, rp, e, rq);
    hide Completes;
    if next.Needed() <= 0 { FullMeansDone(next, rp[1..], e, rq); }
  }

  /** The first octet of a dotted text is read as an h16 that may be an octet. */
  lemma DottedStart(g: string) returns (o: string)
    requires IsIpv4Address(g)
    ensures IsH16(o) && |o| < |g| && g == o + g[|o|..] && g[|o|] == '.'
    ensures MaybeOctet(H16Value(o))
  {
    hide OctetText, OctetAt, Ipv4Text, AfterOctet, H16Value;
    var q := QuadOf(g);
    o := OctetText(q[0]);
    OctetInText(q, 0);
    TextAroundOctet(q, 0);
    assert q[..0] == [];
    assert g == o + AfterOctet(q, 0);
    OctetReadsAsWord(q[0]);
  }

  lemma ThreeDigits(a: char, b: char, c: char)
    requires IsHexDigit(a) && IsHexDigit(b) && IsHexDigit(c)
    ensures AllHex([c]) && HexNumber([c]) == HexValue(c)
    ensures AllHex([b, c]) && HexNumber([b, c]) == HexValue(b) * 16 + HexValue(c)
    ensures AllHex([a, b, c]) && HexNumber([a, b, c]) == HexValue(a) * 256 + HexValue(b) * 16 + HexValue(c)
  {
    hide HexValue;
    assert [c][..0] == "" && [b][..0] == "" && [a][..0] == "";
    assert [b, c][..1] == [b] && [a, b][..1] == [a] && [a, b, c][..2] == [a, b];
    assert HexNumber([a]) == HexValue(a) && HexNumber([a, b]) == HexValue(a) * 16 + HexValue(b);
  }

  lemma Nibbles(a: nat, b: nat, c: nat)
    requires b < 16 && c < 16
    ensures var w := a * 256 + b * 16 + c; w / 16 == a * 16 + b && w / 16 % 16 == b && w % 16 == c
  {
  }

  /** No octet text is lost by the filter on the word it reads as. */
  lemma OctetReadsAsWord(v: Byte)
    ensures IsH16(OctetText(v)) && MaybeOctet(H16Value(OctetText(v)))
  {
    hide OctetText, HexNumber;
    var t := OctetText(v);
    var a, b, c := if |t| == 3 then t[0] else '0', if |t| >= 2 then t[|t| - 2] else '0', t[|t| - 1];
    assert t == [c] || t == [b, c] || t == [a, b, c];
    ThreeDigits(a, b, c);
    Nibbles(HexValue(a), HexValue(b), HexValue(c));
    assert HexNumber(t) == HexValue(a) * 256 + HexValue(b) * 16 + HexValue(c);
  }

  /** Two steps read a dotted tail: its first octet as a word, then all of it. */
  lemma CompleteDotted(st: State, g: string)
    requires st.Valid() && Completes(st, [g], false, []) && IsIpv4Address(g)
    ensures Run(st) == Completed(st, [g], false, [])
  {
    hide H16Value, IsIpv4Address, GroupWords, GroupsWords, IsH16, MaybeOctet, TakeWord;
    var o := DottedStart(g);
    var tail := g[|o|..];
    RemainingOne(st.colon, g);
    hide Remaining;
    var w := H16Value(o);
    var next := st.AddWord(w, tail, g);
    assert next.Needed() >= 1 && (next.seen || next.Needed() == 1);
    hide Completes, Weight;
    StepAtGroup(st, o, tail);
    hide Step;
    assert next.LastWord() == w;
    DottedStep(next, g);
    OneGroupWords(g);
    assert (st.post + [w])[..|st.post|] == st.post && (st.pre + [w])[..|st.pre|] == st.pre;
  }

  lemma RemainingOne(colon: bool, g: string)
    ensures Remaining(colon, [g], false, []) == (if colon then ":" else "") + g
  {
    assert [g][1..] == [];
    NoPrefixed();
    assert Prefixed([g]) == ":" + g && Join([g]) == g;
  }

  lemma OneGroupWords(g: string)
    ensures GroupsWords([g]) == GroupWords(g)
  {
    assert [g][1..] == [] && GroupWords(g) + [] == GroupWords(g);
  }

  lemma DottedStep(st: State, g: string)
    requires st.Valid() && st.colon && st.prev == g && IsIpv4Address(g)
    requires st.rest != "" && st.rest[0] == '.' && (st.seen || st.Needed() == 1)
    requires MaybeOctet(st.LastWord())
    ensures Run(st) == TakeDotted(st)
  {
    hide IsIpv4Address, MaybeOctet, GroupWords;
    assert Step(st) == TakeDotted(st);
  }

  lemma {:induction false} RunComplete(st: State, rp: seq<string>, e: bool, rq: seq<string>)
    requires st.Valid() && Completes(st, rp, e, rq)
    ensures Run(st) == Completed(st, rp, e, rq)
    decreases |st.rest|
  {
    hide H16Value, IsIpv4Address, GroupWords, GroupsWords, IsH16, TakeWord, TakeDotted;
    if rp != [] {
      if IsH16(rp[0]) {
        hide Completes, Completed, Step, Remaining;
        CompleteGroup(st, rp, e, rq);
        var next := AfterGroup(st, rp, e, rq);
        if next.Needed() > 0 { RunComplete(next, rp[1..], e, rq); }
      } else {
        hide Step, Remaining, Weight;
        assert rp == [rp[0]] && !e;
        RemainingNoElision(st.colon, rp, rq);
        assert Remaining(st.colon, rp, e, rq) == Remaining(st.colon, rp, e, []);
        CompleteDotted(st, rp[0]);
      }
    } else {
      CompleteEnd(st, e, rq);
      if e && st.Needed() > 1 { RunComplete(Step(st).next, rq, false, []); }
    }
  }

  lemma RemainingNoElision(colon: bool, rp: seq<string>, rq: seq<string>)
    ensures Remaining(colon, rp, false, rq) == Remaining(colon, rp, false, [])
  {
  }

  /** No group is left on this side: the text ends, or "::" comes next. */
  lemma CompleteEnd(st: State, e: bool, rq: seq<string>)
    requires st.Valid() && Completes(st, [], e, rq)
    ensures e && st.Needed() > 1 ==>
              && Step(st).Continue? && Completes(Step(st).next, rq, false, [])
              && Completed(Step(st).next, rq, false, []) == Completed(st, [], e, rq)
    ensures !(e && st.Needed() > 1) ==> Step(st) == Completed(st, [], e, rq)
  {
    hide IsIpv4Address, GroupWords, GroupsWords, IsH16, TakeWord, TakeDotted, Prefixed, Join, IsGroupList;
    NoWords();
    NoPrefixed();
    if e {
      assert st.rest == "::" + Join(rq);
      assert st.rest[1..][1..] == Join(rq);
      if st.Needed() > 1 {
        assert Remaining(false, rq, false, []) == Join(rq);
        assert [] + GroupsWords(rq) == GroupsWords(rq) && st.pre + [] == st.pre;
      }
    } else {
      assert st.rest == "" && st.post + [] == st.post;
    }
  }

  lemma NoPrefixed()
    ensures Prefixed([]) == "" == Join([])
  {
  }

  // ------------------------------------------------------------------ theorems

  /** A derivation is accepted with the words it denotes. */
  lemma DerivationAccepted(t: Tree)
    requires IsDerivation(t)
    ensures Run(Start(Text(t))) == Accept(GroupsWords(t.pre), GroupsWords(t.post))
  {
    hide IsDerivation, GroupsWords, GroupWords, IsIpv4Address, IsH16, Run;
    DerivationFits(t);
    NoWords();
    var st := Start(Text(t));
    assert st.rest == Remaining(false, t.pre, t.elided, t.post);
    RunComplete(st, t.pre, t.elided, t.post);
  }

  /** Exactly the grammar is accepted, and every derivation of the text gives the
      words of the accepting outcome. */
  lemma RunIsGrammar(s: string)
    ensures Run(Start(s)).Accept? <==> IsIpv6Address(s)
    ensures forall t: Tree | IsDerivation(t) && Text(t) == s ::
              Run(Start(s)) == Accept(GroupsWords(t.pre), GroupsWords(t.post))
  {
    hide IsDerivation, GroupsWords, GroupWords, IsIpv4Address, Run;
    NoWords();
    var u := RunSound(s, Start(s), Tree([], false, []));
    forall t: Tree | IsDerivation(t) && Text(t) == s
      ensures Run(Start(s)) == Accept(GroupsWords(t.pre), GroupsWords(t.post))
    {
      DerivationAccepted(t);
    }
  }

  /** One text denotes one address, however it is derived. */
  lemma ValueIsUnique(t: Tree, u: Tree)
    requires IsDerivation(t) && IsDerivation(u) && Text(t) == Text(u)
    ensures Denotes(t) == Denotes(u)
  {
    DerivationAccepted(t);
    DerivationAccepted(u);
  }
}
