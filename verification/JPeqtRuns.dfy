/** Runs of J-PEQT and JP-PEQT: parties with their own program counters, FIFO channels routed by the
    indices the code uses, and any interleaving of sends and receives. */
module JPeqtRuns {
  import opened Group
  import opened ElGamal
  import opened JPeqt

  datatype Msg<G> = Key(point: G) | Cts(cts: seq<CT<G>>)

  /** One direction of a socket of family 0 or 1. */
  datatype Chan = Chan(family: nat, from: nat, to: nat)

  datatype Instr = Send(family: nat, index: nat) | Recv(family: nat, index: nat) | Halt

  /** The peer behind entry `index` of a party's channel vectors: its own number is skipped. */
  function Peer(p: nat, index: nat): nat { if index < p then index else index + 1 }

  function Length(n: nat, p: nat): nat {
    if p == 0 then 3 * n + 2 else if p == n then 5 else 7
  }

  /** Communication of party p, in program order; n is the number of other parties. */
  function Code(n: nat, p: nat, pc: nat): Instr {
    if pc >= Length(n, p) then Halt
    else if p == 0 then
      if pc < n then Recv(0, pc)
      else if pc < 2 * n then Send(1, pc - n)
      else if pc < 3 * n then Recv(0, pc - 2 * n)
      else if pc == 3 * n then Send(1, 0)
      else Recv(0, 0)
    else if pc == 0 then Send(0, 0)
    else if pc == 1 then Recv(1, 0)
    else if pc == 2 then Send(0, 0)
    else if pc == 3 then Recv(1, p - 1)
    else if p == n then Send(0, p - 1)
    else if pc == 4 then Send(1, p)
    else if pc == 5 then Recv(0, p)
    else Send(0, p - 1)
  }

  function SendChan(p: nat, i: Instr): Chan
    requires i.Send?
  {
    Chan(i.family, p, Peer(p, i.index))
  }

  function RecvChan(p: nat, i: Instr): Chan
    requires i.Recv?
  {
    Chan(i.family, Peer(p, i.index), p)
  }

  /** Program counters, what each party has received so far, and what is in flight. */
  datatype State<G> = State(pc: seq<nat>, got: seq<seq<Msg<G>>>, flight: map<Chan, seq<Msg<G>>>)

  function Queue<G>(s: State<G>, c: Chan): seq<Msg<G>> {
    if c in s.flight then s.flight[c] else []
  }

  /** Ciphertext vectors of the right size, whatever arrived. */
  function AsCts<G>(m: Msg<G>, bins: nat, zero: G): (r: seq<CT<G>>)
    ensures |r| == bins && (m.Cts? && |m.cts| == bins ==> r == m.cts)
  {
    if m.Cts? && |m.cts| == bins then m.cts else seq(bins, _ => CT(zero, zero))
  }

  function AsKey<G>(m: Msg<G>, zero: G): G {
    if m.Key? then m.point else zero
  }

  /** Number of receives of party p before pc. */
  function Received(n: nat, p: nat, pc: nat): nat {
    if p == 0 then (
      if pc <= n then pc else if pc <= 2 * n then n else if pc <= 3 * n then pc - n
      else if pc == 3 * n + 1 then 2 * n else 2 * n + 1)
    else if pc <= 1 then 0 else if pc <= 3 then 1 else if pc <= 5 then 2 else 3
  }

  function GotKeys<G(!new, ==)>(c: Config<G>, got: seq<Msg<G>>): (r: seq<G>)
    requires |got| >= c.n
    ensures |r| == c.n && forall i :: 0 <= i < c.n ==> r[i] == AsKey(got[i], c.params.g.zero)
  {
    seq(c.n, i requires 0 <= i < c.n => AsKey(got[i], c.params.g.zero))
  }

  function GotInputs<G(!new, ==)>(c: Config<G>, got: seq<Msg<G>>): (r: seq<seq<CT<G>>>)
    requires |got| >= 2 * c.n
    ensures |r| == c.n && forall i :: 0 <= i < c.n ==> r[i] == AsCts(got[c.n + i], c.bins, c.params.g.zero) && |r[i]| == c.bins
  {
    seq(c.n, i requires 0 <= i < c.n => AsCts(got[c.n + i], c.bins, c.params.g.zero))
  }

  /** What party p sends at pc, from its own inputs and what it has received. */
  function Outgoing<G(!new, ==)>(c: Config<G>, p: nat, pc: nat, got: seq<Msg<G>>): Msg<G>
    requires c.Valid() && p <= c.n && Code(c.n, p, pc).Send? && |got| == Received(c.n, p, pc)
  {
    if p == 0 then
      var pk := SharedKey(c, GotKeys(c, got));
      if pc < 2 * c.n then Key(pk) else Cts(Differences(c, pk, GotInputs(c, got)))
    else if pc == 0 then Key(PublicKey(c, p))
    else if pc == 2 then Cts(EncryptedInputs(c, p, AsKey(got[0], c.params.g.zero)))
    else
      var scaled := Scaled(c, p, AsCts(got[1], c.bins, c.params.g.zero));
      if p == c.n then Cts(Returned(c, p, scaled))
      else if pc == 4 then Cts(scaled)
      else Cts(Returned(c, p, AsCts(got[2], c.bins, c.params.g.zero)))
  }

  ghost predicate Shaped<G(!new)>(c: Config<G>, s: State<G>) {
    && c.Valid() && |s.pc| == |s.got| == c.n + 1
    && (forall p :: 0 <= p <= c.n ==> s.pc[p] <= Length(c.n, p) && |s.got[p]| == Received(c.n, p, s.pc[p]))
  }

  ghost predicate Init<G(!new)>(c: Config<G>, s: State<G>) {
    && c.Valid() && |s.pc| == |s.got| == c.n + 1
    && (forall p :: 0 <= p <= c.n ==> s.pc[p] == 0 && s.got[p] == [])
    && (forall ch :: ch in s.flight ==> s.flight[ch] == [])
  }

  /** Party p can move: a send always, a receive when something has arrived. */
  ghost predicate Enabled<G(!new)>(c: Config<G>, s: State<G>, p: nat)
    requires Shaped(c, s) && p <= c.n
  {
    var i := Code(c.n, p, s.pc[p]);
    i.Send? || (i.Recv? && Queue(s, RecvChan(p, i)) != [])
  }

  /** The move of party p. */
  ghost function Next<G(!new)>(c: Config<G>, s: State<G>, p: nat): State<G>
    requires Shaped(c, s) && p <= c.n && Enabled(c, s, p)
  {
    var i := Code(c.n, p, s.pc[p]);
    if i.Send? then
      var ch := SendChan(p, i);
      State(s.pc[p := s.pc[p] + 1], s.got, s.flight[ch := Queue(s, ch) + [Outgoing(c, p, s.pc[p], s.got[p])]])
    else
      var ch := RecvChan(p, i);
      State(s.pc[p := s.pc[p] + 1], s.got[p := s.got[p] + [Queue(s, ch)[0]]], s.flight[ch := Queue(s, ch)[1..]])
  }

  lemma ReceivedNext(n: nat, p: nat, pc: nat)
    requires p <= n && n >= 1
    ensures Code(n, p, pc).Send? ==> Received(n, p, pc + 1) == Received(n, p, pc)
    ensures Code(n, p, pc).Recv? ==> Received(n, p, pc + 1) == Received(n, p, pc) + 1
    ensures Code(n, p, pc).Halt? <==> pc >= Length(n, p)
    ensures Received(n, p, 0) == 0
  {
  }

  lemma NextShaped<G(!new)>(c: Config<G>, s: State<G>, p: nat)
    requires Shaped(c, s) && p <= c.n && Enabled(c, s, p)
    ensures Shaped(c, Next(c, s, p))
  {
    ReceivedNext(c.n, p, s.pc[p]);
  }

  // ---------- What every message must be ----------

  /** The message of party p's send at pc. */
  function Sent<G(!new, ==)>(c: Config<G>, p: nat, pc: nat): Msg<G>
    requires c.Valid() && p <= c.n
  {
    if p == 0 then (if pc < 2 * c.n then Key(PkHE(c)) else Cts(Forward(c, 0)))
    else if pc == 0 then Key(PublicKey(c, p))
    else if pc == 2 then Cts(InputCts(c)[p - 1])
    else if pc == 4 && p < c.n then Cts(Forward(c, p))
    else Cts(Back(c, p))
  }

  /** All that party p receives, in order. */
  function Expected<G(!new, ==)>(c: Config<G>, p: nat): (r: seq<Msg<G>>)
    requires c.Valid() && p <= c.n
    ensures |r| == if p == 0 then 2 * c.n + 1 else if p == c.n then 2 else 3
  {
    if p == 0 then
      seq(2 * c.n + 1, i requires 0 <= i < 2 * c.n + 1 =>
        if i < c.n then Key(PublicKey(c, i + 1)) else if i < 2 * c.n then Cts(InputCts(c)[i - c.n]) else Cts(Back(c, 1)))
    else if p == c.n then [Key(PkHE(c)), Cts(Forward(c, p - 1))]
    else [Key(PkHE(c)), Cts(Forward(c, p - 1)), Cts(Back(c, p + 1))]
  }

  lemma ReceivedBound(n: nat, p: nat, pc: nat)
    requires n >= 1 && p <= n && pc <= Length(n, p)
    ensures Received(n, p, pc) <= if p == 0 then 2 * n + 1 else if p == n then 2 else 3
  {
  }

  /** What party p has received when it is at pc. */
  function Due<G(!new, ==)>(c: Config<G>, p: nat, pc: nat): (r: seq<Msg<G>>)
    requires c.Valid() && p <= c.n && pc <= Length(c.n, p)
    ensures |r| == Received(c.n, p, pc)
  {
    ReceivedBound(c.n, p, pc);
    Expected(c, p)[..Received(c.n, p, pc)]
  }

  /** From the right messages a party makes the right message. */
  lemma OutgoingCorrect<G(!new)>(c: Config<G>, p: nat, pc: nat)
    requires c.Valid() && p <= c.n && Code(c.n, p, pc).Send?
    ensures pc <= Length(c.n, p) && Outgoing(c, p, pc, Due(c, p, pc)) == Sent(c, p, pc)
  {
    var got := Due(c, p, pc);
    hide Returned, Differences, Scaled;
    if p == 0 {
      assert GotKeys(c, got) == OtherKeys(c);
      if pc >= 2 * c.n {
        assert GotInputs(c, got) == InputCts(c);
      }
    }
  }

  /** The sends and receives of a channel that belong together, by the program counters of its ends. */
  datatype Link = Link(s: nat, r: nat)

  function Links(n: nat, ch: Chan): seq<Link> {
    if ch.from > n || ch.to > n || n == 0 then []
    else if ch.family == 0 && ch.to == 0 && ch.from >= 1 then
      [Link(0, ch.from - 1), Link(2, 2 * n + ch.from - 1)] + if ch.from == 1 then [Link(Length(n, 1) - 1, 3 * n + 1)] else []
    else if ch.family == 0 && ch.to >= 1 && ch.from == ch.to + 1 then [Link(Length(n, ch.from) - 1, 5)]
    else if ch.family == 1 && ch.from == 0 && ch.to >= 1 then
      [Link(n + ch.to - 1, 1)] + if ch.to == 1 then [Link(3 * n, 3)] else []
    else if ch.family == 1 && ch.from >= 1 && ch.to == ch.from + 1 then [Link(4, 3)]
    else []
  }

  ghost predicate Sorted(links: seq<Link>) {
    forall i, j :: 0 <= i < j < |links| ==> links[i].s < links[j].s && links[i].r < links[j].r
  }

  lemma LinksSorted(n: nat, ch: Chan)
    ensures Sorted(Links(n, ch))
  {
  }

  /** Every link joins a send and a receive of this channel. */
  lemma LinkEnds(n: nat, ch: Chan, k: nat)
    requires k < |Links(n, ch)|
    ensures ch.from <= n && ch.to <= n && n >= 1
    ensures var l := Links(n, ch)[k];
            Code(n, ch.from, l.s).Send? && SendChan(ch.from, Code(n, ch.from, l.s)) == ch
            && Code(n, ch.to, l.r).Recv? && RecvChan(ch.to, Code(n, ch.to, l.r)) == ch
  {
  }

  /** Every send has its link. */
  lemma LinkOfSend(n: nat, p: nat, pc: nat) returns (k: nat)
    requires n >= 1 && p <= n && Code(n, p, pc).Send?
    ensures var ch := SendChan(p, Code(n, p, pc)); ch.to <= n && k < |Links(n, ch)| && Links(n, ch)[k].s == pc
  {
    var ch := SendChan(p, Code(n, p, pc));
    if p == 0 {
      k := if pc == 3 * n then 1 else 0;
    } else if pc == 0 {
      k := 0;
    } else if pc == 2 {
      k := 1;
    } else if pc == Length(n, p) - 1 && p == 1 {
      k := 2;
    } else {
      k := 0;
    }
  }

  /** Every receive has its link. */
  lemma LinkOfRecv(n: nat, p: nat, pc: nat) returns (k: nat)
    requires n >= 1 && p <= n && Code(n, p, pc).Recv?
    ensures var ch := RecvChan(p, Code(n, p, pc));
            ch.from <= n && k < |Links(n, ch)| && Links(n, ch)[k].r == pc && Links(n, ch)[k].s == SourcePc(n, p, pc)
  {
    if p == 0 {
      k := if pc < n then 0 else if pc < 3 * n then 1 else 2;
    } else if pc == 3 && p == 1 {
      k := 1;
    } else {
      k := 0;
    }
  }

  /** Where the other end sends what party p receives at pc. */
  function SourcePc(n: nat, p: nat, pc: nat): nat {
    if p == 0 then (if pc < n then 0 else if pc < 3 * n then 2 else Length(n, 1) - 1)
    else if pc == 1 then n + p - 1
    else if pc == 3 then (if p == 1 then 3 * n else 4)
    else Length(n, p + 1) - 1
  }

  /** What a receive is to bring is what the other end sends there. */
  lemma ExpectedIsSent<G(!new)>(c: Config<G>, p: nat, pc: nat)
    requires c.Valid() && p <= c.n && Code(c.n, p, pc).Recv?
    ensures var ch := RecvChan(p, Code(c.n, p, pc));
            ch.from <= c.n && Received(c.n, p, pc) < |Expected(c, p)|
            && Expected(c, p)[Received(c.n, p, pc)] == Sent(c, ch.from, SourcePc(c.n, p, pc))
  {
    hide Back, Forward, InputCts, PkHE, PublicKey;
    var n := c.n;
    if p == 0 && pc < n {
      assert RecvChan(0, Code(n, 0, pc)).from == pc + 1;
    } else if p == 0 && pc < 3 * n {
      assert RecvChan(0, Code(n, 0, pc)).from == pc - 2 * n + 1;
    }
  }

  /** What is in flight between ends at these program counters. */
  ghost function Pending<G(!new)>(c: Config<G>, from: nat, links: seq<Link>, pf: nat, pt: nat): seq<Msg<G>>
    requires c.Valid() && from <= c.n
  {
    if links == [] then []
    else (if links[0].s < pf && links[0].r >= pt then [Sent(c, from, links[0].s)] else []) + Pending(c, from, links[1..], pf, pt)
  }

  /** Nothing is received before it is sent. */
  ghost predicate Causal(links: seq<Link>, pf: nat, pt: nat) {
    forall i :: 0 <= i < |links| && links[i].r < pt ==> links[i].s < pf
  }

  lemma {:induction false} NonePending<G(!new)>(c: Config<G>, from: nat, links: seq<Link>, pf: nat, pt: nat)
    requires c.Valid() && from <= c.n && forall i :: 0 <= i < |links| ==> links[i].s >= pf || links[i].r < pt
    ensures Pending(c, from, links, pf, pt) == []
  {
    if links != [] {
      NonePending(c, from, links[1..], pf, pt);
    }
  }

  /** A program counter moving past no link changes nothing in flight. */
  lemma {:induction false} PendingSkip<G(!new)>(c: Config<G>, from: nat, links: seq<Link>, pf: nat, pt: nat, pf': nat, pt': nat)
    requires c.Valid() && from <= c.n && (pf' == pf || pf' == pf + 1) && (pt' == pt || pt' == pt + 1)
    requires forall i :: 0 <= i < |links| ==> (pf' == pf || links[i].s != pf) && (pt' == pt || links[i].r != pt)
    ensures Pending(c, from, links, pf', pt') == Pending(c, from, links, pf, pt)
    ensures Causal(links, pf, pt) ==> Causal(links, pf', pt')
  {
    if links != [] {
      PendingSkip(c, from, links[1..], pf, pt, pf', pt');
    }
  }

  /** A send goes to the end of the queue. */
  lemma {:induction false} PendingSend<G(!new)>(c: Config<G>, from: nat, links: seq<Link>, k: nat, pf: nat, pt: nat)
    requires c.Valid() && from <= c.n && Sorted(links) && k < |links| && links[k].s == pf && links[k].r >= pt
    ensures Pending(c, from, links, pf + 1, pt) == Pending(c, from, links, pf, pt) + [Sent(c, from, pf)]
  {
    if k == 0 {
      NonePending(c, from, links[1..], pf, pt);
      NonePending(c, from, links[1..], pf + 1, pt);
    } else {
      assert links[0].s < links[k].s;
      PendingSend(c, from, links[1..], k - 1, pf, pt);
    }
  }

  lemma SortedTail(links: seq<Link>)
    requires Sorted(links) && links != []
    ensures Sorted(links[1..]) && forall i :: 0 <= i < |links| - 1 ==> links[0].r < links[1..][i].r && links[0].s < links[1..][i].s
  {
  }

  /** A receive takes the message of its link from the front. */
  lemma {:induction false} PendingRecv<G(!new)>(c: Config<G>, from: nat, links: seq<Link>, k: nat, pf: nat, pt: nat)
    requires c.Valid() && from <= c.n && Sorted(links) && k < |links| && links[k].r == pt && Pending(c, from, links, pf, pt) != []
    ensures links[k].s < pf
    ensures Pending(c, from, links, pf, pt) == [Sent(c, from, links[k].s)] + Pending(c, from, links, pf, pt + 1)
  {
    hide Sent, Sorted;
    SortedTail(links);
    if k == 0 {
      if links[0].s >= pf {
        NonePending(c, from, links[1..], pf, pt);
      }
      LaterSame(c, from, links[1..], pf, pt);
    } else {
      assert links[1..][k - 1] == links[k];
      PendingRecv(c, from, links[1..], k - 1, pf, pt);
    }
  }

  lemma {:induction false} LaterSame<G(!new)>(c: Config<G>, from: nat, links: seq<Link>, pf: nat, pt: nat)
    requires c.Valid() && from <= c.n && forall i :: 0 <= i < |links| ==> links[i].r > pt
    ensures Pending(c, from, links, pf, pt) == Pending(c, from, links, pf, pt + 1)
  {
    if links != [] {
      LaterSame(c, from, links[1..], pf, pt);
    }
  }

  // ---------- The invariant of every run ----------

  ghost predicate GotOk<G(!new)>(c: Config<G>, s: State<G>, p: nat)
    requires Shaped(c, s) && p <= c.n
  {
    s.got[p] == Due(c, p, s.pc[p])
  }

  ghost predicate ChanOk<G(!new)>(c: Config<G>, s: State<G>, ch: Chan)
    requires Shaped(c, s)
  {
    if ch.from <= c.n && ch.to <= c.n then
      Queue(s, ch) == Pending(c, ch.from, Links(c.n, ch), s.pc[ch.from], s.pc[ch.to])
      && Causal(Links(c.n, ch), s.pc[ch.from], s.pc[ch.to])
    else Queue(s, ch) == []
  }

  /** Every party has received exactly what it should have so far, and every channel holds exactly the
      messages between its two ends. */
  ghost predicate Inv<G(!new)>(c: Config<G>, s: State<G>) {
    && Shaped(c, s)
    && (forall p :: 0 <= p <= c.n ==> GotOk(c, s, p))
    && (forall ch :: ChanOk(c, s, ch))
  }

  lemma InitInv<G(!new)>(c: Config<G>, s: State<G>)
    requires Init(c, s)
    ensures Inv(c, s)
  {
    hide Expected;
    forall p | 0 <= p <= c.n
      ensures s.pc[p] <= Length(c.n, p) && |s.got[p]| == Received(c.n, p, s.pc[p])
    {
      ReceivedNext(c.n, p, 0);
    }
    forall p | 0 <= p <= c.n
      ensures GotOk(c, s, p)
    {
      ReceivedNext(c.n, p, 0);
    }
    forall ch: Chan
      ensures ChanOk(c, s, ch)
    {
      if ch.from <= c.n && ch.to <= c.n {
        NonePending(c, ch.from, Links(c.n, ch), 0, 0);
      }
    }
  }

  /** The channels a move does not use. */
  lemma OtherChan<G(!new)>(c: Config<G>, s: State<G>, p: nat, ch: Chan)
    requires Inv(c, s) && p <= c.n && Enabled(c, s, p)
    requires var i := Code(c.n, p, s.pc[p]); ch != if i.Send? then SendChan(p, i) else RecvChan(p, i)
    ensures Shaped(c, Next(c, s, p)) && ChanOk(c, Next(c, s, p), ch)
  {
    hide Code, Links, Outgoing, Received, Length, Expected, Sorted, Pending;
    NextShaped(c, s, p);
    assert ChanOk(c, s, ch);
    var i := Code(c.n, p, s.pc[p]);
    if ch.from <= c.n && ch.to <= c.n {
      var links := Links(c.n, ch);
      forall k | 0 <= k < |links|
        ensures (ch.from == p ==> links[k].s != s.pc[p]) && (ch.to == p ==> links[k].r != s.pc[p])
      {
        LinkEnds(c.n, ch, k);
      }
      var pf, pt := s.pc[ch.from], s.pc[ch.to];
      PendingSkip(c, ch.from, links, pf, pt, if ch.from == p then pf + 1 else pf, if ch.to == p then pt + 1 else pt);
    }
  }

  lemma SendStep<G(!new)>(c: Config<G>, s: State<G>, p: nat)
    requires Inv(c, s) && p <= c.n && Code(c.n, p, s.pc[p]).Send?
    ensures Enabled(c, s, p) && Shaped(c, Next(c, s, p))
    ensures ChanOk(c, Next(c, s, p), SendChan(p, Code(c.n, p, s.pc[p])))
  {
    hide Links, Outgoing, Received, Length, Expected, Pending, Sent;
    NextShaped(c, s, p);
    var ch := SendChan(p, Code(c.n, p, s.pc[p]));
    assert GotOk(c, s, p) && ChanOk(c, s, ch);
    OutgoingCorrect(c, p, s.pc[p]);
    var k := LinkOfSend(c.n, p, s.pc[p]);
    LinksSorted(c.n, ch);
    PendingSend(c, p, Links(c.n, ch), k, s.pc[p], s.pc[ch.to]);
  }

  lemma Order(links: seq<Link>, i: nat, k: nat)
    requires Sorted(links) && i < |links| && k < |links|
    ensures links[i].r < links[k].r <==> i < k
    ensures links[i].r == links[k].r <==> i == k
  {
    if k < i {
      assert links[k].r < links[i].r;
    }
  }

  lemma CausalRecv(links: seq<Link>, k: nat, pf: nat, pt: nat)
    requires Sorted(links) && Causal(links, pf, pt) && k < |links| && links[k].r == pt && links[k].s < pf
    ensures Causal(links, pf, pt + 1)
  {
    forall i | 0 <= i < |links| && links[i].r < pt + 1
      ensures links[i].s < pf
    {
      Order(links, i, k);
    }
  }

  lemma RecvStep<G(!new)>(c: Config<G>, s: State<G>, p: nat)
    requires Inv(c, s) && p <= c.n && Code(c.n, p, s.pc[p]).Recv? && Enabled(c, s, p)
    ensures Shaped(c, Next(c, s, p)) && GotOk(c, Next(c, s, p), p)
    ensures ChanOk(c, Next(c, s, p), RecvChan(p, Code(c.n, p, s.pc[p])))
  {
    hide Links, Received, Length, Expected, Pending, Sent, Sorted, Causal;
    NextShaped(c, s, p);
    var ch := RecvChan(p, Code(c.n, p, s.pc[p]));
    assert GotOk(c, s, p) && ChanOk(c, s, ch);
    var k := LinkOfRecv(c.n, p, s.pc[p]);
    LinksSorted(c.n, ch);
    PendingRecv(c, ch.from, Links(c.n, ch), k, s.pc[ch.from], s.pc[p]);
    CausalRecv(Links(c.n, ch), k, s.pc[ch.from], s.pc[p]);
    ExpectedIsSent(c, p, s.pc[p]);
    ReceivedNext(c.n, p, s.pc[p]);
    var r := Received(c.n, p, s.pc[p]);
    assert Expected(c, p)[..r + 1] == Expected(c, p)[..r] + [Expected(c, p)[r]];
  }

  /** What any move of any party keeps. */
  lemma StepInv<G(!new)>(c: Config<G>, s: State<G>, p: nat)
    requires Inv(c, s) && p <= c.n && Enabled(c, s, p)
    ensures Inv(c, Next(c, s, p))
  {
    hide Code, Links, Outgoing, Received, Length, Expected, Pending, Sent;
    NextShaped(c, s, p);
    var s' := Next(c, s, p);
    var i := Code(c.n, p, s.pc[p]);
    if i.Send? {
      SendStep(c, s, p);
      ReceivedNext(c.n, p, s.pc[p]);
    } else {
      RecvStep(c, s, p);
    }
    forall q | 0 <= q <= c.n
      ensures GotOk(c, s', q)
    {
      assert GotOk(c, s, q);
    }
    forall ch: Chan
      ensures ChanOk(c, s', ch)
    {
      if ch != (if i.Send? then SendChan(p, i) else RecvChan(p, i)) {
        OtherChan(c, s, p, ch);
      }
    }
  }

  // ---------- No deadlock ----------

  /** A schedule in which every send comes before its receive. */
  function Rank(n: nat, p: nat, pc: nat): nat {
    if p == 0 then
      if pc < 2 * n then 1 + pc
      else if pc <= 3 * n then pc + 3
      else 7 * n + 3
    else if pc == 0 then 0
    else if pc <= 2 then 2 * n + pc
    else if pc == 3 then 3 * n + 2 + 2 * p
    else if pc == 4 && p < n then 3 * n + 3 + 2 * p
    else if pc == 5 then 7 * n + 2 - 2 * (if p <= n then p else n)
    else 7 * n + 3 - 2 * (if p <= n then p else n)
  }

  lemma RankLinks(n: nat, p: nat, pc: nat)
    requires n >= 1 && p <= n && Code(n, p, pc).Recv?
    ensures Rank(n, RecvChan(p, Code(n, p, pc)).from, SourcePc(n, p, pc)) < Rank(n, p, pc)
  {
  }

  lemma RankGrows(n: nat, p: nat, pc: nat, pc': nat)
    requires n >= 1 && p <= n && pc <= pc' < Length(n, p)
    ensures Rank(n, p, pc) <= Rank(n, p, pc')
  {
  }

  /** While some party has not finished, some party can move. */
  lemma {:induction false} NoDeadlock<G(!new)>(c: Config<G>, s: State<G>, p: nat) returns (q: nat)
    requires Inv(c, s) && p <= c.n && s.pc[p] < Length(c.n, p)
    ensures q <= c.n && Enabled(c, s, q)
    decreases Rank(c.n, p, s.pc[p])
  {
    hide Rank, Links, Length, Received, Pending;
    ReceivedNext(c.n, p, s.pc[p]);
    if Enabled(c, s, p) {
      q := p;
    } else {
      var ch := RecvChan(p, Code(c.n, p, s.pc[p]));
      assert ChanOk(c, s, ch);
      var k := LinkOfRecv(c.n, p, s.pc[p]);
      var src := SourcePc(c.n, p, s.pc[p]);
      LinkEnds(c.n, ch, k);
      if src < s.pc[ch.from] {
        HasPending(c, ch.from, Links(c.n, ch), k, s.pc[ch.from], s.pc[p]);
        assert false;
      }
      RankLinks(c.n, p, s.pc[p]);
      ReceivedNext(c.n, ch.from, src);
      RankGrows(c.n, ch.from, s.pc[ch.from], src);
      q := NoDeadlock(c, s, ch.from);
    }
  }

  lemma {:induction false} HasPending<G(!new)>(c: Config<G>, from: nat, links: seq<Link>, k: nat, pf: nat, pt: nat)
    requires c.Valid() && from <= c.n && k < |links| && links[k].s < pf && links[k].r >= pt
    ensures Pending(c, from, links, pf, pt) != []
  {
    if k > 0 {
      HasPending(c, from, links[1..], k - 1, pf, pt);
    }
  }

  // ---------- Whole runs ----------

  /** Any interleaving: movers[i] is the party that moves from state i. */
  ghost predicate Run<G(!new)>(c: Config<G>, states: seq<State<G>>, movers: seq<nat>) {
    && |states| == |movers| + 1 && Init(c, states[0])
    && forall i :: 0 <= i < |movers| ==>
      Shaped(c, states[i]) && movers[i] <= c.n && Enabled(c, states[i], movers[i]) && states[i + 1] == Next(c, states[i], movers[i])
  }

  /** Moves left to the first m parties. */
  ghost function Left(n: nat, pc: seq<nat>, m: nat): int
    requires m <= |pc|
  {
    if m == 0 then 0 else Left(n, pc, m - 1) + Length(n, m - 1) - pc[m - 1]
  }

  lemma {:induction false} LeftStep(n: nat, pc: seq<nat>, p: nat, m: nat)
    requires p < |pc| && m <= |pc|
    ensures Left(n, pc[p := pc[p] + 1], m) == Left(n, pc, m) - (if p < m then 1 else 0)
  {
    if m > 0 {
      LeftStep(n, pc, p, m - 1);
    }
  }

  lemma {:induction false} LeftNonNegative(n: nat, pc: seq<nat>, m: nat)
    requires m <= |pc| && forall p :: 0 <= p < m ==> pc[p] <= Length(n, p)
    ensures Left(n, pc, m) >= 0
  {
    if m > 0 {
      LeftNonNegative(n, pc, m - 1);
    }
  }

  lemma {:induction false} RunInv<G(!new)>(c: Config<G>, states: seq<State<G>>, movers: seq<nat>)
    requires Run(c, states, movers)
    ensures Inv(c, states[|movers|])
    ensures Left(c.n, states[|movers|].pc, c.n + 1) == Left(c.n, states[0].pc, c.n + 1) - |movers|
  {
    hide Inv, Left;
    var k := |movers|;
    if k == 0 {
      InitInv(c, states[0]);
    } else {
      RunInv(c, states[..k], movers[..k - 1]);
      StepInv(c, states[k - 1], movers[k - 1]);
      LeftStep(c.n, states[k - 1].pc, movers[k - 1], c.n + 1);
    }
  }

  /** No run is longer than the communication all programs contain. */
  lemma RunsEnd<G(!new)>(c: Config<G>, states: seq<State<G>>, movers: seq<nat>)
    requires Run(c, states, movers)
    ensures |movers| <= Left(c.n, states[0].pc, c.n + 1)
  {
    hide Left, Length;
    RunInv(c, states, movers);
    LeftNonNegative(c.n, states[|movers|].pc, c.n + 1);
  }

  /** What party 0 decides from what it has received last. */
  function Decision<G(!new, ==)>(c: Config<G>, got: seq<Msg<G>>): seq<bool>
    requires c.Valid() && |got| == 2 * c.n + 1
  {
    Answers(c, AsCts(got[2 * c.n], c.bins, c.params.g.zero))
  }

  /** A run that cannot go on has finished at every party, with nothing left in any channel, and party 0 has
      the outcome; whatever the interleaving. */
  lemma EveryRunDecides<G(!new)>(c: Config<G>, states: seq<State<G>>, movers: seq<nat>)
    requires Run(c, states, movers) && Shaped(c, states[|movers|])
    requires forall p :: 0 <= p <= c.n ==> !Enabled(c, states[|movers|], p)
    ensures var s := states[|movers|];
            (forall p :: 0 <= p <= c.n ==> s.pc[p] == Length(c.n, p))
            && (forall ch :: Queue(s, ch) == [])
            && |s.got[0]| == 2 * c.n + 1 && Decision(c, s.got[0]) == Outcome(c)
  {
    hide Enabled, Length;
    var s := states[|movers|];
    RunInv(c, states, movers);
    forall p | 0 <= p <= c.n
      ensures s.pc[p] == Length(c.n, p)
    {
      if s.pc[p] < Length(c.n, p) {
        var q := NoDeadlock(c, s, p);
        assert false;
      }
    }
    AllReceived(c, s);
    forall ch: Chan
      ensures Queue(s, ch) == []
    {
      Drained(c, s, ch);
    }
  }

  lemma Drained<G(!new)>(c: Config<G>, s: State<G>, ch: Chan)
    requires Inv(c, s) && forall p :: 0 <= p <= c.n ==> s.pc[p] == Length(c.n, p)
    ensures Queue(s, ch) == []
  {
    hide Links, Pending, GotOk;
    assert ChanOk(c, s, ch);
    if ch.from <= c.n && ch.to <= c.n {
      var links := Links(c.n, ch);
      forall k | 0 <= k < |links|
        ensures links[k].r < s.pc[ch.to]
      {
        LinkEnds(c.n, ch, k);
      }
      NonePending(c, ch.from, links, s.pc[ch.from], s.pc[ch.to]);
    }
  }

  lemma AllReceived<G(!new)>(c: Config<G>, s: State<G>)
    requires Inv(c, s) && s.pc[0] == Length(c.n, 0)
    ensures |s.got[0]| == 2 * c.n + 1 && Decision(c, s.got[0]) == Outcome(c)
  {
    assert GotOk(c, s, 0);
    assert Expected(c, 0)[..2 * c.n + 1] == Expected(c, 0);
  }
}
