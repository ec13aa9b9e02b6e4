/**
 The GAPSO-RBF-PID queue discipline: enqueue, dequeue, drop, reset, change and graft of
 modules/sch_rbfgrad.c, over the parameter state of include/rbfgrad.h.

 Each operation is atomic.  What the discipline asks of others comes in with the operation: the random
 number drawn, whether a packet can carry the congestion mark, what the child does with a packet and
 which packet it gives back.
 */
module RbfQueue {
  const CYC_MAX := 20
  const SAM_NUM := 10
  const RAND_MAX := 2147483647.0

  type Length = n: nat | n > 0 witness 1

  datatype Packet = Packet(id: nat, len: Length)

  /** What the child does with a packet: NET_XMIT_SUCCESS, NET_XMIT_DROP, NET_XMIT_CN at the cost of its
      head packet, or a packet stolen. */
  datatype Verdict = Accepted | Rejected | Displaced | Stolen

  datatype Config = Config(limit: nat, ecn: bool, qRef: int, pInit: real, pMin: real, pMax: real)

  datatype Stats = Stats(probDrop: nat, probMark: nat, pdrop: nat, other: nat, drops: nat, overlimits: nat)

  const NoStats := Stats(0, 0, 0, 0, 0, 0)

  datatype State = State(
    child: seq<Packet>, qlen: int, backlog: int, stats: Stats,
    cyc: nat, queueLen: seq<int>, proba: seq<real>,
    e: int, e1: int, e2: int, p: real, p1: real, config: Config)

  /** The PID gains that the training has arrived at. */
  datatype Gains = Gains(kp: real, ki: real, kd: real)

  datatype Event =
    | Enqueue(skb: Packet, random: nat, ceOk: bool, verdict: Verdict)
    | Dequeue(pick: nat)           // past the end: the child gives nothing
    | Drop(pick: nat)
    | Reset
    | Change(config: Config)
    | Graft(held: seq<Packet>)    // what the new child holds already
    | Control(gains: Gains)        // the timer's update of the probability
    | Dump

  // ----- what each operation does

  function Truncate(x: real): int {
    if x >= 0.0 then x.Floor else -((-x).Floor)
  }

  /** `rbfgrad_cmp_prob` and `rbfgrad_action` */
  predicate Marks(p: real, random: nat) {
    random < Truncate(p * RAND_MAX)
  }

  /** A new first entry at the cost of the last. */
  function Pushed<T>(x: T, xs: seq<T>): seq<T> {
    if xs == [] then [x] else [x] + xs[..|xs| - 1]
  }

  function Sampled(s: State): State {
    s.(queueLen := Pushed(s.qlen, s.queueLen), proba := Pushed(s.p1, s.proba),
       e2 := s.e1, e1 := s.e, e := s.qlen - s.config.qRef)
  }

  function Counted(s: State): State {
    if s.cyc + 1 == CYC_MAX then Sampled(s).(cyc := 0) else s.(cyc := s.cyc + 1)
  }

  function ChildAfter(child: seq<Packet>, skb: Packet, v: Verdict): seq<Packet> {
    match v
    case Accepted => child + [skb]
    case Displaced => if child == [] then [] else child[1..] + [skb]
    case _ => child
  }

  function ChildLoss(child: seq<Packet>, skb: Packet, v: Verdict): seq<Packet> {
    match v
    case Accepted => []
    case Displaced => if child == [] then [skb] else [child[0]]
    case _ => [skb]
  }

  function Offered(s: State, skb: Packet, v: Verdict): State {
    match v
    case Accepted => s.(child := ChildAfter(s.child, skb, v), qlen := s.qlen + 1, backlog := s.backlog + skb.len)
    case Rejected => s.(stats := s.stats.(pdrop := s.stats.pdrop + 1, drops := s.stats.drops + 1))
    case Displaced => s.(child := ChildAfter(s.child, skb, v),
                         stats := s.stats.(pdrop := s.stats.pdrop + 1, drops := s.stats.drops + 1))
    case Stolen => s
  }

  predicate EarlyDrop(s: State, random: nat, ceOk: bool) {
    Marks(s.p, random) && !(s.config.ecn && ceOk)
  }

  function Enqueued(s: State, skb: Packet, random: nat, ceOk: bool, v: Verdict): State {
    var c := Counted(s);
    if !Marks(s.p, random) then Offered(c, skb, v)
    else if EarlyDrop(s, random, ceOk) then
      c.(stats := c.stats.(overlimits := c.stats.overlimits + 1, probDrop := c.stats.probDrop + 1,
                           drops := c.stats.drops + 1))
    else Offered(c.(stats := c.stats.(overlimits := c.stats.overlimits + 1, probMark := c.stats.probMark + 1)), skb, v)
  }

  function Without(ps: seq<Packet>, i: nat): seq<Packet>
    requires i < |ps|
  {
    ps[..i] + ps[i + 1..]
  }

  function Taken(s: State, i: nat): State
    requires i < |s.child|
  {
    s.(child := Without(s.child, i), qlen := s.qlen - 1, backlog := s.backlog - s.child[i].len)
  }

  function Zeros(): (r: seq<int>)
    ensures |r| == SAM_NUM && forall j | 0 <= j < SAM_NUM :: r[j] == 0
  {
    [0, 0, 0, 0, 0, 0, 0, 0, 0, 0]
  }

  function AllAt(x: real): (r: seq<real>)
    ensures |r| == SAM_NUM && forall j | 0 <= j < SAM_NUM :: r[j] == x
  {
    [x, x, x, x, x, x, x, x, x, x]
  }

  /** `rbfgrad_set_parms` */
  function Configured(s: State, c: Config): State {
    s.(config := c, p := c.pInit, e := 0, e1 := 0, e2 := 0, queueLen := Zeros(), proba := AllAt(c.pInit))
  }

  /** An error term as a share of the largest queue length considered. */
  function Normal(e: int): real {
    e as real / 6500.0
  }

  /** The PID step: what the probability is raised by. */
  function Rise(g: Gains, e: real, e1: real, e2: real): real {
    g.kp * (e - e1) + g.ki * e + g.kd * (e - 2.0 * e1 + e2)
  }

  function Controlled(s: State, g: Gains): State {
    s.(p := Clamp(s.p + Rise(g, Normal(s.e), Normal(s.e1), Normal(s.e2)), s.config.pMin, s.config.pMax), p1 := s.p)
  }

  function Clamp(p: real, low: real, high: real): real {
    var q := if p > high then high else p;
    if q < low then low else q
  }

  function Bytes(ps: seq<Packet>): (n: nat)
    ensures ps == [] <==> n == 0
  {
    if ps == [] then 0 else ps[0].len + Bytes(ps[1..])
  }

  function Step(s: State, ev: Event): State {
    match ev
    case Enqueue(skb, random, ceOk, v) => Enqueued(s, skb, random, ceOk, v)
    case Dequeue(i) => if i < |s.child| then Taken(s, i) else s
    case Drop(i) =>
      if i < |s.child| then Taken(s, i).(stats := s.stats.(other := s.stats.other + 1, drops := s.stats.drops + 1))
      else s
    case Reset => s.(child := [], qlen := 0, backlog := 0)
    case Change(c) => Configured(if c.limit > 0 then s.(child := [], qlen := s.qlen - |s.child|) else s, c)
    case Graft(held) => s.(child := held, qlen := s.qlen - |s.child|)
    case Control(g) => Controlled(s, g)
    case Dump => s.(backlog := Bytes(s.child))
  }

  /** The packets that an operation hands out of the discipline. */
  function Sent(s: State, ev: Event): seq<Packet> {
    if ev.Dequeue? && ev.pick < |s.child| then [s.child[ev.pick]] else []
  }

  /** The packets that an operation destroys, or that the child's classifiers keep. */
  function Lost(s: State, ev: Event): seq<Packet> {
    match ev
    case Enqueue(skb, random, ceOk, v) =>
      if EarlyDrop(s, random, ceOk) then [skb] else ChildLoss(s.child, skb, v)
    case Drop(i) => if i < |s.child| then [s.child[i]] else []
    case Reset | Graft(_) => s.child
    case Change(c) => if c.limit > 0 then s.child else []
    case _ => []
  }

  /** The packets that an operation brings in. */
  function Came(ev: Event): seq<Packet> {
    match ev
    case Enqueue(skb, _, _, _) => [skb]
    case Graft(held) => held
    case _ => []
  }

  // ----- the discipline itself

  class RbfSched {
    var child: seq<Packet>
    var qlen: int
    var backlog: int
    var stats: Stats
    var cycCount: nat
    const queueLen: array<int>
    const proba: array<real>
    var e: int
    var e1: int
    var e2: int
    var p: real
    var p1: real
    var config: Config

    ghost predicate Valid() {
      queueLen.Length == SAM_NUM && proba.Length == SAM_NUM
    }

    ghost function View(): State
      reads this, queueLen, proba
    {
      State(child, qlen, backlog, stats, cycCount, queueLen[..], proba[..], e, e1, e2, p, p1, config)
    }

    /** `rbfgrad_init` over an empty child */
    constructor (config: Config)
      ensures Valid() && fresh(queueLen) && fresh(proba)
      ensures View() == Initial(config)
    {
      child, qlen, backlog := [], 0, 0;
      stats := NoStats;
      cycCount := 0;
      queueLen, proba := new int[SAM_NUM](_ => 0), new real[SAM_NUM](_ => config.pInit);
      e, e1, e2 := 0, 0, 0;
      p, p1 := config.pInit, 0.0;
      this.config := config;
    }

    /** The sample taken in either branch of `rbfgrad_enqueue`, before the packet is queued. */
    method Sample()
      requires Valid()
      modifies this`e, this`e1, this`e2, queueLen, proba
      ensures View() == Sampled(old(View()))
    {
      Shift();
      e2 := e1;
      e1 := e;
      e := qlen - config.qRef;
    }

    method Shift()
      requires Valid()
      modifies queueLen, proba
      ensures queueLen[..] == Pushed(qlen, old(queueLen[..])) && proba[..] == Pushed(p1, old(proba[..]))
    {
      ghost var ql, pr := queueLen[..], proba[..];
      for i := SAM_NUM downto 1
        invariant forall j | i <= j < SAM_NUM :: queueLen[j] == ql[j - 1] && proba[j] == pr[j - 1]
        invariant forall j | 0 <= j < i :: queueLen[j] == ql[j] && proba[j] == pr[j]
      {
        proba[i] := proba[i - 1];
        queueLen[i] := queueLen[i - 1];
      }
      proba[0] := p1;
      queueLen[0] := qlen;
      assert queueLen[1..] == ql[..SAM_NUM - 1] && proba[1..] == pr[..SAM_NUM - 1];
      assert queueLen[..] == [qlen] + queueLen[1..] && proba[..] == [p1] + proba[1..];
    }

    method Count()
      requires Valid()
      modifies this`cycCount, this`e, this`e1, this`e2, queueLen, proba
      ensures View() == Counted(old(View()))
    {
      cycCount := cycCount + 1;
      if cycCount == CYC_MAX {
        Sample();
        cycCount := 0;
      }
    }

    /** True when the packet is in the child's hands, false when it has been dropped for congestion. */
    method Enqueue(skb: Packet, random: nat, ceOk: bool, verdict: Verdict) returns (passed: bool)
      requires Valid()
      modifies this, queueLen, proba
      ensures View() == Step(old(View()), Event.Enqueue(skb, random, ceOk, verdict))
      ensures passed == !EarlyDrop(old(View()), random, ceOk)
    {
      var mark := Marks(p, random);
      Count();
      if mark {
        stats := stats.(overlimits := stats.overlimits + 1);
        if !config.ecn || !ceOk {
          stats := stats.(probDrop := stats.probDrop + 1, drops := stats.drops + 1);
          return false;
        }
        stats := stats.(probMark := stats.probMark + 1);
      }
      Offer(skb, verdict);
      passed := true;
    }

    /** Hands a packet to the child and counts by what became of it. */
    method Offer(skb: Packet, verdict: Verdict)
      requires Valid()
      modifies this`child, this`qlen, this`backlog, this`stats
      ensures View() == Offered(old(View()), skb, verdict)
    {
      match verdict {
        case Accepted =>
          child := child + [skb];
          qlen := qlen + 1;
          backlog := backlog + skb.len;
        case Stolen =>
        case Rejected =>
          stats := stats.(pdrop := stats.pdrop + 1, drops := stats.drops + 1);
        case Displaced =>
          if child != [] {
            child := child[1..] + [skb];
          }
          stats := stats.(pdrop := stats.pdrop + 1, drops := stats.drops + 1);
      }
    }

    method Dequeue(pick: nat) returns (skb: seq<Packet>)
      requires Valid()
      modifies this`child, this`qlen, this`backlog
      ensures View() == Step(old(View()), Event.Dequeue(pick)) && skb == Sent(old(View()), Event.Dequeue(pick))
    {
      skb := [];
      if pick < |child| {
        skb := [child[pick]];
        child := Without(child, pick);
        backlog := backlog - skb[0].len;
        qlen := qlen - 1;
      }
    }

    /** The number of bytes evicted, zero if none. */
    method Drop(pick: nat) returns (len: nat)
      requires Valid()
      modifies this`child, this`qlen, this`backlog, this`stats
      ensures View() == Step(old(View()), Event.Drop(pick)) && len == Bytes(Lost(old(View()), Event.Drop(pick)))
    {
      len := 0;
      if pick < |child| {
        len := child[pick].len;
        child := Without(child, pick);
        backlog := backlog - len;
        stats := stats.(other := stats.other + 1, drops := stats.drops + 1);
        qlen := qlen - 1;
      }
    }

    method Reset()
      requires Valid()
      modifies this`child, this`qlen, this`backlog
      ensures View() == Step(old(View()), Event.Reset)
    {
      child := [];
      backlog := 0;
      qlen := 0;
    }

    method Change(c: Config)
      requires Valid()
      modifies this, queueLen, proba
      ensures View() == Step(old(View()), Event.Change(c))
    {
      if c.limit > 0 {
        qlen := qlen - |child|;
        child := [];
      }
      SetParms(c);
    }

    method SetParms(c: Config)
      requires Valid()
      modifies this`config, this`p, this`e, this`e1, this`e2, queueLen, proba
      ensures View() == Configured(old(View()), c)
    {
      config := c;
      p := c.pInit;
      for i := 0 to SAM_NUM
        invariant config == c && p == c.pInit
        invariant forall j | 0 <= j < i :: queueLen[j] == 0 && proba[j] == c.pInit
      {
        proba[i] := c.pInit;
        queueLen[i] := 0;
      }
      e, e1, e2 := 0, 0, 0;
      assert queueLen[..] == Zeros() && proba[..] == AllAt(c.pInit);
    }

    method Graft(held: seq<Packet>)
      requires Valid()
      modifies this`child, this`qlen
      ensures View() == Step(old(View()), Event.Graft(held))
    {
      var previous := child;
      child := held;
      qlen := qlen - |previous|;
    }

    /** The end of `rbfgrad_mark_probability`. */
    method Control(g: Gains)
      requires Valid()
      modifies this`p, this`p1
      ensures View() == Step(old(View()), Event.Control(g))
    {
      var ek, ek1, ek2 := Normal(e), Normal(e1), Normal(e2);
      p1 := p;
      p := p1 + Rise(g, ek, ek1, ek2);
      if p > config.pMax {
        p := config.pMax;
      }
      if p < config.pMin {
        p := config.pMin;
      }
    }

    /** `rbfgrad_dump` takes the backlog over from the child. */
    method Dump()
      requires Valid()
      modifies this`backlog
      ensures View() == Step(old(View()), Event.Dump)
    {
      backlog := Bytes(child);
    }
  }

  function Initial(c: Config): State {
    State([], 0, 0, NoStats, 0, Zeros(), AllAt(c.pInit), 0, 0, 0, c.pInit, 0.0, c)
  }

  // ----- runs

  function Run(s: State, evs: seq<Event>): State {
    if evs == [] then s else Step(Run(s, evs[..|evs| - 1]), evs[|evs| - 1])
  }

  function AllSent(s: State, evs: seq<Event>): seq<Packet> {
    if evs == [] then []
    else AllSent(s, evs[..|evs| - 1]) + Sent(Run(s, evs[..|evs| - 1]), evs[|evs| - 1])
  }

  function AllLost(s: State, evs: seq<Event>): seq<Packet> {
    if evs == [] then []
    else AllLost(s, evs[..|evs| - 1]) + Lost(Run(s, evs[..|evs| - 1]), evs[|evs| - 1])
  }

  function AllCame(evs: seq<Event>): seq<Packet> {
    if evs == [] then [] else AllCame(evs[..|evs| - 1]) + Came(evs[|evs| - 1])
  }

  // ----- packets are conserved

  lemma WithoutIs(ps: seq<Packet>, i: nat)
    requires i < |ps|
    ensures multiset(ps) == multiset(Without(ps, i)) + multiset([ps[i]])
    ensures |Without(ps, i)| == |ps| - 1
  {
    assert ps == ps[..i] + [ps[i]] + ps[i + 1..];
  }

  lemma ChildConserves(child: seq<Packet>, skb: Packet, v: Verdict)
    ensures multiset(child) + multiset([skb]) == multiset(ChildAfter(child, skb, v)) + multiset(ChildLoss(child, skb, v))
  {
    if child != [] {
      assert child == [child[0]] + child[1..];
    }
  }

  lemma EnqueuedChild(s: State, skb: Packet, random: nat, ceOk: bool, v: Verdict)
    ensures Enqueued(s, skb, random, ceOk, v).child
         == if EarlyDrop(s, random, ceOk) then s.child else ChildAfter(s.child, skb, v)
  {
  }

  predicate Conserves(s: State, ev: Event) {
    multiset(s.child) + multiset(Came(ev))
    == multiset(Step(s, ev).child) + multiset(Sent(s, ev)) + multiset(Lost(s, ev))
  }

  lemma TakeConserves(s: State, ev: Event)
    requires ev.Dequeue? || ev.Drop?
    ensures Conserves(s, ev)
  {
    if ev.pick < |s.child| {
      WithoutIs(s.child, ev.pick);
    }
  }

  lemma StepConserves(s: State, ev: Event)
    ensures Conserves(s, ev)
  {
    match ev
    case Dequeue(i) => TakeConserves(s, ev);
    case Drop(i) => TakeConserves(s, ev);
    case Enqueue(skb, random, ceOk, v) =>
      EnqueuedChild(s, skb, random, ceOk, v);
      ChildConserves(s.child, skb, v);
    case _ =>
  }

  lemma Chained<T>(a: multiset<T>, c1: multiset<T>, x: multiset<T>, s1: multiset<T>, l1: multiset<T>,
                   c2: multiset<T>, y: multiset<T>, s2: multiset<T>, l2: multiset<T>)
    requires a + c1 == x + s1 + l1 && x + c2 == y + s2 + l2
    ensures a + (c1 + c2) == y + (s1 + s2) + (l1 + l2)
  {
    assert a + (c1 + c2) == (a + c1) + c2;
    assert (x + s1 + l1) + c2 == (x + c2) + (s1 + l1);
  }

  /** Over any run every packet that was there or came in is sent, lost or still queued: once. */
  lemma {:induction false} PacketsConserved(s: State, evs: seq<Event>)
    ensures multiset(s.child) + multiset(AllCame(evs))
         == multiset(Run(s, evs).child) + multiset(AllSent(s, evs)) + multiset(AllLost(s, evs))
  {
    if evs == [] {
    } else {
      var front, ev := evs[..|evs| - 1], evs[|evs| - 1];
      var t := Run(s, front);
      PacketsConserved(s, front);
      StepConserves(t, ev);
      Chained(multiset(s.child), multiset(AllCame(front)), multiset(t.child), multiset(AllSent(s, front)),
        multiset(AllLost(s, front)), multiset(Came(ev)), multiset(Step(t, ev).child), multiset(Sent(t, ev)),
        multiset(Lost(t, ev)));
    }
  }

  // ----- the length of the queue

  predicate FreshGraft(ev: Event) {
    ev.Graft? ==> ev.held == []
  }

  /** A step keeps the counter right exactly when it does not graft a child that already holds packets. */
  lemma QlenStep(s: State, ev: Event)
    requires s.qlen == |s.child|
    ensures Step(s, ev).qlen == |Step(s, ev).child| <==> FreshGraft(ev)
  {
    match ev
    case Dequeue(i) => if i < |s.child| { WithoutIs(s.child, i); }
    case Drop(i) => if i < |s.child| { WithoutIs(s.child, i); }
    case _ =>
  }

  /** Over any interleaving of the operations the discipline counts the packets of its child. */
  lemma {:induction false} QlenIsChildCount(s: State, evs: seq<Event>)
    requires s.qlen == |s.child| && AllFresh(evs)
    ensures Run(s, evs).qlen == |Run(s, evs).child|
  {
    if evs == [] {
    } else {
      var front := evs[..|evs| - 1];
      QlenIsChildCount(s, front);
      assert FreshGraft(evs[|evs| - 1]);
      QlenStep(Run(s, front), evs[|evs| - 1]);
    }
  }

  // ----- the backlog

  lemma {:induction false} BytesAppend(a: seq<Packet>, b: seq<Packet>)
    ensures Bytes(a + b) == Bytes(a) + Bytes(b)
  {
    if a == [] {
      assert a + b == b;
    } else {
      assert (a + b)[1..] == a[1..] + b;
      BytesAppend(a[1..], b);
    }
  }

  lemma {:induction false} BytesWithout(ps: seq<Packet>, i: nat)
    requires i < |ps|
    ensures Bytes(ps) == Bytes(Without(ps, i)) + ps[i].len
  {
    if i == 0 {
      assert Without(ps, 0) == ps[1..];
    } else {
      BytesWithout(ps[1..], i - 1);
      assert Without(ps, i) == [ps[0]] + Without(ps[1..], i - 1);
    }
  }

  /** What must hold for a step to keep the backlog right. */
  predicate KeepsBacklog(s: State, ev: Event) {
    match ev
    case Enqueue(skb, random, ceOk, v) =>
      v == Displaced && s.child != [] && !EarlyDrop(s, random, ceOk) ==> s.child[0].len == skb.len
    case Change(c) => c.limit > 0 ==> s.child == []
    case Graft(held) => Bytes(held) == Bytes(s.child)
    case _ => true
  }

  lemma BytesTaken(child: seq<Packet>, skb: Packet, v: Verdict)
    ensures Bytes(child) + skb.len == Bytes(ChildAfter(child, skb, v)) + Bytes(ChildLoss(child, skb, v))
  {
    assert Bytes([skb]) == skb.len;
    BytesAppend(child, [skb]);
    if child != [] {
      BytesAppend(child[1..], [skb]);
      assert Bytes([child[0]]) == child[0].len;
    }
  }

  lemma BacklogEnqueue(s: State, skb: Packet, random: nat, ceOk: bool, v: Verdict)
    requires s.backlog == Bytes(s.child)
    ensures var t := Enqueued(s, skb, random, ceOk, v);
            t.backlog == Bytes(t.child) <==> KeepsBacklog(s, Enqueue(skb, random, ceOk, v))
  {
    EnqueuedChild(s, skb, random, ceOk, v);
    BytesTaken(s.child, skb, v);
    assert v == Displaced && s.child != [] ==> Bytes(ChildLoss(s.child, skb, v)) == s.child[0].len by {
      if s.child != [] { assert Bytes([s.child[0]]) == s.child[0].len; }
    }
  }

  lemma BacklogStep(s: State, ev: Event)
    requires s.backlog == Bytes(s.child)
    ensures Step(s, ev).backlog == Bytes(Step(s, ev).child) <==> KeepsBacklog(s, ev)
  {
    match ev
    case Dequeue(i) => if i < |s.child| { BytesWithout(s.child, i); }
    case Drop(i) => if i < |s.child| { BytesWithout(s.child, i); }
    case Enqueue(skb, random, ceOk, v) => BacklogEnqueue(s, skb, random, ceOk, v);
    case _ =>
  }

  /** A run of enqueue, dequeue and drop over a child that accepts or drops. */
  predicate Plain(ev: Event) {
    match ev
    case Enqueue(_, _, _, v) => v == Accepted || v == Rejected
    case Dequeue(_) => true
    case Drop(_) => true
    case _ => false
  }

  predicate AllPlain(evs: seq<Event>) {
    forall i | 0 <= i < |evs| :: Plain(evs[i])
  }

  lemma {:induction false} BacklogIsQueuedBytes(s: State, evs: seq<Event>)
    requires s.backlog == Bytes(s.child) && AllPlain(evs)
    ensures Run(s, evs).backlog == Bytes(Run(s, evs).child)
  {
    if evs == [] {
    } else {
      var front := evs[..|evs| - 1];
      BacklogIsQueuedBytes(s, front);
      assert Plain(evs[|evs| - 1]);
      BacklogStep(Run(s, front), evs[|evs| - 1]);
    }
  }

  /** The counters account for every packet lost. */
  function Counts(t: Stats): nat {
    t.probDrop + t.pdrop + t.other
  }

  lemma LossStep(s: State, ev: Event)
    requires Plain(ev)
    ensures Counts(Step(s, ev).stats) == Counts(s.stats) + |Lost(s, ev)|
    ensures Step(s, ev).stats.drops == s.stats.drops + |Lost(s, ev)|
  {
  }

  lemma {:induction false} LossesCounted(s: State, evs: seq<Event>)
    requires AllPlain(evs) && s.stats.drops == Counts(s.stats)
    ensures Counts(Run(s, evs).stats) == Counts(s.stats) + |AllLost(s, evs)|
    ensures Run(s, evs).stats.drops == Counts(Run(s, evs).stats)
  {
    if evs == [] {
    } else {
      var front, ev := evs[..|evs| - 1], evs[|evs| - 1];
      LossesCounted(s, front);
      assert Plain(ev);
      LossStep(Run(s, front), ev);
    }
  }

  function Arrivals(evs: seq<Event>): nat {
    if evs == [] then 0
    else Arrivals(evs[..|evs| - 1]) + if evs[|evs| - 1].Enqueue? then 1 else 0
  }

  lemma {:induction false} CameAreArrivals(evs: seq<Event>)
    requires AllPlain(evs)
    ensures |AllCame(evs)| == Arrivals(evs)
  {
    if evs == [] {
    } else {
      CameAreArrivals(evs[..|evs| - 1]);
      assert Plain(evs[|evs| - 1]);
    }
  }

  predicate Cleared(s: State) {
    s.child == [] && s.qlen == 0 && s.backlog == 0 && Counts(s.stats) == 0 && s.stats.drops == 0
  }

  lemma InitialIsCleared(c: Config)
    ensures Cleared(Initial(c))
  {
  }

  predicate AllFresh(evs: seq<Event>) {
    forall i | 0 <= i < |evs| :: FreshGraft(evs[i])
  }

  lemma PlainIsFresh(evs: seq<Event>)
    requires AllPlain(evs)
    ensures AllFresh(evs)
  {
    forall i | 0 <= i < |evs| ensures FreshGraft(evs[i]) { assert Plain(evs[i]); }
  }

  lemma CountersAccount(s: State, evs: seq<Event>)
    requires AllPlain(evs) && Cleared(s)
    ensures var t := Run(s, evs);
            && t.qlen == |t.child| && t.backlog == Bytes(t.child)
            && |AllLost(s, evs)| == Counts(t.stats) && |AllCame(evs)| == Arrivals(evs)
  {
    PlainIsFresh(evs);
    QlenIsChildCount(s, evs);
    BacklogIsQueuedBytes(s, evs);
    LossesCounted(s, evs);
    CameAreArrivals(evs);
  }

  lemma PacketsAccount(s: State, evs: seq<Event>)
    requires s.child == []
    ensures |AllCame(evs)| == |Run(s, evs).child| + |AllSent(s, evs)| + |AllLost(s, evs)|
  {
    PacketsConserved(s, evs);
    SizesAgree(s.child, AllCame(evs), Run(s, evs).child, AllSent(s, evs), AllLost(s, evs));
  }

  /**
   From an empty child and cleared counters: arrivals are early drops, child rejects, departures,
   evictions and what is still queued, and the backlog is the queued bytes.
   */
  lemma ArrivalsAccounted(s: State, evs: seq<Event>)
    requires AllPlain(evs) && Cleared(s)
    ensures var t := Run(s, evs);
            && Arrivals(evs) == t.stats.probDrop + t.stats.pdrop + |AllSent(s, evs)| + t.stats.other + t.qlen
            && t.backlog == Bytes(t.child)
  {
    CountersAccount(s, evs);
    PacketsAccount(s, evs);
  }

  lemma SizesAgree(a: seq<Packet>, b: seq<Packet>, x: seq<Packet>, y: seq<Packet>, z: seq<Packet>)
    requires multiset(a) + multiset(b) == multiset(x) + multiset(y) + multiset(z)
    ensures |a| + |b| == |x| + |y| + |z|
  {
    assert |multiset(a) + multiset(b)| == |a| + |b|;
  }

  // ----- the sampled history

  datatype Sample = Sample(qlen: int, p: real)

  predicate TakesSample(s: State, ev: Event) {
    ev.Enqueue? && s.cyc + 1 == CYC_MAX
  }

  /** The samples taken in a run since the last configuration, newest first. */
  function Samples(s: State, evs: seq<Event>): seq<Sample> {
    if evs == [] then []
    else
      var front, last := evs[..|evs| - 1], evs[|evs| - 1];
      var t := Run(s, front);
      if last.Change? then []
      else if TakesSample(t, last) then [Sample(t.qlen, t.p1)] + Samples(s, front)
      else Samples(s, front)
  }

  /** The history arrays and the error terms hold just these samples. */
  predicate Remembers(s: State, log: seq<Sample>) {
    && |s.queueLen| == 10 && |s.proba| == 10
    && (forall j | 0 <= j < 10 :: s.queueLen[j] == if j < |log| then log[j].qlen else 0)
    && (forall j | 0 <= j < 10 :: s.proba[j] == if j < |log| then log[j].p else s.config.pInit)
    && s.e == (if |log| > 0 then log[0].qlen - s.config.qRef else 0)
    && s.e1 == (if |log| > 1 then log[1].qlen - s.config.qRef else 0)
    && s.e2 == (if |log| > 2 then log[2].qlen - s.config.qRef else 0)
  }

  lemma SampleRemembered(s: State, log: seq<Sample>)
    requires Remembers(s, log)
    ensures Remembers(Sampled(s), [Sample(s.qlen, s.p1)] + log)
  {
  }

  lemma OtherwiseKept(s: State, ev: Event, log: seq<Sample>)
    requires Remembers(s, log) && !TakesSample(s, ev) && !ev.Change?
    ensures Remembers(Step(s, ev), log)
  {
  }

  lemma SampleStep(s: State, ev: Event, log: seq<Sample>)
    requires Remembers(s, log) && TakesSample(s, ev)
    ensures Remembers(Step(s, ev), [Sample(s.qlen, s.p1)] + log)
  {
    SampleRemembered(s, log);
  }

  /**
   After any run `queue_len` holds the latest ten sampled lengths since the last configuration, newest
   first and zeros after; `proba` the probabilities in force before them; the error terms are the newest
   three lengths less the reference, whichever way each packet was marked.
   */
  lemma {:induction false} HistoryIsWindow(c: Config, evs: seq<Event>)
    ensures Remembers(Run(Initial(c), evs), Samples(Initial(c), evs))
  {
    if evs == [] {
    } else {
      var front, last := evs[..|evs| - 1], evs[|evs| - 1];
      HistoryIsWindow(c, front);
      var t, log := Run(Initial(c), front), Samples(Initial(c), front);
      if last.Change? {
      } else if TakesSample(t, last) {
        SampleStep(t, last, log);
      } else {
        OtherwiseKept(t, last, log);
      }
    }
  }

  function SampleCount(s: State, evs: seq<Event>): nat {
    if evs == [] then 0
    else SampleCount(s, evs[..|evs| - 1]) + if TakesSample(Run(s, evs[..|evs| - 1]), evs[|evs| - 1]) then 1 else 0
  }

  /** One sample for every twenty arrivals, whatever else happens between them. */
  lemma {:induction false} OneSamplePerTwenty(s: State, evs: seq<Event>)
    requires s.cyc < 20
    ensures Run(s, evs).cyc < 20
    ensures 20 * SampleCount(s, evs) + Run(s, evs).cyc == s.cyc + Arrivals(evs)
  {
    if evs == [] {
    } else {
      OneSamplePerTwenty(s, evs[..|evs| - 1]);
    }
  }

  predicate Sane(c: Config) {
    c.pMin <= c.pInit <= c.pMax
  }

  predicate Bounded(s: State) {
    s.config.pMin <= s.p <= s.config.pMax
  }

  predicate KeepsBounds(ev: Event) {
    ev.Change? ==> Sane(ev.config)
  }

  lemma BoundedStep(s: State, ev: Event)
    requires Bounded(s)
    ensures Bounded(Step(s, ev)) <==> KeepsBounds(ev)
  {
  }

  /** At the end of the run and at every point before it. */
  predicate AlwaysBounded(s: State, evs: seq<Event>) {
    Bounded(Run(s, evs)) && (evs == [] || AlwaysBounded(s, evs[..|evs| - 1]))
  }

  predicate AllKeepBounds(evs: seq<Event>) {
    evs == [] || (KeepsBounds(evs[|evs| - 1]) && AllKeepBounds(evs[..|evs| - 1]))
  }

  /** The probability lies between the configured bounds all through a run exactly when every configuration is sane. */
  lemma {:induction false} ProbabilityBounded(s: State, evs: seq<Event>)
    requires Bounded(s)
    ensures AlwaysBounded(s, evs) <==> AllKeepBounds(evs)
  {
    if evs == [] {
    } else {
      var front := evs[..|evs| - 1];
      ProbabilityBounded(s, front);
      if Bounded(Run(s, front)) {
        BoundedStep(Run(s, front), evs[|evs| - 1]);
      }
    }
  }

  /** A queue that stays above its reference drives the probability up, one below drives it down. */
  lemma ControlPushesBack(s: State, g: Gains)
    requires Bounded(s) && s.e == s.e1 == s.e2 && g.ki >= 0.0
    ensures var t := Step(s, Control(g));
            && (s.e >= 0 ==> t.p >= s.p) && (s.e <= 0 ==> t.p <= s.p) && t.p1 == s.p
  {
    var e := Normal(s.e);
    SteadyRise(g, e);
    assert s.e >= 0 ==> e >= 0.0;
    assert s.e <= 0 ==> e <= 0.0;
  }

  lemma SteadyRise(g: Gains, e: real)
    requires g.ki >= 0.0
    ensures e >= 0.0 ==> Rise(g, e, e, e) >= 0.0
    ensures e <= 0.0 ==> Rise(g, e, e, e) <= 0.0
  {
    assert g.kp * (e - e) == 0.0 && g.kd * (e - 2.0 * e + e) == 0.0;
    if e <= 0.0 {
      assert g.ki * e <= 0.0;
    }
  }

  /** How the control step answers a change of each error term, and of all alike. */
  lemma RiseIsPid(g: Gains, e: real, e1: real, e2: real, d: real)
    ensures Rise(g, 0.0, 0.0, 0.0) == 0.0
    ensures Rise(g, e + d, e1, e2) - Rise(g, e, e1, e2) == (g.kp + g.ki + g.kd) * d
    ensures Rise(g, e, e1 + d, e2) - Rise(g, e, e1, e2) == -(g.kp + 2.0 * g.kd) * d
    ensures Rise(g, e, e1, e2 + d) - Rise(g, e, e1, e2) == g.kd * d
    ensures Rise(g, e + d, e1 + d, e2 + d) - Rise(g, e, e1, e2) == g.ki * d
  {
  }

  /** The new probability: the old one and the PID terms of the errors over 6500, inside the bounds. */
  lemma ControlExact(s: State, g: Gains)
    requires s.config.pMin <= s.config.pMax
    ensures var t, p := Step(s, Control(g)).p, s.p + Rise(g, s.e as real / 6500.0, s.e1 as real / 6500.0, s.e2 as real / 6500.0);
            && (p < s.config.pMin ==> t == s.config.pMin) && (p > s.config.pMax ==> t == s.config.pMax)
            && (s.config.pMin <= p <= s.config.pMax ==> t == p)
  {
  }

  /** Every packet marked for congestion is dropped or carries the mark, and is counted once for it. */
  lemma {:induction false} MarksCounted(s: State, evs: seq<Event>)
    requires s.stats.overlimits == s.stats.probDrop + s.stats.probMark
    ensures var t := Run(s, evs).stats; t.overlimits == t.probDrop + t.probMark
  {
    if evs == [] {
    } else {
      var front, ev := evs[..|evs| - 1], evs[|evs| - 1];
      MarksCounted(s, front);
      MarkStep(Run(s, front), ev);
    }
  }

  lemma MarkStep(s: State, ev: Event)
    requires s.stats.overlimits == s.stats.probDrop + s.stats.probMark
    ensures var t := Step(s, ev).stats;
            && t.overlimits == t.probDrop + t.probMark
            && t.overlimits == s.stats.overlimits
                 + if ev.Enqueue? && ev.random as real + 1.0 <= s.p * 2147483647.0 then 1 else 0
  {
    if ev.Enqueue? {
      MarkExact(s.p, ev.random);
    }
  }

  /** A number drawn marks exactly when its successor is within the probability's share of 2147483647. */
  lemma MarkExact(p: real, random: nat)
    ensures Marks(p, random) <==> random as real + 1.0 <= p * 2147483647.0
  {
    var y := p * 2147483647.0;
    if y >= 0.0 {
      assert y.Floor as real <= y < y.Floor as real + 1.0;
      assert random < y.Floor <==> random + 1 <= y.Floor;
    } else {
      assert (-y).Floor >= 0;
    }
  }

  /** An arrival marked is dropped unless marking by ECN is enabled and possible; any other goes to the child. */
  lemma ArrivalOutcome(s: State, skb: Packet, random: nat, ceOk: bool, v: Verdict)
    ensures var t := Step(s, Enqueue(skb, random, ceOk, v));
            var early := random as real + 1.0 <= s.p * 2147483647.0 && !(s.config.ecn && ceOk);
            && t.child == (if early then s.child else ChildAfter(s.child, skb, v))
            && t.qlen - s.qlen == (if !early && v == Accepted then 1 else 0)
            && t.backlog - s.backlog == (if !early && v == Accepted then skb.len else 0)
            && t.stats.probDrop - s.stats.probDrop == (if early then 1 else 0)
            && t.stats.pdrop - s.stats.pdrop == (if !early && (v == Rejected || v == Displaced) then 1 else 0)
            && t.stats.drops - s.stats.drops == (if early || v == Rejected || v == Displaced then 1 else 0)
  {
    MarkExact(s.p, random);
  }

  /** Accepted packets go to the end; a displacing one costs the head; the child is otherwise as it was. */
  lemma ChildAfterIs(child: seq<Packet>, skb: Packet, v: Verdict)
    ensures ChildAfter(child, skb, Accepted) == child + [skb]
    ensures ChildAfter(child, skb, Rejected) == ChildAfter(child, skb, Stolen) == child
    ensures child != [] ==> [child[0]] + ChildAfter(child, skb, Displaced) == child + [skb]
  {
    if child != [] {
      assert [child[0]] + (child[1..] + [skb]) == ([child[0]] + child[1..]) + [skb];
    }
  }

  // ----- the counters tell the causes of loss apart

  datatype Cause = Early | ByChild | Evicted | Carried

  /** Whether an operation adds to a counter: an early drop, a child's drop, an eviction, or a packet that carries the mark. */
  function Adds(s: State, ev: Event, cause: Cause): nat {
    var marked := ev.Enqueue? && ev.random as real + 1.0 <= s.p * 2147483647.0;
    var carried := ev.Enqueue? && s.config.ecn && ev.ceOk;
    var hit := match cause
      case Early => marked && !carried
      case Carried => marked && carried
      case ByChild => ev.Enqueue? && (marked ==> carried) && (ev.verdict == Rejected || ev.verdict == Displaced)
      case Evicted => ev.Drop? && ev.pick < |s.child|;
    if hit then 1 else 0
  }

  function Tally(s: State, evs: seq<Event>, cause: Cause): nat {
    if evs == [] then 0
    else Tally(s, evs[..|evs| - 1], cause) + Adds(Run(s, evs[..|evs| - 1]), evs[|evs| - 1], cause)
  }

  /** Over any run each counter has grown by the operations of its own cause. */
  lemma {:induction false} CausesCounted(s: State, evs: seq<Event>)
    ensures var t := Run(s, evs).stats;
            && t.probDrop == s.stats.probDrop + Tally(s, evs, Early)
            && t.probMark == s.stats.probMark + Tally(s, evs, Carried)
            && t.pdrop == s.stats.pdrop + Tally(s, evs, ByChild)
            && t.other == s.stats.other + Tally(s, evs, Evicted)
  {
    if evs == [] {
    } else {
      CausesCounted(s, evs[..|evs| - 1]);
      CauseStep(Run(s, evs[..|evs| - 1]), evs[|evs| - 1]);
    }
  }

  lemma CauseStep(s: State, ev: Event)
    ensures var t := Step(s, ev).stats;
            && t.probDrop == s.stats.probDrop + Adds(s, ev, Early)
            && t.probMark == s.stats.probMark + Adds(s, ev, Carried)
            && t.pdrop == s.stats.pdrop + Adds(s, ev, ByChild)
            && t.other == s.stats.other + Adds(s, ev, Evicted)
  {
    if ev.Enqueue? {
      MarkExact(s.p, ev.random);
    }
  }

  /** A new configuration is in force at once, with its initial probability and an empty history. */
  lemma ChangeRestarts(s: State, c: Config)
    ensures var t := Step(s, Change(c));
            && t.config == c && t.p == c.pInit && Remembers(t, []) && t.p1 == s.p1 && t.cyc == s.cyc
            && (c.limit > 0 ==> t.child == [] && t.qlen == s.qlen - |s.child|)
            && (c.limit == 0 ==> t.child == s.child && t.qlen == s.qlen)
            && t.backlog == s.backlog && t.stats == s.stats
  {
  }
}
