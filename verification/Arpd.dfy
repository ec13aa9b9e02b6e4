/**
 The ARP daemon's cache (misc/arpd.c): hardware addresses learnt from the kernel and from ARP packets,
 and negative entries that ration the probes for hosts that do not answer.

 The clock, and whether a probe gets past the rate limiter and the network, come in with each event.
 */
module Arpd {
  import opened Basics
  import opened Words

  type Data = seq<Byte>

  const U32 := 0x1_0000_0000

  datatype Key = Key(iface: nat, addr: nat)

  type Db = map<Key, Data>

  datatype Config = Config(activeProbing: int, negativeTimeout: nat)

  // ----- negative entries

  /** Big-endian bytes of a number */
  function ToBytes(x: nat, n: nat): (r: seq<Byte>)
    ensures |r| == n
  {
    if n == 0 then [] else ToBytes(x / 256, n - 1) + [x % 256]
  }

  function FromBytes(b: seq<Byte>): nat {
    if b == [] then 0 else 256 * FromBytes(b[..|b| - 1]) + b[|b| - 1]
  }

  /** One more than the largest number that `k` bytes hold. */
  function Bound(k: nat): nat {
    if k == 0 then 1 else 256 * Bound(k - 1)
  }

  lemma BytesStep(x: nat, n: nat, high: nat)
    requires n > 0 && high == x / 256 && FromBytes(ToBytes(high, n - 1)) == high
    ensures FromBytes(ToBytes(x, n)) == x
  {
    FromBytesSnoc(ToBytes(high, n - 1), x % 256);
    assert ToBytes(x, n) == ToBytes(high, n - 1) + [x % 256];
  }

  /** Without its low byte a number has one byte less. */
  lemma DropLow(x: nat, n: nat) returns (high: nat)
    requires n > 0 && x < Bound(n)
    ensures high == x / 256 && high < Bound(n - 1)
  {
    high := x / 256;
  }

  lemma {:induction false} BytesRoundTrip(x: nat, n: nat)
    requires x < Bound(n)
    ensures FromBytes(ToBytes(x, n)) == x
    decreases n
  {
    if n == 0 {
    } else {
      var high := DropLow(x, n);
      BytesRoundTrip(high, n - 1);
      BytesStep(x, n, high);
    }
  }

  lemma FromBytesSnoc(b: seq<Byte>, d: Byte)
    ensures FromBytes(b + [d]) == 256 * FromBytes(b) + d
  {
    assert (b + [d])[..|b|] == b;
  }

  /** Four bytes, the highest first */
  lemma FourBytes(a: Byte, b: Byte, c: Byte, d: Byte)
    ensures FromBytes([a, b, c, d]) == 0x100_0000 * a as int + 0x1_0000 * b as int + 0x100 * c as int + d as int
  {
    FromBytesSnoc([a, b, c], d);
    FromBytesSnoc([a, b], c);
    FromBytesSnoc([a], b);
    FromBytesSnoc([], a);
    assert [a, b, c, d] == [a, b, c] + [d] && [a, b, c] == [a, b] + [c] && [a, b] == [a] + [b] && [a] == [] + [a];
  }

  /** A byte of an entry; what lies beyond its end is not modelled. */
  function At(x: Data, i: nat): Byte {
    if i < |x| then x[i] else 0
  }

  predicate IsNeg(x: Data) {
    At(x, 0) == 0xFF
  }

  function NegCount(x: Data): Byte {
    At(x, 1)
  }

  function NegTime(x: Data): nat {
    FromBytes([At(x, 2), At(x, 3), At(x, 4), At(x, 5)])
  }

  function NegAge(x: Data, now: nat): nat {
    Increase(NegTime(x), Wrap(now, U32), U32)
  }

  predicate NegValid(x: Data, now: nat, cfg: Config) {
    NegAge(x, now) < cfg.negativeTimeout
  }

  /** `prepare_neg_entry` */
  function NegEntry(now: nat): (x: Data)
    ensures |x| == 6
  {
    [0xFF, 0] + ToBytes(Wrap(now, U32), 4)
  }

  lemma NegEntryShows(now: nat)
    ensures var x := NegEntry(now); IsNeg(x) && NegCount(x) == 0 && NegTime(x) == Wrap(now, U32)
    ensures NegEntry(now)[0] == 0xFF && NegEntry(now)[1] == 0
  {
    var x, b := NegEntry(now), ToBytes(Wrap(now, U32), 4);
    assert [At(x, 2), At(x, 3), At(x, 4), At(x, 5)] == b;
    assert Bound(4) == U32;
    BytesRoundTrip(Wrap(now, U32), 4);
  }

  /** `NEG_CNT(x)++` in its byte */
  function Bumped(x: Data): Data {
    if |x| < 2 then x else x[1 := if x[1] == 255 then 0 else x[1] + 1]
  }

  lemma BumpedKeepsKind(x: Data)
    ensures IsNeg(Bumped(x)) <==> IsNeg(x)
  {
  }

  lemma BumpedShows(x: Data)
    requires |x| >= 2
    ensures var y := Bumped(x);
            && |y| == |x| && IsNeg(y) == IsNeg(x) && NegTime(y) == NegTime(x)
            && NegCount(y) == if NegCount(x) == 255 then 0 else NegCount(x) + 1
  {
  }

  // ----- events

  datatype Nud = Incomplete | Reachable | Stale | Delay | Probe | Failed | Noarp | Permanent

  datatype Kind = GetNeigh | NewNeigh | OtherType

  /** A neighbour message from the kernel. */
  datatype Neigh = Neigh(kind: Kind, long: bool, request: bool, inet: bool, handled: bool, flags: nat, unicast: bool,
                         state: set<Nud>, iface: nat, dst: Option<nat>, lladdr: Option<Data>)

  /** The bytes of an ARP packet, the length of the link-layer address it came with, and its interface. */
  datatype Packet = Packet(bytes: seq<Byte>, halen: nat, handled: bool, iface: nat)

  datatype Event =
    | FromKernel(msg: Neigh, now: nat, sendOk: bool)
    | FromNet(pkt: Packet, now: nat)

  /** The key of a message that is looked at. */
  function Concerns(m: Neigh): Option<Key> {
    if m.kind != OtherType && m.long && m.inet && m.handled && m.flags == 0 && m.unicast
       && m.state - {Noarp} != {} && m.dst.Some?
    then Some(Key(m.iface, m.dst.value)) else None
  }

  /** Unicast neighbours of IPv4 on a handled interface, in some state besides NUD_NOARP, that name their address. */
  lemma ConcernsExactly(m: Neigh, k: Key)
    ensures Concerns(m) == Some(k)
       <==> && (m.kind == GetNeigh || m.kind == NewNeigh) && m.long && m.inet && m.handled && m.unicast && m.flags == 0
            && (exists s :: s in m.state && s != Noarp) && m.iface == k.iface && m.dst == Some(k.addr)
  {
    if s :| s in m.state && s != Noarp {
      assert s in m.state - {Noarp};
    }
    if m.state - {Noarp} != {} {
      var s :| s in m.state - {Noarp};
      assert s in m.state && s != Noarp;
    }
  }

  const ARPHDR := 8

  /** A field of two bytes, high byte first */
  function Net16(b: seq<Byte>, pos: nat): nat
    requires pos + 2 <= |b|
  {
    256 * b[pos] as int + b[pos + 1] as int
  }

  const ETH_P_IP := 0x800
  const ARPOP_REQUEST := 1
  const ARPOP_REPLY := 2

  /** The sanity checks: request or reply, for IPv4, with addresses as long as they came, all inside. */
  predicate Sane(p: Packet) {
    var b := p.bytes;
    && p.handled && |b| >= ARPHDR
    && (Net16(b, 6) == ARPOP_REQUEST || Net16(b, 6) == ARPOP_REPLY) && b[5] == 4 && Net16(b, 2) == ETH_P_IP
    && b[4] as int == p.halen && ARPHDR + 2 * 4 + 2 * b[4] as int <= |b|
  }

  function Sender(p: Packet): nat
    requires Sane(p)
  {
    var at := ARPHDR + p.bytes[4] as int;
    FromBytes(p.bytes[at..at + 4])
  }

  function HwAddr(p: Packet): Data
    requires Sane(p)
  {
    p.bytes[ARPHDR..ARPHDR + p.bytes[4] as int]
  }

  /** The key whose address a packet carries; duplicate address probes carry none. */
  function Carries(p: Packet): Option<Key> {
    if Sane(p) && Sender(p) != 0 then Some(Key(p.iface, Sender(p))) else None
  }

  /** The request that `send_probe` puts together for an Ethernet interface with this address. */
  function ProbeBytes(hw: Data, src: nat, dst: nat): seq<Byte> {
    [0, 1, 8, 0, 6, 4, 0, 1] + hw + ToBytes(src, 4) + [0xFF, 0xFF, 0xFF, 0xFF, 0xFF, 0xFF] + ToBytes(dst, 4)
  }

  /** A probe sent by one daemon teaches another the sender's address, and nothing if the sender has none yet. */
  lemma ProbeTeaches(hw: Data, src: nat, dst: nat, iface: nat)
    requires |hw| == 6 && src < U32
    ensures var p := Packet(ProbeBytes(hw, src, dst), 6, true, iface);
            && Carries(p) == (if src == 0 then None else Some(Key(iface, src)))
            && Sane(p) && HwAddr(p) == hw
  {
    var b, p := ProbeBytes(hw, src, dst), Packet(ProbeBytes(hw, src, dst), 6, true, iface);
    assert b[2] == 8 && b[3] == 0 && b[4] == 6 && b[5] == 4 && b[6] == 0 && b[7] == 1;
    assert b[8..14] == hw && b[14..18] == ToBytes(src, 4);
    assert Bound(4) == U32;
    BytesRoundTrip(src, 4);
  }

  // ----- what an event does

  datatype Effect = Effect(db: Db, reply: Option<Data>, probed: bool)

  predicate Positive(db: Db, k: Key) {
    k in db && !IsNeg(db[k])
  }

  predicate Failing(db: Db, k: Key, now: nat, cfg: Config) {
    k in db && NegValid(db[k], now, cfg)
  }

  /** `memcmp` over the length of what is stored */
  predicate Begins(a: Data, stored: Data) {
    |stored| <= |a| && a[..|stored|] == stored
  }

  function Learn(db: Db, k: Key, a: Data): Db {
    if Positive(db, k) && Begins(a, db[k]) then db else db[k := a]
  }

  function Asked(db: Db, k: Key, state: set<Nud>, now: nat, sendOk: bool, cfg: Config): Effect {
    var probe := cfg.activeProbing != 0 && sendOk;
    if Probe in state then Effect(db - {k}, None, probe)
    else if Incomplete !in state then Effect(db, None, false)
    else if Positive(db, k) then Effect(db, Some(db[k]), false)
    else if !Failing(db, k, now, cfg) then Effect(db, None, probe)
    else if NegCount(db[k]) >= cfg.activeProbing then Effect(db, None, false)
    else Effect(if probe then db[k := Bumped(db[k])] else db, None, probe)
  }

  function Told(db: Db, k: Key, state: set<Nud>, lladdr: Option<Data>, now: nat, cfg: Config): Db {
    if Failed in state then
      if k in db && IsNeg(db[k]) && NegValid(db[k], now, cfg) then db else db[k := NegEntry(now)]
    else if lladdr.Some? then Learn(db, k, lladdr.value)
    else db
  }

  function Step(db: Db, cfg: Config, ev: Event): Effect {
    match ev
    case FromKernel(m, now, sendOk) =>
      if Concerns(m).None? then Effect(db, None, false)
      else
        var k := Concerns(m).value;
        if m.kind == GetNeigh then
          if m.request then Asked(db, k, m.state, now, sendOk, cfg) else Effect(db, None, false)
        else Effect(if m.request then db else Told(db, k, m.state, m.lladdr, now, cfg), None, false)
    case FromNet(p, _) =>
      Effect(if Carries(p).None? then db else Learn(db, Carries(p).value, HwAddr(p)), None, false)
  }

  // ----- the daemon

  class Daemon {
    const cfg: Config
    var db: Db

    constructor (cfg: Config, db: Db)
      ensures this.cfg == cfg && this.db == db
    {
      this.cfg, this.db := cfg, db;
    }

    /** `do_one_request` */
    method DoOneRequest(m: Neigh, now: nat, sendOk: bool) returns (ret: int, reply: Option<Data>, probed: bool)
      modifies this
      ensures Effect(db, reply, probed) == Step(old(db), cfg, FromKernel(m, now, sendOk))
      ensures ret == if m.kind != OtherType && !m.long then -1 else 0
    {
      ret, reply, probed := 0, None, false;
      if m.kind == OtherType {
        return;
      }
      if !m.long {
        return -1, None, false;
      }
      if !m.inet || !m.handled || m.flags != 0 || !m.unicast || m.state - {Noarp} == {} {
        return;
      }
      if m.dst.None? {
        return;
      }
      var key := Key(m.iface, m.dst.value);
      if m.kind == GetNeigh {
        if m.request {
          reply, probed := Answer(key, m.state, now, sendOk);
        }
      } else if !m.request {
        if Failed in m.state {
          if key !in db || !IsNeg(db[key]) || !NegValid(db[key], now, cfg) {
            db := db[key := NegEntry(now)];
          }
        } else if m.lladdr.Some? {
          Store(key, m.lladdr.value);
        }
      }
    }

    /** The kernel asks for an address. */
    method Answer(key: Key, state: set<Nud>, now: nat, sendOk: bool) returns (reply: Option<Data>, probed: bool)
      modifies this
      ensures Effect(db, reply, probed) == Asked(old(db), key, state, now, sendOk, cfg)
    {
      reply, probed := None, false;
      var account := false;
      if Probe !in state && Incomplete !in state {
        return;
      }
      if Probe in state {
        db := db - {key};
      } else {
        if key in db && !IsNeg(db[key]) {
          reply := Some(db[key]);
          return;
        }
        if key in db && NegValid(db[key], now, cfg) {
          if NegCount(db[key]) >= cfg.activeProbing {
            return;
          }
          account := true;
        }
      }
      if cfg.activeProbing != 0 && sendOk {
        probed := true;
        if account {
          db := db[key := Bumped(db[key])];
        }
      }
    }

    method Store(key: Key, addr: Data)
      modifies this
      ensures db == Learn(old(db), key, addr)
    {
      if key in db && !IsNeg(db[key]) {
        if Begins(addr, db[key]) {
          return;
        }
      }
      db := db[key := addr];
    }

    /** `get_arp_pkt` */
    method GetArpPkt(p: Packet, now: nat)
      modifies this
      ensures Effect(db, None, false) == Step(old(db), cfg, FromNet(p, now))
    {
      if !p.handled {
        return;
      }
      var b := p.bytes;
      if |b| < ARPHDR || (Net16(b, 6) != ARPOP_REQUEST && Net16(b, 6) != ARPOP_REPLY) || b[5] != 4
         || Net16(b, 2) != ETH_P_IP || b[4] as int != p.halen || ARPHDR + 2 * 4 + 2 * b[4] as int > |b| {
        return;
      }
      var hln := b[4] as int;
      var sender := FromBytes(b[ARPHDR + hln..ARPHDR + hln + 4]);
      if sender == 0 {
        return;
      }
      Store(Key(p.iface, sender), b[ARPHDR..ARPHDR + hln]);
    }
  }

  // ----- runs

  function Run(evs: seq<Event>, cfg: Config): Db {
    if evs == [] then map[] else Step(Run(evs[..|evs| - 1], cfg), cfg, evs[|evs| - 1]).db
  }

  /** The address an event teaches for a key. */
  function Teaches(ev: Event, k: Key): Option<Data> {
    match ev
    case FromKernel(m, _, _) =>
      if Concerns(m) == Some(k) && m.kind == NewNeigh && !m.request && Failed !in m.state then m.lladdr else None
    case FromNet(p, _) => if Carries(p) == Some(k) then Some(HwAddr(p)) else None
  }

  /** The kernel gives the host up, or doubts the address it has. */
  predicate Invalidates(ev: Event, k: Key) {
    && ev.FromKernel? && Concerns(ev.msg) == Some(k)
    && if ev.msg.kind == NewNeigh then !ev.msg.request && Failed in ev.msg.state
       else ev.msg.request && Probe in ev.msg.state
  }

  /** The kernel asks for an address it does not have. */
  predicate Asks(ev: Event, k: Key) {
    && ev.FromKernel? && Concerns(ev.msg) == Some(k) && ev.msg.kind == GetNeigh && ev.msg.request
    && Incomplete in ev.msg.state && Probe !in ev.msg.state
  }

  /** The address last learnt for a key and not invalidated since. */
  function LastLearnt(evs: seq<Event>, k: Key): Option<Data> {
    if evs == [] then None
    else
      var ev := evs[|evs| - 1];
      if Teaches(ev, k).Some? then Teaches(ev, k)
      else if Invalidates(ev, k) then None
      else LastLearnt(evs[..|evs| - 1], k)
  }

  function Answerable(db: Db, k: Key): Option<Data> {
    if Positive(db, k) then Some(db[k]) else None
  }

  /**
   After being taught an address the daemon answers with it, exactly when the address does not look
   like a negative entry and does not merely lengthen the one it has.
   */
  lemma LearntIsAnswered(db: Db, k: Key, a: Data)
    ensures Answerable(Learn(db, k, a), k) == Some(a)
       <==> !LooksNegative(a) && !(Positive(db, k) && Lengthens(a, db[k]))
  {
    if Positive(db, k) {
      assert |a| == |db[k]| ==> a[..|a|] == a;
    }
  }

  predicate LooksNegative(a: Data) {
    a != [] && a[0] == 0xFF
  }

  /** `a` is `b` and more. */
  predicate Lengthens(a: Data, b: Data) {
    |b| < |a| && a[..|b|] == b
  }

  /** What an event does to the address of a key. */
  lemma AnswerableStep(db: Db, cfg: Config, ev: Event, k: Key)
    ensures var now := Answerable(Step(db, cfg, ev).db, k);
            now == if Teaches(ev, k).Some? then Answerable(Learn(db, k, Teaches(ev, k).value), k)
                   else if Invalidates(ev, k) then None
                   else Answerable(db, k)
  {
    if k in db {
      BumpedKeepsKind(db[k]);
    }
    if ev.FromKernel? {
      NegEntryShows(ev.now);
    }
  }

  /** A taught address that does not look like a negative entry and does not merely lengthen the one known. */
  predicate Proper(taught: Option<Data>, known: Option<Data>) {
    taught.Some? ==>
      !LooksNegative(taught.value) && !(known.Some? && Lengthens(taught.value, known.value))
  }

  predicate AllProper(evs: seq<Event>, k: Key) {
    forall i | 0 <= i < |evs| :: Proper(Teaches(evs[i], k), LastLearnt(evs[..i], k))
  }

  predicate HoldsLastLearnt(evs: seq<Event>, cfg: Config, k: Key) {
    Answerable(Run(evs, cfg), k) == LastLearnt(evs, k)
  }

  /** One more event keeps the address right exactly when what it teaches is proper. */
  lemma HoldsStep(evs: seq<Event>, cfg: Config, k: Key)
    requires evs != [] && HoldsLastLearnt(evs[..|evs| - 1], cfg, k)
    ensures HoldsLastLearnt(evs, cfg, k)
       <==> Proper(Teaches(evs[|evs| - 1], k), LastLearnt(evs[..|evs| - 1], k))
  {
    var db, ev := Run(evs[..|evs| - 1], cfg), evs[|evs| - 1];
    AnswerableStep(db, cfg, ev, k);
    if Teaches(ev, k).Some? {
      LearntIsAnswered(db, k, Teaches(ev, k).value);
    }
  }

  ghost predicate AlwaysHolds(evs: seq<Event>, cfg: Config, k: Key) {
    forall j | 0 <= j <= |evs| :: HoldsLastLearnt(evs[..j], cfg, k)
  }

  /**
   All through a run the address held for a key is the one last learnt and not invalidated since,
   exactly when every address taught for the key is proper at its time.
   */
  lemma {:induction false} HoldsIffProper(evs: seq<Event>, cfg: Config, k: Key)
    ensures AlwaysHolds(evs, cfg, k) <==> AllProper(evs, k)
  {
    if evs == [] {
      assert evs[..0] == [];
    } else {
      var n := |evs| - 1;
      HoldsIffProper(evs[..n], cfg, k);
      AlwaysHoldsFront(evs, cfg, k);
      AllProperFront(evs, k);
      if HoldsLastLearnt(evs[..n], cfg, k) {
        HoldsStep(evs, cfg, k);
      }
      assert evs[..n][..n] == evs[..n];
    }
  }

  lemma AlwaysHoldsFront(evs: seq<Event>, cfg: Config, k: Key)
    requires evs != []
    ensures AlwaysHolds(evs, cfg, k) <==> AlwaysHolds(evs[..|evs| - 1], cfg, k) && HoldsLastLearnt(evs, cfg, k)
  {
    var n := |evs| - 1;
    assert evs[..n + 1] == evs;
    assert forall j | 0 <= j <= n :: evs[..n][..j] == evs[..j];
  }

  lemma AllProperFront(evs: seq<Event>, k: Key)
    requires evs != []
    ensures AllProper(evs, k)
       <==> AllProper(evs[..|evs| - 1], k) && Proper(Teaches(evs[|evs| - 1], k), LastLearnt(evs[..|evs| - 1], k))
  {
    var n := |evs| - 1;
    assert forall i | 0 <= i < n :: evs[..n][..i] == evs[..i];
  }

  /** The daemon answers questions, with the address it holds, and nothing else. */
  lemma QuestionIsAnswered(db: Db, cfg: Config, ev: Event, k: Key)
    ensures Asks(ev, k) ==> Step(db, cfg, ev).reply == Answerable(db, k)
    ensures Step(db, cfg, ev).reply.Some? ==>
              ev.FromKernel? && Concerns(ev.msg).Some? && Asks(ev, Concerns(ev.msg).value)
  {
  }

  /** Any question about the key at this point of the run is answered with the address last learnt. */
  ghost predicate AnswersRight(evs: seq<Event>, cfg: Config, k: Key) {
    forall ev | Asks(ev, k) :: Step(Run(evs, cfg), cfg, ev).reply == LastLearnt(evs, k)
  }

  lemma AnswersRightIff(evs: seq<Event>, cfg: Config, k: Key)
    ensures AnswersRight(evs, cfg, k) <==> HoldsLastLearnt(evs, cfg, k)
  {
    var q, db := Question(k, 0), Run(evs, cfg);
    assert Incomplete in q.msg.state - {Noarp} && Asks(q, k);
    QuestionIsAnswered(db, cfg, q, k);
    forall ev | Asks(ev, k) ensures Step(db, cfg, ev).reply == Answerable(db, k) {
      QuestionIsAnswered(db, cfg, ev, k);
    }
  }

  /**
   All through a run, every question about a key would be answered with the address last learnt and
   not invalidated since, and not at all without one, exactly when every address taught is proper.
   */
  lemma AnswersLastLearnt(evs: seq<Event>, cfg: Config, k: Key)
    ensures (forall j | 0 <= j <= |evs| :: AnswersRight(evs[..j], cfg, k)) <==> AllProper(evs, k)
  {
    HoldsIffProper(evs, cfg, k);
    forall j | 0 <= j <= |evs| ensures AnswersRight(evs[..j], cfg, k) <==> HoldsLastLearnt(evs[..j], cfg, k) {
      AnswersRightIff(evs[..j], cfg, k);
    }
  }

  /** An event for one key leaves all others alone. */
  lemma OthersUntouched(db: Db, cfg: Config, ev: Event, k: Key)
    requires ev.FromKernel? ==> Concerns(ev.msg) != Some(k)
    requires ev.FromNet? ==> Carries(ev.pkt) != Some(k)
    ensures k in Step(db, cfg, ev).db <==> k in db
    ensures k in db ==> Step(db, cfg, ev).db[k] == db[k]
  {
  }

  // ----- the rationing of probes

  /** When the negative entry of a key was made, and the probes sent for the key since. */
  datatype Birth = Birth(time: nat, probes: nat)

  /** The event makes a negative entry: there is none that is still valid. */
  predicate Makes(db: Db, cfg: Config, ev: Event, k: Key) {
    && ev.FromKernel? && Invalidates(ev, k) && ev.msg.kind == NewNeigh
    && !(k in db && IsNeg(db[k]) && NegValid(db[k], ev.now, cfg))
  }

  predicate Probes(db: Db, cfg: Config, ev: Event, k: Key) {
    ev.FromKernel? && Concerns(ev.msg) == Some(k) && Step(db, cfg, ev).probed
  }

  function Born(evs: seq<Event>, cfg: Config, k: Key): Birth {
    if evs == [] then Birth(0, 0)
    else
      var front, ev := evs[..|evs| - 1], evs[|evs| - 1];
      var b, db := Born(front, cfg, k), Run(front, cfg);
      if Makes(db, cfg, ev, k) then Birth(ev.now, 0)
      else if Probes(db, cfg, ev, k) then Birth(b.time, b.probes + 1)
      else b
  }

  /** The events come in the order of the clock, the last not after `now`. */
  predicate Ordered(evs: seq<Event>, now: nat) {
    evs == [] || (evs[|evs| - 1].now <= now && Ordered(evs[..|evs| - 1], evs[|evs| - 1].now))
  }

  /** What is known of the entry of `k` at time `now`: a negative one that is valid has counted every probe. */
  predicate CountOk(db: Db, cfg: Config, k: Key, b: Birth, now: nat) {
    k in db && IsNeg(db[k]) ==>
      && |db[k]| == 6 && NegTime(db[k]) == Wrap(b.time, U32) && b.time <= now
      && (now < b.time + U32 && NegValid(db[k], now, cfg) ==>
            NegCount(db[k]) == Wrap(b.probes, 256) && (cfg.activeProbing <= 255 ==> b.probes <= Max(cfg.activeProbing)))
  }

  function Max(x: int): nat {
    if x > 0 then x else 0
  }

  /** A negative entry that is valid now was valid at any earlier time since it was made. */
  lemma ValidBefore(x: Data, cfg: Config, birth: nat, t: nat, now: nat)
    requires NegTime(x) == Wrap(birth, U32) && birth <= t <= now < birth + U32 && NegValid(x, now, cfg)
    ensures NegValid(x, t, cfg)
  {
    IncreaseIsTrue(birth, t, U32);
    IncreaseIsTrue(birth, now, U32);
  }

  lemma CountLater(db: Db, cfg: Config, k: Key, b: Birth, t: nat, now: nat)
    requires CountOk(db, cfg, k, b, t) && t <= now
    ensures CountOk(db, cfg, k, b, now)
  {
    if k in db && IsNeg(db[k]) && now < b.time + U32 && NegValid(db[k], now, cfg) {
      ValidBefore(db[k], cfg, b.time, t, now);
    }
  }

  function NextBirth(db: Db, cfg: Config, ev: Event, k: Key, b: Birth): Birth {
    if Makes(db, cfg, ev, k) then Birth(ev.now, 0)
    else if Probes(db, cfg, ev, k) then Birth(b.time, b.probes + 1)
    else b
  }

  lemma WrapNext(p: nat)
    ensures Wrap(p + 1, 256) == if Wrap(p, 256) == 255 then 0 else Wrap(p, 256) + 1
  {
    WrapAdd(p, 1, 256);
  }

  /** The event teaches no address that looks like a negative entry. */
  predicate Innocent(ev: Event, k: Key) {
    Teaches(ev, k).Some? ==> !LooksNegative(Teaches(ev, k).value)
  }

  predicate AllInnocent(evs: seq<Event>, k: Key) {
    forall i | 0 <= i < |evs| :: Innocent(evs[i], k)
  }

  lemma CountAsked(db: Db, cfg: Config, k: Key, b: Birth, state: set<Nud>, now: nat, sendOk: bool)
    requires CountOk(db, cfg, k, b, now)
    ensures var e := Asked(db, k, state, now, sendOk, cfg);
            CountOk(e.db, cfg, k, if e.probed then Birth(b.time, b.probes + 1) else b, now)
  {
    WrapNext(b.probes);
    if k in db && IsNeg(db[k]) {
      BumpedShows(db[k]);
    }
  }

  lemma CountTold(db: Db, cfg: Config, k: Key, b: Birth, state: set<Nud>, lladdr: Option<Data>, now: nat)
    requires CountOk(db, cfg, k, b, now)
    requires Failed !in state && lladdr.Some? ==> !IsNeg(lladdr.value)
    ensures var made := Failed in state && !(k in db && IsNeg(db[k]) && NegValid(db[k], now, cfg));
            CountOk(Told(db, k, state, lladdr, now, cfg), cfg, k, if made then Birth(now, 0) else b, now)
  {
    NegEntryShows(now);
  }

  lemma CountStep(db: Db, cfg: Config, ev: Event, k: Key, b: Birth)
    requires CountOk(db, cfg, k, b, ev.now) && Innocent(ev, k)
    ensures CountOk(Step(db, cfg, ev).db, cfg, k, NextBirth(db, cfg, ev, k, b), ev.now)
  {
    if ev.FromKernel? && Concerns(ev.msg) == Some(k) {
      CountAsked(db, cfg, k, b, ev.msg.state, ev.now, ev.sendOk);
      if ev.msg.kind == NewNeigh && !ev.msg.request {
        CountTold(db, cfg, k, b, ev.msg.state, ev.msg.lladdr, ev.now);
      }
    }
  }

  /**
   While a negative entry is valid its count is the number of probes sent since it was made, as a byte;
   with no more than 255 active probes it is that number, and never more than the limit.
   */
  lemma {:induction false} CountsProbes(evs: seq<Event>, cfg: Config, k: Key, now: nat)
    requires AllInnocent(evs, k) && Ordered(evs, now)
    ensures CountOk(Run(evs, cfg), cfg, k, Born(evs, cfg, k), now)
    decreases |evs|
  {
    if evs == [] {
    } else {
      var front, ev := evs[..|evs| - 1], evs[|evs| - 1];
      CountsProbes(front, cfg, k, ev.now);
      assert Innocent(ev, k);
      CountStep(Run(front, cfg), cfg, ev, k, Born(front, cfg, k));
      CountLater(Run(evs, cfg), cfg, k, Born(evs, cfg, k), ev.now, now);
    }
  }

  // ----- which questions are probed

  /** The kernel gives the host up. */
  predicate GivesUp(ev: Event, k: Key) {
    && ev.FromKernel? && Concerns(ev.msg) == Some(k)
    && ev.msg.kind == NewNeigh && !ev.msg.request && Failed in ev.msg.state
  }

  /** A failure is remembered for `negativeTimeout` seconds. */
  predicate Recent(failure: Option<Birth>, now: nat, cfg: Config) {
    failure.Some? && now < failure.value.time + cfg.negativeTimeout
  }

  /**
   The failure remembered for a key: a host given up, unless that is known and recent; forgotten when an
   address is learnt or doubted; and with it the probes sent for recent questions, up to the limit.
   */
  function Failure(evs: seq<Event>, cfg: Config, k: Key): Option<Birth> {
    if evs == [] then None else NextFailure(Failure(evs[..|evs| - 1], cfg, k), cfg, evs[|evs| - 1], k)
  }

  function NextFailure(f: Option<Birth>, cfg: Config, ev: Event, k: Key): Option<Birth> {
    if Teaches(ev, k).Some? then None
    else if GivesUp(ev, k) then if Recent(f, ev.now, cfg) then f else Some(Birth(ev.now, 0))
    else if Invalidates(ev, k) then None
    else if Asks(ev, k) && Recent(f, ev.now, cfg) && f.value.probes < cfg.activeProbing && ev.sendOk
    then Some(Birth(f.value.time, f.value.probes + 1))
    else f
  }

  /** The negative entry of a key is the failure remembered, and there is none without. */
  predicate Shows(db: Db, k: Key, f: Option<Birth>, t0: nat) {
    && (k in db && IsNeg(db[k]) <==> f.Some?)
    && (f.Some? ==>
          && |db[k]| == 6 && NegTime(db[k]) == Wrap(f.value.time, U32) && NegCount(db[k]) == f.value.probes
          && t0 <= f.value.time)
  }

  lemma ValidIsRecent(db: Db, cfg: Config, k: Key, f: Option<Birth>, t0: nat, now: nat)
    requires Shows(db, k, f, t0) && f.Some? && f.value.time <= now < t0 + U32
    ensures NegValid(db[k], now, cfg) <==> Recent(f, now, cfg)
  {
    IncreaseIsTrue(f.value.time, now, U32);
  }

  lemma ShowsStep(db: Db, cfg: Config, ev: Event, k: Key, f: Option<Birth>, t0: nat)
    requires Shows(db, k, f, t0) && Innocent(ev, k) && cfg.activeProbing <= 255
    requires t0 <= ev.now < t0 + U32 && (f.Some? ==> f.value.time <= ev.now)
    ensures Shows(Step(db, cfg, ev).db, k, NextFailure(f, cfg, ev, k), t0)
  {
    NegEntryShows(ev.now);
    if f.Some? {
      BumpedShows(db[k]);
      ValidIsRecent(db, cfg, k, f, t0, ev.now);
    }
  }

  predicate AllFrom(evs: seq<Event>, t0: nat) {
    forall i | 0 <= i < |evs| :: t0 <= evs[i].now
  }

  lemma {:induction false} FailureShown(evs: seq<Event>, cfg: Config, k: Key, t0: nat, now: nat)
    requires AllInnocent(evs, k) && cfg.activeProbing <= 255
    requires AllFrom(evs, t0) && Ordered(evs, now) && now < t0 + U32
    ensures Shows(Run(evs, cfg), k, Failure(evs, cfg, k), t0)
    ensures Failure(evs, cfg, k).Some? ==> Failure(evs, cfg, k).value.time <= now
    decreases |evs|
  {
    if evs == [] {
    } else {
      var front, ev := evs[..|evs| - 1], evs[|evs| - 1];
      FailureShown(front, cfg, k, t0, ev.now);
      assert Innocent(ev, k) && t0 <= ev.now;
      ShowsStep(Run(front, cfg), cfg, ev, k, Failure(front, cfg, k), t0);
    }
  }

  /**
   A question is probed exactly when no address is known for the key and no recent failure has had its
   share of probes, as far as probing is enabled and the probe gets out.
   */
  lemma ProbedExactly(evs: seq<Event>, cfg: Config, ev: Event, k: Key, t0: nat)
    requires AllProper(evs, k) && cfg.activeProbing <= 255 && Asks(ev, k)
    requires AllFrom(evs, t0) && Ordered(evs, ev.now) && ev.now < t0 + U32
    ensures var f := Failure(evs, cfg, k);
            Step(Run(evs, cfg), cfg, ev).probed
            <==> && LastLearnt(evs, k) == None && cfg.activeProbing != 0 && ev.sendOk
                 && !(Recent(f, ev.now, cfg) && f.value.probes >= cfg.activeProbing)
  {
    var db, f := Run(evs, cfg), Failure(evs, cfg, k);
    ProperIsInnocent(evs, k);
    FailureShown(evs, cfg, k, t0, ev.now);
    HoldsIffProper(evs, cfg, k);
    assert HoldsLastLearnt(evs[..|evs|], cfg, k) && evs[..|evs|] == evs;
    if f.Some? {
      ValidIsRecent(db, cfg, k, f, t0, ev.now);
    }
  }

  lemma ProperIsInnocent(evs: seq<Event>, k: Key)
    requires AllProper(evs, k)
    ensures AllInnocent(evs, k)
  {
    forall i | 0 <= i < |evs| ensures Innocent(evs[i], k) {
      assert Proper(Teaches(evs[i], k), LastLearnt(evs[..i], k));
    }
  }

  /** A doubt is always probed as far as probing is enabled, and forgets what is known. */
  lemma DoubtProbes(db: Db, cfg: Config, ev: Event, k: Key)
    requires Invalidates(ev, k) && !GivesUp(ev, k)
    ensures var e := Step(db, cfg, ev);
            e.db == db - {k} && e.reply == None && (e.probed <==> cfg.activeProbing != 0 && ev.sendOk)
  {
  }

  // ----- more than 255 active probes

  /** The host at `k` cannot be reached. */
  function Fails(k: Key, now: nat): Event {
    FromKernel(Neigh(NewNeigh, true, false, true, true, 0, true, {Failed}, k.iface, Some(k.addr), None), now, true)
  }

  /** The kernel asks for the address of `k`, and a probe can be sent. */
  function Question(k: Key, now: nat): Event {
    FromKernel(Neigh(GetNeigh, true, true, true, true, 0, true, {Incomplete}, k.iface, Some(k.addr), None), now, true)
  }

  /** One failure and then `n` questions, all at one time. */
  function Questions(k: Key, now: nat, n: nat): (evs: seq<Event>)
    ensures |evs| == n + 1
  {
    if n == 0 then [Fails(k, now)] else Questions(k, now, n - 1) + [Question(k, now)]
  }

  lemma FailsStep(cfg: Config, k: Key, now: nat)
    ensures var evs := [Fails(k, now)];
            Run(evs, cfg) == map[k := NegEntry(now)] && Born(evs, cfg, k) == Birth(now, 0)
  {
    var evs, ev := [Fails(k, now)], Fails(k, now);
    assert evs[..0] == [] && Failed in ev.msg.state - {Noarp} && Concerns(ev.msg) == Some(k);
  }

  lemma QuestionStep(db: Db, cfg: Config, k: Key, now: nat, b: Birth)
    requires k in db && |db[k]| == 6 && IsNeg(db[k]) && NegTime(db[k]) == Wrap(now, U32)
    requires cfg.activeProbing > 255 && cfg.negativeTimeout > 0
    ensures Step(db, cfg, Question(k, now)).db == db[k := Bumped(db[k])]
    ensures NextBirth(db, cfg, Question(k, now), k, b) == Birth(b.time, b.probes + 1)
  {
    var ev := Question(k, now);
    assert Incomplete in ev.msg.state - {Noarp} && Concerns(ev.msg) == Some(k);
    IncreaseIsTrue(now, now, U32);
  }

  predicate Counted(db: Db, k: Key, now: nat, count: nat) {
    k in db && |db[k]| == 6 && IsNeg(db[k]) && NegTime(db[k]) == Wrap(now, U32) && NegCount(db[k]) == count
  }

  /** After one failure and `n` questions the entry counts `n` as a byte, and `n` probes have gone out. */
  predicate WrapsAt(cfg: Config, k: Key, now: nat, n: nat) {
    var evs := Questions(k, now, n);
    && Counted(Run(evs, cfg), k, now, Wrap(n, 256)) && Born(evs, cfg, k) == Birth(now, n)
    && Ordered(evs, now) && AllInnocent(evs, k)
  }

  lemma RunSnoc(evs: seq<Event>, ev: Event, cfg: Config, k: Key)
    ensures Run(evs + [ev], cfg) == Step(Run(evs, cfg), cfg, ev).db
    ensures Born(evs + [ev], cfg, k) == NextBirth(Run(evs, cfg), cfg, ev, k, Born(evs, cfg, k))
    ensures Ordered(evs + [ev], ev.now) <==> Ordered(evs, ev.now)
    ensures AllInnocent(evs + [ev], k) <==> AllInnocent(evs, k) && Innocent(ev, k)
  {
    var all := evs + [ev];
    assert all[..|all| - 1] == evs;
    assert all[|evs|] == ev && forall i | 0 <= i < |evs| :: all[i] == evs[i];
  }

  lemma WrapsNext(cfg: Config, k: Key, now: nat, n: nat)
    requires cfg.activeProbing > 255 && cfg.negativeTimeout > 0 && WrapsAt(cfg, k, now, n)
    ensures WrapsAt(cfg, k, now, n + 1)
  {
    var front, q := Questions(k, now, n), Question(k, now);
    assert Questions(k, now, n + 1) == front + [q];
    RunSnoc(front, q, cfg, k);
    QuestionStep(Run(front, cfg), cfg, k, now, Birth(now, n));
    BumpedShows(Run(front, cfg)[k]);
    WrapNext(n);
  }

  /** With more than 255 active probes the count wraps, and no question is ever suppressed. */
  lemma CountWraps(cfg: Config, k: Key, now: nat, n: nat)
    requires cfg.activeProbing > 255 && cfg.negativeTimeout > 0
    ensures WrapsAt(cfg, k, now, n)
  {
    FailsStep(cfg, k, now);
    NegEntryShows(now);
    for i := 0 to n
      invariant WrapsAt(cfg, k, now, i)
    {
      WrapsNext(cfg, k, now, i);
    }
  }

  /** A negative entry that is valid at `now` has the number of probes sent since it was made as its count. */
  predicate CountsExactly(evs: seq<Event>, cfg: Config, k: Key, now: nat) {
    var db, b := Run(evs, cfg), Born(evs, cfg, k);
    k in db && IsNeg(db[k]) && now < b.time + U32 && NegValid(db[k], now, cfg) ==> NegCount(db[k]) == b.probes
  }

  ghost predicate AlwaysExact(cfg: Config, k: Key) {
    forall evs, now | Ordered(evs, now) && AllInnocent(evs, k) :: CountsExactly(evs, cfg, k, now)
  }

  /** The count can be trusted on every run exactly when there are at most 255 active probes. */
  lemma ExactIffUpTo255(cfg: Config, k: Key)
    requires cfg.negativeTimeout > 0
    ensures AlwaysExact(cfg, k) <==> cfg.activeProbing <= 255
  {
    if cfg.activeProbing <= 255 {
      forall evs, now | Ordered(evs, now) && AllInnocent(evs, k) ensures CountsExactly(evs, cfg, k, now) {
        CountsProbes(evs, cfg, k, now);
      }
    } else {
      ManyQuestions(cfg, k, 256);
    }
  }

  lemma ManyQuestions(cfg: Config, k: Key, n: nat)
    requires cfg.activeProbing > 255 && cfg.negativeTimeout > 0 && n > 255
    ensures !AlwaysExact(cfg, k)
  {
    var evs := Questions(k, 0, n);
    CountWraps(cfg, k, 0, n);
    IncreaseIsTrue(0, 0, U32);
    assert !CountsExactly(evs, cfg, k, 0);
  }
}
