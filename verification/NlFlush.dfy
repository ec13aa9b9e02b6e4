/**
 Flushing routes and addresses: the message walk of `rtnl_dump_filter_l`
 (lib/libnetlink.c) and the batching of deletes in `print_route`
 (ip/iproute.c) and `print_addrinfo` (ip/ipaddress.c).
 */
module NlFlush {
  import opened Basics
  import opened Netlink

  const HDRLEN := 16
  const NLMSG_ERROR := 2
  const NLMSG_DONE := 3
  const NLM_F_REQUEST := 1
  const RTM_NEWADDR := 20
  const RTM_DELADDR := 21
  const RTM_NEWROUTE := 24
  const RTM_DELROUTE := 25

  type U16 = n: nat | n < 0x1_0000

  /** At least a header. */
  type Msg = m: seq<Byte> | |m| >= HDRLEN witness seq(HDRLEN, _ => 0)

  function MsgLen(b: seq<Byte>, pos: nat): nat
    requires pos + HDRLEN <= |b|
  {
    Get32(b, pos)
  }

  /** A message by itself: a header whose length is the length of the whole. */
  predicate IsMsg(m: Msg) {
    MsgLen(m, 0) == |m|
  }

  function MsgType(m: Msg): nat {
    Get16(m, 4)
  }

  function MsgSeq(m: Msg): nat {
    Get32(m, 8)
  }

  function MsgPid(m: Msg): nat {
    Get32(m, 12)
  }

  /** Where the header fields lie: length, type, flags, sequence number and port, low byte first. */
  lemma HeaderLayout(m: Msg)
    ensures MsgLen(m, 0) == m[0] as int + 0x100 * m[1] as int + 0x1_0000 * m[2] as int + 0x100_0000 * m[3] as int
    ensures MsgType(m) == m[4] as int + 0x100 * m[5] as int
    ensures MsgSeq(m) == m[8] as int + 0x100 * m[9] as int + 0x1_0000 * m[10] as int + 0x100_0000 * m[11] as int
    ensures MsgPid(m) == m[12] as int + 0x100 * m[13] as int + 0x1_0000 * m[14] as int + 0x100_0000 * m[15] as int
  {
  }

  // ----- walking a datagram

  /** `NLMSG_OK` at `pos` */
  predicate MsgOk(b: seq<Byte>, pos: nat) {
    pos + HDRLEN <= |b| && HDRLEN <= MsgLen(b, pos) <= |b| - pos
  }

  function MsgAt(b: seq<Byte>, pos: nat): Msg
    requires MsgOk(b, pos)
  {
    b[pos..pos + MsgLen(b, pos)]
  }

  function Next(b: seq<Byte>, pos: nat): (n: nat)
    requires MsgOk(b, pos)
    ensures n > pos
  {
    pos + Align(MsgLen(b, pos))
  }

  /** The messages a receiver finds in a datagram, from `pos` on. */
  function Messages(b: seq<Byte>, pos: nat): seq<Msg>
    decreases |b| - pos
  {
    if !MsgOk(b, pos) then [] else [MsgAt(b, pos)] + Messages(b, Next(b, pos))
  }

  lemma MessagesStep(b: seq<Byte>, pos: nat)
    ensures Messages(b, pos) == if MsgOk(b, pos) then [MsgAt(b, pos)] + Messages(b, Next(b, pos)) else []
  {
  }

  /** The walk stops exactly where no whole header is left, or the length is less than one or beyond the end. */
  lemma StopsExactly(b: seq<Byte>, pos: nat)
    ensures Messages(b, pos) == [] <==> |b| < pos + 16 || Get32(b, pos) < 16 || Get32(b, pos) > |b| - pos
  {
    MessagesStep(b, pos);
  }

  /** The walk from `pos` uses the datagram up. */
  predicate Consumed(b: seq<Byte>, pos: nat)
    decreases |b| - pos
  {
    pos == Align(|b|) || (MsgOk(b, pos) && Consumed(b, Next(b, pos)))
  }

  /** The datagram `b` with a message put behind it, at the aligned end. */
  ghost predicate Extends(b: seq<Byte>, c: seq<Byte>, m: Msg) {
    |c| == Align(|b|) + |m| && c[..|b|] == b && c[Align(|b|)..] == m
  }

  lemma SameMsg(b: seq<Byte>, c: seq<Byte>, pos: nat)
    requires MsgOk(b, pos) && |b| <= |c| && c[..|b|] == b
    ensures MsgOk(c, pos) && MsgAt(c, pos) == MsgAt(b, pos) && Next(c, pos) == Next(b, pos)
  {
    SliceOfPrefix(c, |b|, pos, pos + 4);
    Same32(b, pos, c, pos);
    SliceOfPrefix(c, |b|, pos, pos + MsgLen(b, pos));
  }

  lemma SliceOfPrefix(c: seq<Byte>, k: nat, i: nat, j: nat)
    requires i <= j <= k <= |c|
    ensures c[i..j] == c[..k][i..j]
  {
  }

  /** A message put behind a used-up datagram is found after all the others. */
  lemma {:induction false} WalkExtended(b: seq<Byte>, c: seq<Byte>, m: Msg, pos: nat)
    requires Consumed(b, pos) && Extends(b, c, m) && IsMsg(m)
    ensures Messages(c, pos) == Messages(b, pos) + [m] && Consumed(c, pos)
    decreases |b| - pos
  {
    if !MsgOk(b, pos) {
      LastMsg(b, c, m);
    } else {
      SameMsg(b, c, pos);
      WalkExtended(b, c, m, Next(b, pos));
      MessagesStep(b, pos);
      MessagesStep(c, pos);
      Assoc([MsgAt(b, pos)], Messages(b, Next(b, pos)), [m]);
    }
  }

  lemma LastMsg(b: seq<Byte>, c: seq<Byte>, m: Msg)
    requires Extends(b, c, m) && IsMsg(m)
    ensures Messages(c, Align(|b|)) == [m] && Consumed(c, Align(|b|))
  {
    var p := Align(|b|);
    assert c[p..p + 4] == c[p..][..4] == m[0..0 + 4];
    Same32(c, p, m, 0);
    assert MsgAt(c, p) == m;
    AlignTwice(|b|);
    AlignAdd(p, |m|);
    assert !MsgOk(c, Next(c, p));
    assert Messages(c, Next(c, p)) == [];
  }

  // ----- rewriting a message as a delete

  function Rewrite(m: Msg, delType: nat, seqno: nat): (r: Msg)
    ensures |r| == |m|
  {
    m[..4] + Put16(delType) + Put16(NLM_F_REQUEST) + Put32(seqno) + m[12..]
  }

  /**
   What a receiver reads: type `delType`, the one flag NLM_F_REQUEST, sequence number `n` in 32 bits,
   and every other byte as in `m`.
   */
  predicate IsDelete(r: Msg, m: Msg, delType: nat, n: nat) {
    && |r| == |m| && r[..4] == m[..4] && r[12..] == m[12..]
    && r[4] as int + 0x100 * r[5] as int == delType
    && r[6] == 1 && r[7] == 0
    && r[8] as int + 0x100 * r[9] as int + 0x1_0000 * r[10] as int + 0x100_0000 * r[11] as int == n % 0x1_0000_0000
  }

  lemma RewriteReads(m: Msg, delType: U16, n: nat)
    ensures IsDelete(Rewrite(m, delType, n), m, delType, n)
  {
    var r := Rewrite(m, delType, n);
    assert r[4] == Put16(delType)[0] && r[5] == Put16(delType)[1];
    Put32Reads(n);
    assert r[8] == Put32(n)[0] && r[9] == Put32(n)[1] && r[10] == Put32(n)[2] && r[11] == Put32(n)[3];
  }

  lemma Put32Reads(n: nat)
    ensures var b := Put32(n);
            b[0] as int + 0x100 * b[1] as int + 0x1_0000 * b[2] as int + 0x100_0000 * b[3] as int == n % 0x1_0000_0000
  {
    var low, high := n % 0x1_0000, n / 0x1_0000 % 0x1_0000;
    Put16Reads(n);
    Put16Reads(n / 0x1_0000);
    assert n % 0x1_0000_0000 == low + 0x1_0000 * high;
  }

  lemma Put16Reads(n: nat)
    ensures Put16(n)[0] as int + 0x100 * Put16(n)[1] as int == n % 0x1_0000
  {
  }

  lemma RewriteIsMsg(m: Msg, delType: nat, seqno: nat)
    requires IsMsg(m)
    ensures IsMsg(Rewrite(m, delType, seqno))
  {
    var r := Rewrite(m, delType, seqno);
    assert r[0..0 + 4] == m[0..0 + 4];
    Same32(r, 0, m, 0);
  }

  /** Numbered from `seq0 + 1` on. */
  function Deletes(ms: seq<Msg>, delType: nat, seq0: nat): (r: seq<Msg>)
    ensures |r| == |ms|
  {
    if ms == [] then []
    else Deletes(ms[..|ms| - 1], delType, seq0) + [Rewrite(ms[|ms| - 1], delType, seq0 + |ms|)]
  }

  lemma {:induction false} DeletesAt(ms: seq<Msg>, delType: nat, seq0: nat, i: nat)
    requires i < |ms|
    ensures Deletes(ms, delType, seq0)[i] == Rewrite(ms[i], delType, seq0 + 1 + i)
  {
    if i == |ms| - 1 {
    } else {
      DeletesAt(ms[..|ms| - 1], delType, seq0, i);
    }
  }

  /** Each message received is a delete for the message in the same place, numbered on from `seq0`. */
  predicate AllDeletes(out: seq<Msg>, ms: seq<Msg>, delType: nat, seq0: nat) {
    |out| == |ms| && forall i | 0 <= i < |ms| :: IsDelete(out[i], ms[i], delType, seq0 + 1 + i)
  }

  lemma DeletesRead(ms: seq<Msg>, delType: U16, seq0: nat)
    ensures AllDeletes(Deletes(ms, delType, seq0), ms, delType, seq0)
  {
    forall i | 0 <= i < |ms| ensures IsDelete(Deletes(ms, delType, seq0)[i], ms[i], delType, seq0 + 1 + i) {
      DeletesAt(ms, delType, seq0, i);
      RewriteReads(ms[i], delType, seq0 + 1 + i);
    }
  }

  /** Everything the receiver gets, datagram after datagram. */
  function Delivered(sent: seq<seq<Byte>>): seq<Msg> {
    if sent == [] then [] else Delivered(sent[..|sent| - 1]) + Messages(sent[|sent| - 1], 0)
  }

  /** What the datagrams deliver is a delete for each of the messages, in order, numbered on from `seq0`. */
  ghost predicate Deleted(sent: seq<seq<Byte>>, ms: seq<Msg>, delType: nat, seq0: nat) {
    Delivered(sent) == Deletes(ms, delType, seq0)
  }

  /** Every send succeeds. */
  ghost predicate AllSent(sendOk: nat -> bool) {
    forall n: nat :: sendOk(n)
  }

  // ----- the flush buffer

  class FlushBuffer {
    const delType: U16
    const flushb: array<Byte>
    var flushp: nat
    var flushed: nat
    var seqno: nat
    var sent: seq<seq<Byte>>   // the datagrams sent in this round
    var sendOk: nat -> bool    // whether the n-th send of this round succeeds
    ghost var taken: seq<Msg>  // the messages accepted in this round
    ghost var seq0: nat        // the sequence number the round began with

    ghost predicate Valid()
      reads this, flushb
    {
      && flushp <= flushb.Length
      && flushed == |taken| && seqno == seq0 + |taken|
      && Consumed(flushb[..flushp], 0)
      && Delivered(sent) + Messages(flushb[..flushp], 0) == Deletes(taken, delType, seq0)
    }

    constructor (delType: U16, size: nat, seqno: nat)
      ensures Valid() && flushp == 0 && flushb.Length == size && fresh(flushb) && this.delType == delType
    {
      this.delType := delType;
      flushb := new Byte[size](_ => 0);
      flushp, flushed := 0, 0;
      this.seqno, seq0 := seqno, seqno;
      sent, taken := [], [];
      sendOk := _ => true;
    }

    /** A round begins with a dump request, which takes a sequence number of its own. */
    method Request(sendOk: nat -> bool)
      requires Valid() && flushp == 0
      modifies this
      ensures Valid() && flushp == 0 && taken == [] && sent == []
      ensures seqno == seq0 == old(seqno) + 1 && this.sendOk == sendOk
    {
      seqno := seqno + 1;
      seq0 := seqno;
      this.sendOk := sendOk;
      flushed := 0;
      sent, taken := [], [];
      assert flushb[..0] == [];
      assert Consumed([], 0) && Messages([], 0) == [];
    }

    /** `flush_update`: sends what the buffer holds and starts it afresh. */
    method FlushUpdate() returns (ok: bool)
      requires Valid()
      modifies this`flushp, this`sent
      ensures Valid() && ok == sendOk(|old(sent)|)
      ensures ok ==> flushp == 0 && sent == old(sent) + [old(flushb[..flushp])]
      ensures !ok ==> flushp == old(flushp) && sent == old(sent)
    {
      if !sendOk(|sent|) {
        return false;
      }
      var d := flushb[..flushp];
      assert (sent + [d])[..|sent|] == sent;
      sent := sent + [d];
      flushp := 0;
      assert flushb[..0] == [];
      assert Consumed([], 0) && Messages([], 0) == [];
      ok := true;
    }

    /**
     The flush branch of `print_route` and `print_addrinfo`: makes room, copies the message to the
     aligned end, and turns it into a delete.  It fails only when a batch could not be sent.
     */
    method Take(m: Msg) returns (ok: bool)
      requires Valid() && IsMsg(m) && |m| <= flushb.Length
      modifies this`flushp, this`flushed, this`seqno, this`sent, this`taken, flushb
      ensures Valid() && taken == old(taken) + if ok then [m] else []
      ensures AllSent(sendOk) ==> ok
    {
      if Align(flushp) + |m| > flushb.Length {
        ok := FlushUpdate();
        if !ok {
          return;
        }
      }
      Append(m);
      ok := true;
    }

    /** Copies the message to the aligned end and turns it into a delete. */
    method Place(m: Msg)
      requires Align(flushp) + |m| <= flushb.Length
      modifies this`flushp, this`seqno, flushb
      ensures seqno == old(seqno) + 1 && flushp <= flushb.Length
      ensures Extends(old(flushb[..flushp]), flushb[..flushp], Rewrite(m, delType, seqno))
      ensures IsDelete(Rewrite(m, delType, seqno), m, delType, seqno)
    {
      ghost var b, front := flushb[..flushp], flushb[..Align(flushp)];
      SliceOfPrefix(flushb[..], |front|, 0, flushp);
      assert front[..flushp] == b;
      var fn := Align(flushp);
      seqno := seqno + 1;
      CopyIn(fn, m);
      Patch(fn, m);
      flushp := fn + |m|;
      ghost var c := flushb[..flushp];
      assert c[..fn] == front && c[fn..] == flushb[fn..fn + |m|];
      Extended(b, front, c, Rewrite(m, delType, seqno));
      RewriteReads(m, delType, seqno);
    }

    method Append(m: Msg)
      requires Valid() && IsMsg(m) && Align(flushp) + |m| <= flushb.Length
      modifies this`flushp, this`flushed, this`seqno, this`taken, flushb
      ensures Valid() && taken == old(taken) + [m]
    {
      ghost var b, ds := flushb[..flushp], Deletes(taken, delType, seq0);
      Place(m);
      ghost var c, r := flushb[..flushp], Rewrite(m, delType, seqno);
      RewriteIsMsg(m, delType, seqno);
      Accepted(sent, b, c, ds, r);
      DeletesSnoc(taken, m, delType, seq0, seqno);
      taken := taken + [m];
      flushed := flushed + 1;
    }

    method CopyIn(at: nat, m: seq<Byte>)
      requires at + |m| <= flushb.Length
      modifies flushb
      ensures flushb[..at] == old(flushb[..at]) && flushb[at..at + |m|] == m
      ensures flushb[at + |m|..] == old(flushb[at + |m|..])
    {
      forall i | 0 <= i < |m| {
        flushb[at + i] := m[i];
      }
    }

    /** Sets type, flags and sequence number of the copy of `m` at `at`. */
    method Patch(at: nat, m: Msg)
      requires at + |m| <= flushb.Length && flushb[at..at + |m|] == m
      modifies flushb
      ensures flushb[..at] == old(flushb[..at]) && flushb[at..at + |m|] == Rewrite(m, delType, seqno)
    {
      var r := Put16(delType) + Put16(NLM_F_REQUEST) + Put32(seqno);
      ghost var front, back := flushb[..at + 4], flushb[at + 12..];
      assert front[..at] == flushb[..at] && front[at..] == m[..4] && back[..|m| - 12] == m[12..];
      CopyIn(at + 4, r);
      assert flushb[at + 12..] == back;
      assert flushb[..at] == front[..at] && flushb[at..at + 4] == front[at..];
      assert flushb[at + 12..at + |m|] == back[..|m| - 12];
      assert flushb[at..at + |m|] == flushb[at..at + 4] + flushb[at + 4..at + 12] + flushb[at + 12..at + |m|];
      assert Rewrite(m, delType, seqno) == m[..4] + r + m[12..];
    }
  }

  lemma Extended(b: seq<Byte>, front: seq<Byte>, c: seq<Byte>, r: Msg)
    requires |front| == Align(|b|) && |c| == |front| + |r|
    requires front[..|b|] == b && c[..|front|] == front && c[|front|..] == r
    ensures Extends(b, c, r)
  {
    SliceOfPrefix(c, |front|, 0, |b|);
  }

  lemma DeletesSnoc(ms: seq<Msg>, m: Msg, delType: nat, seq0: nat, n: nat)
    requires n == seq0 + |ms| + 1
    ensures Deletes(ms + [m], delType, seq0) == Deletes(ms, delType, seq0) + [Rewrite(m, delType, n)]
  {
    assert (ms + [m])[..|ms|] == ms;
  }

  /** Putting one more message behind a batch adds it to all that is delivered or held. */
  lemma Accepted(sent: seq<seq<Byte>>, b: seq<Byte>, c: seq<Byte>, ds: seq<Msg>, r: Msg)
    requires IsMsg(r) && Consumed(b, 0) && Extends(b, c, r)
    requires Delivered(sent) + Messages(b, 0) == ds
    ensures Consumed(c, 0) && Delivered(sent) + Messages(c, 0) == ds + [r]
  {
    WalkExtended(b, c, r, 0);
  }

  // ----- which messages are accepted

  datatype Verdict = Skip | Bad | Accept

  /** `print_route` while flushing; `wanted` stands for the selector tests. */
  function RouteVerdict(m: Msg, wanted: Msg -> bool): Verdict {
    if MsgType(m) != RTM_NEWROUTE && MsgType(m) != RTM_DELROUTE then Skip
    else if MsgType(m) != RTM_NEWROUTE then Skip
    else if |m| < HDRLEN + 12 then Bad
    else if wanted(m) then Accept
    else Skip
  }

  /** `print_addrinfo` while flushing. */
  function AddrVerdict(m: Msg, wanted: Msg -> bool): Verdict {
    if MsgType(m) != RTM_NEWADDR && MsgType(m) != RTM_DELADDR then Skip
    else if |m| < HDRLEN + 8 then Bad
    else if MsgType(m) != RTM_NEWADDR then Skip
    else if wanted(m) then Accept
    else Skip
  }

  /** IFA_F_SECONDARY in `ifa_flags` */
  predicate Secondary(m: Msg) {
    |m| > HDRLEN + 2 && m[HDRLEN + 2] as int % 2 == 1
  }

  datatype Pick = Routes(wanted: Msg -> bool) | Secondaries(wanted: Msg -> bool) | Primaries(wanted: Msg -> bool)
                | Addresses(wanted: Msg -> bool)

  /** The filters that a dump is run with. */
  function Judge(f: Pick, m: Msg): Verdict {
    match f
    case Routes(w) => RouteVerdict(m, w)
    case Secondaries(w) => if !Secondary(m) then Skip else AddrVerdict(m, w)
    case Primaries(w) => if Secondary(m) then Skip else AddrVerdict(m, w)
    case Addresses(w) => AddrVerdict(m, w)
  }

  /** What each filter accepts, and what it calls malformed, by type, length and the secondary flag. */
  lemma JudgeExact(m: Msg, w: Msg -> bool)
    ensures var ty, second := m[4] as int + 0x100 * m[5] as int, |m| > 18 && m[18] as int % 2 == 1;
            && (Judge(Routes(w), m) == Accept <==> ty == 24 && |m| >= 28 && w(m))
            && (Judge(Routes(w), m) == Bad <==> ty == 24 && |m| < 28)
            && (Judge(Addresses(w), m) == Accept <==> ty == 20 && |m| >= 24 && w(m))
            && (Judge(Addresses(w), m) == Bad <==> (ty == 20 || ty == 21) && |m| < 24)
            && Judge(Secondaries(w), m) == (if second then Judge(Addresses(w), m) else Skip)
            && Judge(Primaries(w), m) == (if second then Skip else Judge(Addresses(w), m))
  {
    HeaderLayout(m);
  }

  // ----- dumps

  /** The socket of a dump: its own port and the sequence number asked for. */
  datatype Handle = Handle(pid: nat, dump: nat)

  datatype Datagram = Datagram(bytes: seq<Byte>, fromKernel: bool, truncated: bool)

  predicate Ours(m: Msg, d: Datagram, h: Handle) {
    d.fromKernel && MsgPid(m) == h.pid && MsgSeq(m) == h.dump
  }

  predicate Ends(m: Msg, d: Datagram, h: Handle) {
    Ours(m, d, h) && MsgType(m) == NLMSG_DONE
  }

  /** What a filter takes of one message that does not end the dump. */
  function Offered(m: Msg, d: Datagram, h: Handle, f: Pick): seq<Msg> {
    if Ours(m, d, h) then Chosen(f, m) else []
  }

  function Chosen(f: Pick, m: Msg): seq<Msg> {
    if Judge(f, m) == Accept then [m] else []
  }

  /** What one filter accepts of the messages of a datagram, up to the one that ends the dump. */
  function Pass(ms: seq<Msg>, d: Datagram, h: Handle, f: Pick): seq<Msg> {
    if ms == [] || Ends(ms[0], d, h) then []
    else Offered(ms[0], d, h, f) + Pass(ms[1..], d, h, f)
  }

  /** One of the messages ends the dump. */
  predicate DoneIn(ms: seq<Msg>, d: Datagram, h: Handle) {
    ms != [] && (Ends(ms[0], d, h) || DoneIn(ms[1..], d, h))
  }

  /** Up to the end of the dump there is no error message and none that the filter calls malformed. */
  predicate Clean(ms: seq<Msg>, d: Datagram, h: Handle, f: Pick) {
    || ms == [] || Ends(ms[0], d, h)
    || (!Spoils(ms[0], d, h, f) && Clean(ms[1..], d, h, f))
  }

  predicate Spoils(m: Msg, d: Datagram, h: Handle, f: Pick) {
    Ours(m, d, h) && (MsgType(m) == NLMSG_ERROR || Judge(f, m) == Bad)
  }

  predicate AllClean(d: Datagram, h: Handle, fs: seq<Pick>) {
    fs == [] || (Clean(Received(d), d, h, fs[0]) && AllClean(d, h, fs[1..]))
  }

  /** The bytes that a walk over a datagram leaves. */
  function LeftOver(b: seq<Byte>, pos: nat): int
    decreases |b| - pos
  {
    if MsgOk(b, pos) then LeftOver(b, Next(b, pos)) else |b| - pos
  }

  /**
   The datagrams make up a dump: each is clean for all filters, one ends it, and each before that
   is not empty and is used up or cut short.
   */
  predicate Completes(ds: seq<Datagram>, h: Handle, fs: seq<Pick>) {
    ds != [] && Handled(ds[0], h, fs) && (DoneIn(Received(ds[0]), ds[0], h) || Completes(ds[1..], h, fs))
  }

  predicate Handled(d: Datagram, h: Handle, fs: seq<Pick>) {
    && d.bytes != [] && AllClean(d, h, fs)
    && (DoneIn(Received(d), d, h) || d.truncated || LeftOver(d.bytes, 0) == 0)
  }

  /** From the kernel, for this port and this dump. */
  predicate Belongs(m: Msg, d: Datagram, h: Handle) {
    && d.fromKernel
    && m[12] as int + 0x100 * m[13] as int + 0x1_0000 * m[14] as int + 0x100_0000 * m[15] as int == h.pid
    && m[8] as int + 0x100 * m[9] as int + 0x1_0000 * m[10] as int + 0x100_0000 * m[11] as int == h.dump
  }

  /** A pass takes nothing but messages of the datagram that belong to the dump and that the filter accepts. */
  lemma {:induction false} PassTakes(ms: seq<Msg>, d: Datagram, h: Handle, f: Pick)
    ensures forall m | m in Pass(ms, d, h, f) :: m in ms && Belongs(m, d, h) && Judge(f, m) == Accept
  {
    if ms == [] || Ends(ms[0], d, h) {
    } else {
      PassTakes(ms[1..], d, h, f);
      HeaderLayout(ms[0]);
    }
  }

  predicate EndsDump(m: Msg, d: Datagram, h: Handle) {
    Belongs(m, d, h) && m[4] == 3 && m[5] == 0
  }

  lemma EndsExactly(m: Msg, d: Datagram, h: Handle)
    ensures (Ends(m, d, h) <==> EndsDump(m, d, h)) && (Ours(m, d, h) <==> Belongs(m, d, h))
  {
    HeaderLayout(m);
  }

  /** It misses none of these that comes before the message that ends the dump, of type 3. */
  lemma {:induction false} PassMisses(ms: seq<Msg>, d: Datagram, h: Handle, f: Pick, i: nat)
    requires i < |ms| && Belongs(ms[i], d, h) && Judge(f, ms[i]) == Accept
    requires forall j | 0 <= j <= i :: !EndsDump(ms[j], d, h)
    ensures ms[i] in Pass(ms, d, h, f)
  {
    EndsExactly(ms[0], d, h);
    if i == 0 {
    } else {
      assert forall j | 0 <= j <= i - 1 :: ms[1..][j] == ms[j + 1];
      PassMisses(ms[1..], d, h, f, i - 1);
    }
  }

  /** Only an error message of the dump, of type 2, or one that the filter calls malformed makes a pass fail. */
  lemma SpoilsExactly(m: Msg, d: Datagram, h: Handle, f: Pick)
    ensures Spoils(m, d, h, f) <==> Belongs(m, d, h) && ((m[4] == 2 && m[5] == 0) || Judge(f, m) == Bad)
  {
    HeaderLayout(m);
  }

  /** A datagram that is handled and does not end the dump: all of it is used up, or it is known to be cut short. */
  predicate Passes(d: Datagram, h: Handle, fs: seq<Pick>) {
    && d.bytes != [] && AllClean(d, h, fs) && !DoneIn(Received(d), d, h)
    && (LeftOver(d.bytes, 0) == 0 || d.truncated)
  }

  /** The datagram `n` ends the dump, and all before it pass. */
  predicate EndsAt(ds: seq<Datagram>, h: Handle, fs: seq<Pick>, n: nat) {
    && n < |ds| && ds[n].bytes != [] && AllClean(ds[n], h, fs) && DoneIn(Received(ds[n]), ds[n], h)
    && forall i | 0 <= i < n :: Passes(ds[i], h, fs)
  }

  lemma EndsLater(ds: seq<Datagram>, h: Handle, fs: seq<Pick>, n: nat)
    requires ds != []
    ensures EndsAt(ds, h, fs, n + 1) <==> Passes(ds[0], h, fs) && EndsAt(ds[1..], h, fs, n)
  {
    if n < |ds[1..]| {
      assert ds[1..][n] == ds[n + 1];
      assert forall i | 0 < i < n + 1 :: ds[i] == ds[1..][i - 1];
      assert forall i | 0 <= i < n :: ds[1..][i] == ds[i + 1];
    }
  }

  /** Datagrams make up a dump exactly when one of them ends it and all before that pass. */
  lemma {:induction false} CompletesExactly(ds: seq<Datagram>, h: Handle, fs: seq<Pick>)
    ensures Completes(ds, h, fs) <==> exists n: nat :: EndsAt(ds, h, fs, n)
  {
    if ds == [] {
    } else {
      CompletesExactly(ds[1..], h, fs);
      if n: nat :| EndsAt(ds[1..], h, fs, n) {
        EndsLater(ds, h, fs, n);
      }
      if n: nat :| EndsAt(ds, h, fs, n) {
        if n == 0 {
        } else {
          EndsLater(ds, h, fs, n - 1);
        }
      }
      assert EndsAt(ds, h, fs, 0) <==> ds[0].bytes != [] && AllClean(ds[0], h, fs) && DoneIn(Received(ds[0]), ds[0], h);
    }
  }

  function Received(d: Datagram): seq<Msg> {
    Messages(d.bytes, 0)
  }

  /** What all the filters accept in one datagram: one whole pass after the other. */
  function PassAll(d: Datagram, h: Handle, fs: seq<Pick>): seq<Msg> {
    if fs == [] then [] else Pass(Received(d), d, h, fs[0]) + PassAll(d, h, fs[1..])
  }

  /** What a dump accepts, datagram after datagram, up to the one that ends it. */
  function Dumped(ds: seq<Datagram>, h: Handle, fs: seq<Pick>): seq<Msg> {
    if ds == [] then []
    else PassAll(ds[0], h, fs) + if DoneIn(Received(ds[0]), ds[0], h) then [] else Dumped(ds[1..], h, fs)
  }

  /** Each of these messages by itself fits in a buffer. */
  predicate AllFit(ms: seq<Msg>, size: nat) {
    forall i | 0 <= i < |ms| :: |ms[i]| <= size
  }

  lemma FitParts(a: seq<Msg>, b: seq<Msg>, size: nat)
    requires AllFit(a + b, size)
    ensures AllFit(a, size) && AllFit(b, size)
  {
    assert forall i | 0 <= i < |a| :: (a + b)[i] == a[i];
    assert forall i | 0 <= i < |b| :: (a + b)[|a| + i] == b[i];
  }

  lemma MsgAtIsMsg(b: seq<Byte>, pos: nat)
    requires MsgOk(b, pos)
    ensures IsMsg(MsgAt(b, pos))
  {
    var m := MsgAt(b, pos);
    assert m[0..0 + 4] == b[pos..pos + 4];
    Same32(m, 0, b, pos);
  }

  /** What becomes of one message of the dump that does not end it. */
  method Offer(fb: FlushBuffer, m: Msg, d: Datagram, h: Handle, f: Pick) returns (ok: bool)
    requires fb.Valid() && IsMsg(m) && AllFit(Offered(m, d, h, f), fb.flushb.Length)
    modifies fb`flushp, fb`flushed, fb`seqno, fb`sent, fb`taken, fb.flushb
    ensures fb.Valid() && (ok ==> fb.taken == old(fb.taken) + Offered(m, d, h, f))
    ensures (ok ==> !Spoils(m, d, h, f)) && (AllSent(fb.sendOk) && !Spoils(m, d, h, f) ==> ok)
  {
    if !Ours(m, d, h) {
      return true;
    }
    if MsgType(m) == NLMSG_ERROR || Judge(f, m) == Bad {
      return false;
    }
    ok := true;
    if Judge(f, m) == Accept {
      assert |Offered(m, d, h, f)[0]| <= fb.flushb.Length;
      ok := fb.Take(m);
    }
  }

  lemma Assoc(a: seq<Msg>, b: seq<Msg>, c: seq<Msg>)
    ensures (a + b) + c == a + (b + c)
  {
  }

  lemma PassStep(m: Msg, ms: seq<Msg>, d: Datagram, h: Handle, f: Pick)
    ensures Pass([m] + ms, d, h, f)
         == if Ends(m, d, h) then [] else Offered(m, d, h, f) + Pass(ms, d, h, f)
    ensures DoneIn([m] + ms, d, h) <==> Ends(m, d, h) || DoneIn(ms, d, h)
    ensures Clean([m] + ms, d, h, f) <==> Ends(m, d, h) || (!Spoils(m, d, h, f) && Clean(ms, d, h, f))
  {
    assert ([m] + ms)[1..] == ms;
  }

  /** One filter's pass over a datagram. */
  method RunFilter(fb: FlushBuffer, d: Datagram, h: Handle, f: Pick) returns (ok: bool, done: bool, msglen: int)
    requires fb.Valid() && AllFit(Pass(Received(d), d, h, f), fb.flushb.Length)
    modifies fb`flushp, fb`flushed, fb`seqno, fb`sent, fb`taken, fb.flushb
    ensures fb.Valid()
    ensures ok ==> fb.taken == old(fb.taken) + Pass(Received(d), d, h, f) && done == DoneIn(Received(d), d, h)
    ensures ok && !done ==> msglen == LeftOver(d.bytes, 0)
    ensures (ok ==> Clean(Received(d), d, h, f)) && (AllSent(fb.sendOk) && Clean(Received(d), d, h, f) ==> ok)
  {
    ghost var all, rest := fb.taken + Pass(Received(d), d, h, f), Received(d);
    var pos := 0;
    MessagesStep(d.bytes, pos);
    while MsgOk(d.bytes, pos)
      invariant fb.Valid() && AllFit(Pass(rest, d, h, f), fb.flushb.Length) && rest == Messages(d.bytes, pos)
      invariant all == fb.taken + Pass(rest, d, h, f) && DoneIn(Received(d), d, h) == DoneIn(rest, d, h)
      invariant !MsgOk(d.bytes, pos) ==> rest == []
      invariant Clean(Received(d), d, h, f) == Clean(rest, d, h, f) && LeftOver(d.bytes, 0) == LeftOver(d.bytes, pos)
      decreases |d.bytes| - pos
    {
      var m := MsgAt(d.bytes, pos);
      MessagesStep(d.bytes, pos);
      ghost var later := Messages(d.bytes, Next(d.bytes, pos));
      PassStep(m, later, d, h, f);
      if Ours(m, d, h) && MsgType(m) == NLMSG_DONE {
        return true, true, |d.bytes| - pos;
      }
      MsgAtIsMsg(d.bytes, pos);
      FitParts(Offered(m, d, h, f), Pass(later, d, h, f), fb.flushb.Length);
      Assoc(fb.taken, Offered(m, d, h, f), Pass(later, d, h, f));
      ok := Offer(fb, m, d, h, f);
      if !ok {
        return false, false, 0;
      }
      pos, rest := Next(d.bytes, pos), later;
      MessagesStep(d.bytes, pos);
    }
    return true, false, |d.bytes| - pos;
  }

  lemma PassAllFrom(d: Datagram, h: Handle, fs: seq<Pick>, a: nat)
    requires a < |fs|
    ensures PassAll(d, h, fs[a..]) == Pass(Received(d), d, h, fs[a]) + PassAll(d, h, fs[a + 1..])
    ensures AllClean(d, h, fs[a..]) <==> Clean(Received(d), d, h, fs[a]) && AllClean(d, h, fs[a + 1..])
  {
    assert fs[a..][1..] == fs[a + 1..];
  }

  /** One datagram: a whole pass for each filter in turn. */
  method RunFilters(fb: FlushBuffer, d: Datagram, h: Handle, fs: seq<Pick>) returns (ok: bool, done: bool, msglen: int)
    requires fb.Valid() && fs != [] && AllFit(PassAll(d, h, fs), fb.flushb.Length)
    modifies fb`flushp, fb`flushed, fb`seqno, fb`sent, fb`taken, fb.flushb
    ensures fb.Valid()
    ensures ok ==> fb.taken == old(fb.taken) + PassAll(d, h, fs) && done == DoneIn(Received(d), d, h)
    ensures ok && !done ==> msglen == LeftOver(d.bytes, 0)
    ensures (ok ==> AllClean(d, h, fs)) && (AllSent(fb.sendOk) && AllClean(d, h, fs) ==> ok)
  {
    ghost var all, rest := fb.taken + PassAll(d, h, fs), PassAll(d, h, fs);
    done, msglen := false, 0;
    assert fs[0..] == fs;
    var a := 0;
    while a < |fs|
      invariant 0 <= a <= |fs| && fb.Valid() && AllFit(rest, fb.flushb.Length)
      invariant rest == PassAll(d, h, fs[a..]) && all == fb.taken + rest
      invariant done == (a > 0 && DoneIn(Received(d), d, h))
      invariant a > 0 && !done ==> msglen == LeftOver(d.bytes, 0)
      invariant AllClean(d, h, fs) == AllClean(d, h, fs[a..])
    {
      PassAllFrom(d, h, fs, a);
      ghost var pass, later := Pass(Received(d), d, h, fs[a]), PassAll(d, h, fs[a + 1..]);
      FitParts(pass, later, fb.flushb.Length);
      Assoc(fb.taken, pass, later);
      var found;
      ok, found, msglen := RunFilter(fb, d, h, fs[a]);
      if !ok {
        return;
      }
      done := done || found;
      a, rest := a + 1, later;
    }
    ok := true;
  }

  /** All that is done with one datagram; it fails if some of it is left without reason. */
  method Digest(fb: FlushBuffer, d: Datagram, h: Handle, fs: seq<Pick>) returns (ok: bool, done: bool)
    requires fb.Valid() && fs != [] && AllFit(PassAll(d, h, fs), fb.flushb.Length)
    modifies fb`flushp, fb`flushed, fb`seqno, fb`sent, fb`taken, fb.flushb
    ensures fb.Valid()
    ensures ok ==> fb.taken == old(fb.taken) + PassAll(d, h, fs) && done == DoneIn(Received(d), d, h)
    ensures (ok ==> Handled(d, h, fs)) && (AllSent(fb.sendOk) && Handled(d, h, fs) ==> ok)
  {
    if d.bytes == [] {
      return false, false;
    }
    var msglen;
    ok, done, msglen := RunFilters(fb, d, h, fs);
    if ok && !done && !d.truncated && msglen != 0 {
      ok := false;
    }
  }

  lemma CompletesFrom(ds: seq<Datagram>, h: Handle, fs: seq<Pick>, i: nat)
    requires i < |ds|
    ensures Completes(ds[i..], h, fs)
       <==> Handled(ds[i], h, fs) && (DoneIn(Received(ds[i]), ds[i], h) || Completes(ds[i + 1..], h, fs))
  {
    assert ds[i..][1..] == ds[i + 1..];
  }

  lemma DumpedFrom(ds: seq<Datagram>, h: Handle, fs: seq<Pick>, i: nat)
    requires i < |ds|
    ensures Dumped(ds[i..], h, fs)
         == PassAll(ds[i], h, fs) + if DoneIn(Received(ds[i]), ds[i], h) then [] else Dumped(ds[i + 1..], h, fs)
  {
    assert ds[i..][1..] == ds[i + 1..];
  }

  /**
   `rtnl_dump_filter_l` over the datagrams received.  It succeeds exactly when they make up a dump, as
   long as every batch of deletes can be sent.
   */
  method DumpFilter(fb: FlushBuffer, ds: seq<Datagram>, h: Handle, fs: seq<Pick>) returns (ok: bool)
    requires fb.Valid() && fs != [] && AllFit(Dumped(ds, h, fs), fb.flushb.Length)
    modifies fb`flushp, fb`flushed, fb`seqno, fb`sent, fb`taken, fb.flushb
    ensures fb.Valid()
    ensures ok ==> fb.taken == old(fb.taken) + Dumped(ds, h, fs)
    ensures (ok ==> Completes(ds, h, fs)) && (AllSent(fb.sendOk) && Completes(ds, h, fs) ==> ok)
  {
    ghost var all, rest := fb.taken + Dumped(ds, h, fs), Dumped(ds, h, fs);
    assert ds[0..] == ds;
    var i := 0;
    while i < |ds|
      invariant 0 <= i <= |ds| && fb.Valid() && AllFit(rest, fb.flushb.Length)
      invariant rest == Dumped(ds[i..], h, fs) && all == fb.taken + rest
      invariant Completes(ds, h, fs) == Completes(ds[i..], h, fs)
    {
      CompletesFrom(ds, h, fs, i);
      DumpedFrom(ds, h, fs, i);
      ghost var here := PassAll(ds[i], h, fs);
      ghost var later := if DoneIn(Received(ds[i]), ds[i], h) then [] else Dumped(ds[i + 1..], h, fs);
      FitParts(here, later, fb.flushb.Length);
      Assoc(fb.taken, here, later);
      var done;
      ok, done := Digest(fb, ds[i], h, fs);
      if !ok || done {
        return;
      }
      i, rest := i + 1, later;
    }
    ok := false;
  }

  /**
   One flush round.  If it succeeds the buffer is empty again, and what has been sent is exactly the
   accepted messages, in order, once each, as deletes.
   */
  method FlushRound(fb: FlushBuffer, ds: seq<Datagram>, pid: nat, fs: seq<Pick>, sendOk: nat -> bool) returns (ok: bool)
    requires fb.Valid() && fb.flushp == 0 && fs != []
    requires AllFit(Dumped(ds, Handle(pid, fb.seqno + 1), fs), fb.flushb.Length)
    modifies fb, fb.flushb
    ensures fb.Valid()
    ensures ok ==> fb.flushp == 0
    ensures ok ==> var ms := Dumped(ds, Handle(pid, old(fb.seqno) + 1), fs);
                   fb.flushed == |ms| && AllDeletes(Delivered(fb.sent), ms, fb.delType, old(fb.seqno) + 1)
    ensures ok ==> Completes(ds, Handle(pid, old(fb.seqno) + 1), fs)
    ensures AllSent(sendOk) && Completes(ds, Handle(pid, old(fb.seqno) + 1), fs) ==> ok
  {
    ghost var ms := Dumped(ds, Handle(pid, fb.seqno + 1), fs);
    fb.Request(sendOk);
    ok := DumpFilter(fb, ds, Handle(pid, fb.seqno), fs);
    assert ok ==> fb.taken == ms;
    if ok {
      ok := Finish(fb);
    }
  }

  /** Sends what the round has left in the buffer. */
  method Finish(fb: FlushBuffer) returns (ok: bool)
    requires fb.Valid()
    modifies fb`flushp, fb`sent
    ensures fb.Valid() && fb.flushed == |fb.taken|
    ensures ok ==> fb.flushp == 0 && AllDeletes(Delivered(fb.sent), fb.taken, fb.delType, fb.seq0)
    ensures AllSent(fb.sendOk) ==> ok
  {
    ok := true;
    if fb.flushed != 0 {
      ok := fb.FlushUpdate();
    }
    NothingHeld(fb);
    DeletesRead(fb.taken, fb.delType, fb.seq0);
  }

  lemma NothingHeld(fb: FlushBuffer)
    requires fb.Valid()
    ensures fb.flushed == |fb.taken| && (fb.flushed == 0 ==> fb.flushp == 0)
    ensures fb.flushp == 0 ==> Deleted(fb.sent, fb.taken, fb.delType, fb.seq0)
  {
    var b := fb.flushb[..fb.flushp];
    assert fb.flushp == 0 ==> b == [] && Messages(b, 0) == [];
    assert fb.flushed == 0 ==> Messages(b, 0) == [];
  }

  // ----- addresses: secondaries before primaries

  lemma {:induction false} OnlySecondaries(ms: seq<Msg>, d: Datagram, h: Handle, w: Msg -> bool)
    ensures forall m | m in Pass(ms, d, h, Secondaries(w)) :: Secondary(m)
  {
    if ms == [] {
    } else {
      OnlySecondaries(ms[1..], d, h, w);
    }
  }

  lemma {:induction false} OnlyPrimaries(ms: seq<Msg>, d: Datagram, h: Handle, w: Msg -> bool)
    ensures forall m | m in Pass(ms, d, h, Primaries(w)) :: !Secondary(m)
  {
    if ms == [] {
    } else {
      OnlyPrimaries(ms[1..], d, h, w);
    }
  }

  lemma ChosenSplit(m: Msg, w: Msg -> bool)
    ensures Chosen(Addresses(w), m) == Chosen(Secondaries(w), m) + Chosen(Primaries(w), m)
  {
  }

  lemma Shuffle<T>(a: multiset<T>, b: multiset<T>, x: multiset<T>, y: multiset<T>, z: multiset<T>)
    requires x + y == z
    ensures (a + x) + (b + y) == (a + b) + z
  {
  }

  /** The two passes over a datagram accept, between them, what one pass for all addresses would. */
  lemma {:induction false} SplitByKind(ms: seq<Msg>, d: Datagram, h: Handle, w: Msg -> bool)
    ensures multiset(Pass(ms, d, h, Secondaries(w))) + multiset(Pass(ms, d, h, Primaries(w)))
         == multiset(Pass(ms, d, h, Addresses(w)))
  {
    if ms == [] || Ends(ms[0], d, h) {
    } else {
      var m := ms[0];
      SplitByKind(ms[1..], d, h, w);
      ChosenSplit(m, w);
      Shuffle(multiset(Chosen(Secondaries(w), m)), multiset(Chosen(Primaries(w), m)),
        multiset(Pass(ms[1..], d, h, Secondaries(w))), multiset(Pass(ms[1..], d, h, Primaries(w))),
        multiset(Pass(ms[1..], d, h, Addresses(w))));
    }
  }

  /** The filters of an address flush. */
  function AddressFilters(w: Msg -> bool): seq<Pick> {
    [Secondaries(w), Primaries(w)]
  }

  /** In each datagram all accepted secondaries come before all accepted primaries, and none is lost. */
  lemma SecondariesFirst(d: Datagram, h: Handle, w: Msg -> bool)
    ensures var all := PassAll(d, h, AddressFilters(w));
            && (forall i, j | 0 <= i < j < |all| :: Secondary(all[j]) ==> Secondary(all[i]))
            && multiset(all) == multiset(Pass(Received(d), d, h, Addresses(w)))
  {
    var fs := AddressFilters(w);
    var s, p := Pass(Received(d), d, h, Secondaries(w)), Pass(Received(d), d, h, Primaries(w));
    assert fs[1..] == [Primaries(w)] && fs[1..][1..] == [];
    assert PassAll(d, h, fs[1..]) == p;
    OnlySecondaries(Received(d), d, h, w);
    OnlyPrimaries(Received(d), d, h, w);
    SplitByKind(Received(d), d, h, w);
  }
}
