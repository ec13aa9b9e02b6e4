/**
 The socket-filter compiler of misc/ss.c.

 A filter tree is compiled to relocatable jump bytecode and can also be run
 directly.  The main theorem says that the bytecode decides every socket as the
 direct evaluator does, under the exact conditions in which it is true.
 */
module SsFilter {
  import opened Bits
  import opened InetPrefix

  const AF_INET := 2
  const AF_INET6 := 10

  // ----- filters and sockets

  datatype SockAddr = SockAddr(family: nat, data: AddrData)

  type Port = p: int | 0 <= p < 0x1_0000

  /** `ephemeral`: whether the local port lies in the system's ephemeral range. */
  datatype Socket = Socket(local: SockAddr, lport: Port, remote: SockAddr, rport: Port, ephemeral: bool)

  /** One `struct aafilter`; port -1 stands for any port. */
  datatype HostFilter = HostFilter(addr: Prefix, port: int)

  datatype Filter =
    | Auto
    | DCond(hosts: seq<HostFilter>)
    | SCond(hosts: seq<HostFilter>)
    | DGe(port: int)
    | DLe(port: int)
    | SGe(port: int)
    | SLe(port: int)
    | AndF(pred: Filter, post: Filter)
    | OrF(pred: Filter, post: Filter)
    | NotF(pred: Filter)

  predicate Ipv4Mapped(a: AddrData) {
    && IsZero(a[..80])
    && a[80..96] == Ones(16)
  }

  /** `inet2_addr_match`, true for a match: an IPv4 prefix also matches an IPv4-mapped address. */
  predicate Inet2Match(a: SockAddr, p: Prefix)
    requires 0 <= p.bitlen <= 128
  {
    || InetAddrMatch(a.data, p.data, p.bitlen) == 0
    || (&& p.family == AF_INET && a.family == AF_INET6 && Ipv4Mapped(a.data)
        && InetAddrMatch(WordAt(a.data, 3) + a.data[32..], p.data, p.bitlen) == 0)
  }

  /** The prefix is no longer than an address of its family. */
  predicate HostOk(h: HostFilter) {
    0 <= h.addr.bitlen <= (if h.addr.family == AF_INET6 then 128 else 32)
  }

  predicate HostsOk(hosts: seq<HostFilter>) {
    hosts != [] && forall i | 0 <= i < |hosts| :: HostOk(hosts[i])
  }

  predicate WellFormed(f: Filter) {
    match f
    case DCond(hosts) => HostsOk(hosts)
    case SCond(hosts) => HostsOk(hosts)
    case AndF(l, r) => WellFormed(l) && WellFormed(r)
    case OrF(l, r) => WellFormed(l) && WellFormed(r)
    case NotF(l) => WellFormed(l)
    case _ => true
  }

  /** Some address of the list matches. */
  predicate AnyMatch(a: SockAddr, hosts: seq<HostFilter>)
  {
    exists i :: 0 <= i < |hosts| && HostOk(hosts[i]) && Inet2Match(a, hosts[i].addr)
  }

  predicate HostTest(a: SockAddr, port: Port, hosts: seq<HostFilter>)
    requires HostsOk(hosts)
  {
    if hosts[0].port != -1 && hosts[0].port != port then false
    else if hosts[0].addr.bitlen != 0 then AnyMatch(a, hosts)
    else true
  }

  /** The direct evaluator. */
  predicate RunSsfilter(f: Filter, s: Socket)
    requires WellFormed(f)
  {
    match f
    case Auto => s.ephemeral
    case DCond(hosts) => HostTest(s.remote, s.rport, hosts)
    case SCond(hosts) => HostTest(s.local, s.lport, hosts)
    case DGe(port) => s.rport >= port
    case DLe(port) => s.rport <= port
    case SGe(port) => s.lport >= port
    case SLe(port) => s.lport <= port
    case AndF(l, r) => RunSsfilter(l, s) && RunSsfilter(r, s)
    case OrF(l, r) => RunSsfilter(l, s) || RunSsfilter(r, s)
    case NotF(l) => !RunSsfilter(l, s)
  }

  // ----- bytecode

  datatype Code = BcNop | BcJmp | BcSGe | BcSLe | BcDGe | BcDLe | BcAuto | BcSCond | BcDCond

  /**
   One aligned group of four bytes: an `inet_diag_bc_op`, the port operand of a
   comparison, the two halves of an `inet_diag_hostcond`, or a word of its address.
   `yes` and `no` are counted in these cells; the C code keeps four times as much.
   */
  datatype Cell =
    | Op(code: Code, yes: nat, no: nat)
    | PortWord(bound: nat)
    | CondHead(family: nat, prefixLen: nat)
    | CondPort(port: int)
    | AddrWord(w: Word)

  predicate StepOk(c: seq<Cell>) {
    && c != [] && c[0].Op?
    && 1 <= c[0].yes <= |c| && 1 <= c[0].no
  }

  function AddrOfCells(args: seq<Cell>): seq<bool> {
    if args == [] || !args[0].AddrWord? then [] else args[0].w + AddrOfCells(args[1..])
  }

  function PadAddr(bits: seq<bool>): AddrData {
    if |bits| <= 256 then bits + Zeros(256 - |bits|) else bits[..256]
  }

  predicate CondHolds(args: seq<Cell>, a: SockAddr, port: Port) {
    && |args| >= 2 && args[0].CondHead? && args[1].CondPort? && args[0].prefixLen <= 128
    && (args[1].port == -1 || args[1].port == port)
    && (args[0].prefixLen == 0
        || Inet2Match(a, Prefix(args[0].family, args[0].prefixLen, PadAddr(AddrOfCells(args[2..])))))
  }

  predicate PortHolds(args: seq<Cell>, ge: bool, port: Port) {
    args != [] && args[0].PortWord? && (if ge then port >= args[0].bound else port <= args[0].bound)
  }

  /** The test of one op on its operand cells; a jump tests nothing and always takes `no`. */
  predicate OpHolds(code: Code, args: seq<Cell>, s: Socket) {
    match code
    case BcNop => true
    case BcJmp => false
    case BcSGe => PortHolds(args, true, s.lport)
    case BcSLe => PortHolds(args, false, s.lport)
    case BcDGe => PortHolds(args, true, s.rport)
    case BcDLe => PortHolds(args, false, s.rport)
    case BcAuto => s.ephemeral
    case BcSCond => CondHolds(args, s.local, s.lport)
    case BcDCond => CondHolds(args, s.remote, s.rport)
  }

  /** Where a run comes to rest: a number of cells past the end of the code, or on a malformed op. */
  datatype Landing = Past(cells: nat) | Stuck

  /** Runs the code from its start; both branches are forward distances. */
  function Exec(c: seq<Cell>, s: Socket): Landing {
    if c == [] then Past(0)
    else if !StepOk(c) then Stuck
    else
      var d := if OpHolds(c[0].code, c[1..c[0].yes], s) then c[0].yes else c[0].no;
      if d <= |c| then Exec(c[d..], s) else Past(d - |c|)
  }

  /** A socket passes exactly when the run ends on the end of the code. */
  predicate Accepts(c: seq<Cell>, s: Socket) {
    Exec(c, s) == Past(0)
  }

  // ----- compiler

  /** Storing a length in a (signed) `char`. */
  function ToChar(n: nat): int {
    var m := n % 256;
    if m < 128 then m else m - 256
  }

  function U16(n: int): (r: nat)
    ensures r < 0x1_0000
    ensures 0 <= n < 0x1_0000 ==> r == n
  {
    n % 0x1_0000
  }

  /** A distance of `n` cells stored in the 16 bits of `no`, which count bytes. */
  function No16(n: nat): (r: nat)
    ensures n < 0x4000 ==> r == n
  {
    U16(4 * n) / 4
  }

  function AddrCells(h: HostFilter): nat {
    if h.addr.family == AF_INET6 then 4 else 1
  }

  function BlockCells(h: HostFilter): nat {
    AddrCells(h) + 1 + 2
  }

  /** Cells of the code for `n` addresses under head `h`. */
  function ChainCells(h: HostFilter, n: nat): nat
    requires n > 0
  {
    if n == 1 then BlockCells(h) else BlockCells(h) + 1 + ChainCells(h, n - 1)
  }

  /** The op and condition emitted for one list element: always the head's condition. */
  function Block(code: Code, h: HostFilter): (c: seq<Cell>)
    requires 0 <= h.addr.bitlen
    ensures |c| == BlockCells(h)
  {
    var n := BlockCells(h);
    [Op(code, n, n + 1), CondHead(h.addr.family, h.addr.bitlen), CondPort(h.port), AddrWord(WordAt(h.addr.data, 0))]
    + if h.addr.family == AF_INET6
      then [AddrWord(WordAt(h.addr.data, 1)), AddrWord(WordAt(h.addr.data, 2)), AddrWord(WordAt(h.addr.data, 3))]
      else []
  }

  /** `n` blocks, with a jump to the end of the chain between neighbours. */
  function Chain(code: Code, h: HostFilter, n: nat): (c: seq<Cell>)
    requires n > 0 && 0 <= h.addr.bitlen
    ensures |c| == ChainCells(h, n)
  {
    if n == 1 then Block(code, h)
    else
      var rest := Chain(code, h, n - 1);
      Block(code, h) + ([Op(BcJmp, 1, No16(1 + |rest|))] + rest)
  }

  function PortCode(code: Code, port: int): seq<Cell> {
    [Op(code, 2, 3), PortWord(U16(port))]
  }

  function CodeCells(f: Filter): nat
    requires WellFormed(f)
  {
    match f
    case Auto => 1
    case DCond(hosts) => ChainCells(hosts[0], |hosts|)
    case SCond(hosts) => ChainCells(hosts[0], |hosts|)
    case AndF(l, r) => CodeCells(l) + CodeCells(r)
    case OrF(l, r) => CodeCells(l) + CodeCells(r) + 1
    case NotF(l) => CodeCells(l) + 1
    case _ => 2
  }

  /** Every byte length fits the field that stores it: a `char` for the parts of a tree, `no` for a chain. */
  predicate Fits(f: Filter)
    requires WellFormed(f)
  {
    match f
    case DCond(hosts) => 4 * (ChainCells(hosts[0], |hosts|) - BlockCells(hosts[0])) < 0x1_0000
    case SCond(hosts) => 4 * (ChainCells(hosts[0], |hosts|) - BlockCells(hosts[0])) < 0x1_0000
    case AndF(l, r) => Fits(l) && Fits(r) && 4 * CodeCells(l) <= 127 && 4 * CodeCells(r) <= 127
    case OrF(l, r) => Fits(l) && Fits(r) && 4 * CodeCells(l) <= 127 && 4 * CodeCells(r) <= 127
    case NotF(l) => Fits(l) && 4 * CodeCells(l) <= 127
    case _ => true
  }

  /** `ssfilter_patch`: walks by `yes` and moves the jumps that leave the code by one cell. */
  function Patch(c: seq<Cell>, reloc: nat): (r: seq<Cell>)
    ensures |r| == |c|
  {
    if !StepOk(c) then c
    else
      var op := if c[0].no == |c| + 1 then c[0].(no := No16(c[0].no + reloc)) else c[0];
      var y := c[0].yes;
      [op] + c[1..y] + Patch(c[y..], reloc)
  }

  function Compile(f: Filter): (c: seq<Cell>)
    requires WellFormed(f)
    ensures |c| == CodeCells(f)
  {
    match f
    case Auto => [Op(BcAuto, 1, 2)]
    case DCond(hosts) => Chain(BcDCond, hosts[0], |hosts|)
    case SCond(hosts) => Chain(BcSCond, hosts[0], |hosts|)
    case DGe(port) => PortCode(BcDGe, port)
    case DLe(port) => PortCode(BcDLe, port)
    case SGe(port) => PortCode(BcSGe, port)
    case SLe(port) => PortCode(BcSLe, port)
    case AndF(l, r) => var c2 := Compile(r); Patch(Compile(l), |c2|) + c2
    case OrF(l, r) => var c2 := Compile(r); Compile(l) + ([Op(BcJmp, 1, No16(|c2| + 1))] + c2)
    case NotF(l) => Compile(l) + [Op(BcJmp, 1, 2)]
  }

  // ----- shape of compiled code

  /** `k` is reached by walking from op to op by `yes`; the end of the code may be such a point. */
  predicate Boundary(c: seq<Cell>, k: nat) {
    k == 0 || (StepOk(c) && k >= c[0].yes && Boundary(c[c[0].yes..], k - c[0].yes))
  }

  predicate NoOk(c: seq<Cell>)
    requires StepOk(c)
  {
    c[0].no == |c| + 1 || (c[0].no <= |c| && Boundary(c, c[0].no))
  }

  /** The walk ends on the end, and each `no` goes to an op boundary, the end or one cell past it. */
  predicate Jumps(c: seq<Cell>) {
    c == [] || (StepOk(c) && NoOk(c) && Jumps(c[c[0].yes..]))
  }

  /** The walk by `yes` visits op after op and ends exactly on the end. */
  lemma {:induction false} WalkEnds(c: seq<Cell>)
    requires Jumps(c)
    ensures Boundary(c, |c|)
  {
    if c == [] {
    } else {
      WalkEnds(c[c[0].yes..]);
    }
  }

  lemma {:induction false} JumpsFrom(c: seq<Cell>, k: nat)
    requires Jumps(c) && Boundary(c, k)
    ensures k <= |c| && Jumps(c[k..])
  {
    if k == 0 {
      assert c[0..] == c;
    } else {
      var y := c[0].yes;
      JumpsFrom(c[y..], k - y);
      assert c[y..][k - y..] == c[k..];
    }
  }

  lemma {:induction false} BoundaryAppend(c: seq<Cell>, t: seq<Cell>, k: nat)
    requires Boundary(c, k)
    ensures Boundary(c + t, k)
  {
    if k == 0 {
    } else {
      var y := c[0].yes;
      assert (c + t)[y..] == c[y..] + t;
      BoundaryAppend(c[y..], t, k - y);
    }
  }

  lemma {:induction false} BoundaryThrough(c: seq<Cell>, t: seq<Cell>, j: nat)
    requires Boundary(c, |c|) && Boundary(t, j)
    ensures Boundary(c + t, |c| + j)
  {
    if c == [] {
      assert c + t == t;
    } else {
      var y := c[0].yes;
      assert (c + t)[y..] == c[y..] + t;
      BoundaryThrough(c[y..], t, j);
    }
  }

  /** Code followed by an op of one cell: what left the code by one cell now lands behind that op. */
  lemma {:induction false} JumpsAppend(c: seq<Cell>, t: seq<Cell>)
    requires Jumps(c) && Jumps(t) && Boundary(t, 1)
    ensures Jumps(c + t)
  {
    if c == [] {
      assert c + t == t;
    } else {
      var y := c[0].yes;
      assert (c + t)[y..] == c[y..] + t;
      JumpsAppend(c[y..], t);
      if c[0].no == |c| + 1 {
        WalkEnds(c);
        BoundaryThrough(c, t, 1);
      } else {
        BoundaryAppend(c, t, c[0].no);
      }
    }
  }

  // ----- relocation

  /** One op of relocated code followed by `t`: only its `no` may differ. */
  lemma PatchStep(c: seq<Cell>, reloc: nat, t: seq<Cell>)
    requires reloc == |t| && 4 * (|c| + 1 + reloc) < 0x1_0000
    requires StepOk(c)
    ensures var p := Patch(c, reloc) + t;
            var y := c[0].yes;
            && StepOk(p) && p[0].code == c[0].code && p[0].yes == c[0].yes && p[1..y] == c[1..y]
            && p[0].no == (if c[0].no == |c| + 1 then |p| + 1 else c[0].no)
            && p[y..] == Patch(c[y..], reloc) + t && Patch(c, reloc)[y..] == Patch(c[y..], reloc)
  {
  }

  /** Relocating and then walking to a boundary is walking there and then relocating. */
  lemma {:induction false} PatchFrom(c: seq<Cell>, reloc: nat, t: seq<Cell>, k: nat)
    requires reloc == |t| && 4 * (|c| + 1 + reloc) < 0x1_0000
    requires Boundary(c, k) && k <= |c|
    ensures Patch(c, reloc)[k..] == Patch(c[k..], reloc)
  {
    if k == 0 {
      assert c[0..] == c;
    } else {
      var y := c[0].yes;
      PatchStep(c, reloc, t);
      PatchFrom(c[y..], reloc, t, k - y);
      DropTwice(c, y, k);
      DropTwice(Patch(c, reloc), y, k);
    }
  }

  lemma {:induction false} PatchBoundary(c: seq<Cell>, reloc: nat, t: seq<Cell>, k: nat)
    requires reloc == |t| && 4 * (|c| + 1 + reloc) < 0x1_0000
    requires Boundary(c, k)
    ensures Boundary(Patch(c, reloc) + t, k)
  {
    if k == 0 {
    } else {
      PatchStep(c, reloc, t);
      PatchBoundary(c[c[0].yes..], reloc, t, k - c[0].yes);
    }
  }

  lemma {:induction false} JumpsPatch(c: seq<Cell>, t: seq<Cell>)
    requires Jumps(c) && Jumps(t) && 4 * (|c| + 1 + |t|) < 0x1_0000
    ensures Jumps(Patch(c, |t|) + t)
  {
    if c == [] {
      assert Patch(c, |t|) + t == t;
    } else {
      PatchStep(c, |t|, t);
      JumpsPatch(c[c[0].yes..], t);
      if c[0].no != |c| + 1 {
        PatchBoundary(c, |t|, t, c[0].no);
      }
    }
  }

  /** Relocation changes the `no` of the ops that leave the code by one cell, and nothing else. */
  lemma {:induction false} PatchExact(c: seq<Cell>, reloc: nat, i: nat)
    requires Jumps(c) && i < |c|
    ensures Patch(c, reloc)[i]
         == if Boundary(c, i) && c[i].Op? && c[i].no == |c| - i + 1
            then c[i].(no := No16(c[i].no + reloc)) else c[i]
  {
    var y := c[0].yes;
    if i < y {
    } else {
      PatchExact(c[y..], reloc, i - y);
      assert Boundary(c, i) <==> Boundary(c[y..], i - y);
    }
  }

  // ----- running composed code

  /** Well-shaped code is never stuck and ends on its end or one cell past it. */
  lemma {:induction false} ExecLands(c: seq<Cell>, s: Socket)
    requires Jumps(c)
    ensures Exec(c, s) == Past(0) || Exec(c, s) == Past(1)
    decreases |c|
  {
    if c == [] {
    } else {
      var d := if OpHolds(c[0].code, c[1..c[0].yes], s) then c[0].yes else c[0].no;
      if d == c[0].yes {
        ExecLands(c[d..], s);
      } else if d <= |c| {
        JumpsFrom(c, d);
        ExecLands(c[d..], s);
      }
    }
  }

  lemma {:induction false} ExecAppend(c: seq<Cell>, t: seq<Cell>, s: Socket)
    requires Jumps(c) && t != []
    ensures Exec(c + t, s) == if Exec(c, s) == Past(0) then Exec(t, s) else Exec(t[1..], s)
    decreases |c|
  {
    if c == [] {
      assert c + t == t;
    } else {
      var y := c[0].yes;
      var all := c + t;
      assert all[1..y] == c[1..y];
      var d := if OpHolds(c[0].code, c[1..y], s) then c[0].yes else c[0].no;
      if d <= |c| {
        if d != y {
          JumpsFrom(c, d);
        }
        assert all[d..] == c[d..] + t;
        ExecAppend(c[d..], t, s);
      } else {
        assert all[d..] == t[1..];
      }
    }
  }

  lemma {:induction false} ExecPatch(c: seq<Cell>, t: seq<Cell>, s: Socket)
    requires Jumps(c) && 4 * (|c| + 1 + |t|) < 0x1_0000
    ensures Exec(Patch(c, |t|) + t, s) == if Exec(c, s) == Past(0) then Exec(t, s) else Past(1)
    decreases |c|
  {
    if c == [] {
      assert Patch(c, |t|) + t == t;
    } else {
      var y, holds := c[0].yes, OpHolds(c[0].code, c[1..c[0].yes], s);
      var all := Patch(c, |t|) + t;
      PatchStep(c, |t|, t);
      ExecStep(c, s);
      ExecStep(all, s);
      var d := if holds then y else c[0].no;
      if d <= |c| {
        LeadsOn(c, d);
        JumpsFrom(c, d);
        PatchedFrom(c, t, d);
        ExecPatch(c[d..], t, s);
      }
    }
  }

  /** One op of a run. */
  lemma ExecStep(c: seq<Cell>, s: Socket)
    requires StepOk(c)
    ensures var d := if OpHolds(c[0].code, c[1..c[0].yes], s) then c[0].yes else c[0].no;
            Exec(c, s) == if d <= |c| then Exec(c[d..], s) else Past(d - |c|)
  {
  }

  /** Both ways on from an op lead to a later op or the end, unless they leave the code. */
  lemma LeadsOn(c: seq<Cell>, d: nat)
    requires Jumps(c) && c != [] && d <= |c| && (d == c[0].yes || d == c[0].no)
    ensures 0 < d && Boundary(c, d)
  {
    if d == c[0].yes {
      assert Boundary(c[d..], 0);
    }
  }

  lemma DropFront(p: seq<Cell>, t: seq<Cell>, d: nat)
    requires d <= |p|
    ensures (p + t)[d..] == p[d..] + t
  {
  }

  lemma DropTwice(p: seq<Cell>, y: nat, k: nat)
    requires y <= k <= |p|
    ensures p[y..][k - y..] == p[k..]
  {
  }

  /** Wherever an op of relocated code leads, relocated code goes on. */
  lemma PatchedFrom(c: seq<Cell>, t: seq<Cell>, d: nat)
    requires Boundary(c, d) && d <= |c| && 4 * (|c| + 1 + |t|) < 0x1_0000
    ensures (Patch(c, |t|) + t)[d..] == Patch(c[d..], |t|) + t
  {
    PatchFrom(c, |t|, t, d);
    DropFront(Patch(c, |t|), t, d);
  }

  // ----- leaves

  /** Well-shaped code whose run on `s` ends on the end when `ok`, and one cell past it otherwise. */
  predicate Decides(c: seq<Cell>, s: Socket, ok: bool) {
    Jumps(c) && Exec(c, s) == Past(if ok then 0 else 1)
  }

  /** Only the bits under a prefix matter to the test. */
  lemma Inet2Prefix(a: SockAddr, p: Prefix, q: Prefix)
    requires p.family == q.family && p.bitlen == q.bitlen && 0 <= p.bitlen <= 128
    requires p.data[..p.bitlen] == q.data[..p.bitlen]
    ensures Inet2Match(a, p) == Inet2Match(a, q)
  {
    var mapped: AddrData := WordAt(a.data, 3) + a.data[32..];
    MatchIsEqualPrefix(a.data, p.data, p.bitlen);
    MatchIsEqualPrefix(a.data, q.data, p.bitlen);
    MatchIsEqualPrefix(mapped, p.data, p.bitlen);
    MatchIsEqualPrefix(mapped, q.data, p.bitlen);
  }

  lemma AddrOfSingle(w: Word, rest: seq<Cell>)
    ensures AddrOfCells([AddrWord(w)] + rest) == w + AddrOfCells(rest)
  {
    assert ([AddrWord(w)] + rest)[1..] == rest;
  }

  /** The address words of a block hold the significant part of the head's address. */
  lemma BlockAddress(code: Code, h: HostFilter)
    requires 0 <= h.addr.bitlen
    ensures AddrOfCells(Block(code, h)[3..]) == h.addr.data[..32 * AddrCells(h)]
  {
    var d := h.addr.data;
    var w0, w1, w2, w3 := WordAt(d, 0), WordAt(d, 1), WordAt(d, 2), WordAt(d, 3);
    if h.addr.family == AF_INET6 {
      var t3: seq<Cell> := [AddrWord(w3)] + [];
      var t2, t1 := [AddrWord(w2)] + t3, [AddrWord(w1)] + ([AddrWord(w2)] + t3);
      AddrOfSingle(w3, []);
      AddrOfSingle(w2, t3);
      AddrOfSingle(w1, t2);
      AddrOfSingle(w0, t1);
      assert Block(code, h)[3..] == [AddrWord(w0)] + t1;
      assert d[..128] == w0 + (w1 + (w2 + (w3 + [])));
    } else {
      AddrOfSingle(w0, []);
      assert Block(code, h)[3..] == [AddrWord(w0)] + [];
      assert d[..32] == w0 + [];
    }
  }

  /** What one emitted block tests: the head's port and the head's address. */
  predicate HeadHolds(h: HostFilter, a: SockAddr, port: Port)
    requires HostOk(h)
  {
    (h.port == -1 || h.port == port) && (h.addr.bitlen == 0 || Inet2Match(a, h.addr))
  }

  lemma BlockTest(code: Code, h: HostFilter, a: SockAddr, port: Port)
    requires HostOk(h)
    ensures CondHolds(Block(code, h)[1..], a, port) == HeadHolds(h, a, port)
  {
    var args := Block(code, h)[1..];
    BlockAddress(code, h);
    assert args[2..] == Block(code, h)[3..];
    var n := 32 * AddrCells(h);
    var q := Prefix(h.addr.family, h.addr.bitlen, PadAddr(h.addr.data[..n]));
    assert q.data[..q.bitlen] == h.addr.data[..q.bitlen];
    Inet2Prefix(a, h.addr, q);
  }

  predicate IsHostCode(code: Code) {
    code == BcSCond || code == BcDCond
  }

  predicate SideHolds(code: Code, h: HostFilter, s: Socket)
    requires HostOk(h)
  {
    if code == BcSCond then HeadHolds(h, s.local, s.lport) else HeadHolds(h, s.remote, s.rport)
  }

  lemma BlockStep(code: Code, h: HostFilter, t: seq<Cell>, s: Socket)
    requires HostOk(h) && IsHostCode(code)
    ensures var c := Block(code, h) + t;
            var y := c[0].yes;
            && StepOk(c) && c[0].code == code && c[y..] == t
            && OpHolds(code, c[1..y], s) == SideHolds(code, h, s)
  {
    var c := Block(code, h) + t;
    assert c[1..c[0].yes] == Block(code, h)[1..];
    BlockTest(code, h, s.local, s.lport);
    BlockTest(code, h, s.remote, s.rport);
  }

  lemma JumpOut(no: nat, t: seq<Cell>)
    requires no == 1 + |t| && Jumps(t)
    ensures Jumps([Op(BcJmp, 1, no)] + t) && Boundary([Op(BcJmp, 1, no)] + t, 1)
    ensures forall s :: Exec([Op(BcJmp, 1, no)] + t, s) == Past(0)
  {
    var c := [Op(BcJmp, 1, no)] + t;
    assert c[1..] == t;
    assert c[|c|..] == [];
    WalkEnds(t);
    assert Boundary(t, 0);
    assert Boundary(c, |c|);
  }

  lemma BlockThenJump(code: Code, h: HostFilter, rest: seq<Cell>, s: Socket, ok: bool)
    requires HostOk(h) && IsHostCode(code) && Decides(rest, s, ok)
    ensures Decides(Block(code, h) + ([Op(BcJmp, 1, 1 + |rest|)] + rest), s, SideHolds(code, h, s) || ok)
  {
    var jmp := [Op(BcJmp, 1, 1 + |rest|)] + rest;
    var c := Block(code, h) + jmp;
    JumpOut(1 + |rest|, rest);
    BlockStep(code, h, jmp, s);
    var y := c[0].yes;
    assert Boundary(c, y + 1) by { assert Boundary(c[y..], 1); }
    assert c[y + 1..] == rest;
    assert y + 1 <= |c|;
  }

  lemma BlockAlone(code: Code, h: HostFilter, s: Socket)
    requires HostOk(h) && IsHostCode(code)
    ensures Decides(Block(code, h), s, SideHolds(code, h, s))
  {
    var c := Block(code, h);
    BlockStep(code, h, [], s);
    assert c + [] == c;
  }

  /** While distances fit, the jump behind a block leads to the end of the chain. */
  lemma ChainStep(code: Code, h: HostFilter, n: nat)
    requires n > 1 && 0 <= h.addr.bitlen && 4 * (ChainCells(h, n) - BlockCells(h)) < 0x1_0000
    ensures var rest := Chain(code, h, n - 1);
            && Chain(code, h, n) == Block(code, h) + ([Op(BcJmp, 1, 1 + |rest|)] + rest)
            && 4 * (ChainCells(h, n - 1) - BlockCells(h)) < 0x1_0000
  {
  }

  /** A chain of any length is well shaped and accepts exactly when the head's condition holds. */
  lemma {:induction false} ChainRuns(code: Code, h: HostFilter, n: nat, s: Socket)
    requires n > 0 && HostOk(h) && IsHostCode(code)
    requires 4 * (ChainCells(h, n) - BlockCells(h)) < 0x1_0000
    ensures Decides(Chain(code, h, n), s, SideHolds(code, h, s))
  {
    if n == 1 {
      BlockAlone(code, h, s);
    } else {
      ChainRuns(code, h, n - 1, s);
      ChainStep(code, h, n);
      BlockThenJump(code, h, Chain(code, h, n - 1), s, SideHolds(code, h, s));
    }
  }

  lemma PortRuns(code: Code, port: int, s: Socket)
    requires code in {BcSGe, BcSLe, BcDGe, BcDLe}
    ensures var c := PortCode(code, port);
            var x := if code == BcSGe || code == BcSLe then s.lport else s.rport;
            Decides(c, s, if code == BcSGe || code == BcDGe then x >= U16(port) else x <= U16(port))
  {
    var c := PortCode(code, port);
    assert c[2..] == [];
    assert c[1..c[0].yes][0] == c[1];
  }

  // ----- compiler correctness

  /** What the bytecode decides: a host list counts for its head alone, a port for its low 16 bits. */
  function Emitted(f: Filter): Filter
    requires WellFormed(f)
  {
    match f
    case Auto => f
    case DCond(hosts) => DCond(hosts[..1])
    case SCond(hosts) => SCond(hosts[..1])
    case DGe(port) => DGe(U16(port))
    case DLe(port) => DLe(U16(port))
    case SGe(port) => SGe(U16(port))
    case SLe(port) => SLe(U16(port))
    case AndF(l, r) => AndF(Emitted(l), Emitted(r))
    case OrF(l, r) => OrF(Emitted(l), Emitted(r))
    case NotF(l) => NotF(Emitted(l))
  }

  lemma SingleHost(h: HostFilter, a: SockAddr, port: Port)
    requires HostOk(h)
    ensures HostTest(a, port, [h]) == HeadHolds(h, a, port)
  {
    var hosts := [h];
    if h.addr.bitlen != 0 && Inet2Match(a, h.addr) {
      assert Inet2Match(a, hosts[0].addr);
    }
  }

  /** A bound includes the port it names, on the side it names, and its negation excludes it; `auto` asks for an ephemeral port. */
  lemma PortBounds(port: int, s: Socket)
    ensures (RunSsfilter(Auto, s) <==> s.ephemeral) && (RunSsfilter(NotF(Auto), s) <==> !s.ephemeral)
    ensures (RunSsfilter(DGe(port), s) <==> s.rport >= port) && (RunSsfilter(NotF(DGe(port)), s) <==> s.rport < port)
    ensures (RunSsfilter(DLe(port), s) <==> s.rport <= port) && (RunSsfilter(NotF(DLe(port)), s) <==> s.rport > port)
    ensures (RunSsfilter(SGe(port), s) <==> s.lport >= port) && (RunSsfilter(NotF(SGe(port)), s) <==> s.lport < port)
    ensures (RunSsfilter(SLe(port), s) <==> s.lport <= port) && (RunSsfilter(NotF(SLe(port)), s) <==> s.lport > port)
  {
  }

  /** One host selects by its port, or any for -1, and by its prefix, or any for length 0, on the side it names. */
  lemma OneHostSelects(h: HostFilter, s: Socket)
    requires HostOk(h)
    ensures RunSsfilter(DCond([h]), s)
       <==> (h.port == -1 || h.port == s.rport) && (h.addr.bitlen == 0 || Inet2Match(s.remote, h.addr))
    ensures RunSsfilter(SCond([h]), s)
       <==> (h.port == -1 || h.port == s.lport) && (h.addr.bitlen == 0 || Inet2Match(s.local, h.addr))
  {
    SingleHost(h, s.remote, s.rport);
    SingleHost(h, s.local, s.lport);
  }

  lemma AndDecides(c1: seq<Cell>, c2: seq<Cell>, s: Socket, ok1: bool, ok2: bool)
    requires Decides(c1, s, ok1) && Decides(c2, s, ok2) && 4 * |c1| <= 127 && 4 * |c2| <= 127
    ensures Decides(Patch(c1, |c2|) + c2, s, ok1 && ok2)
  {
    JumpsPatch(c1, c2);
    ExecPatch(c1, c2, s);
  }

  lemma OrDecides(c1: seq<Cell>, c2: seq<Cell>, s: Socket, ok1: bool, ok2: bool)
    requires Decides(c1, s, ok1) && Decides(c2, s, ok2)
    ensures Decides(c1 + ([Op(BcJmp, 1, |c2| + 1)] + c2), s, ok1 || ok2)
  {
    var jmp := [Op(BcJmp, 1, |c2| + 1)] + c2;
    JumpOut(|c2| + 1, c2);
    JumpsAppend(c1, jmp);
    ExecAppend(c1, jmp, s);
    assert jmp[1..] == c2;
  }

  lemma NotDecides(c1: seq<Cell>, s: Socket, ok1: bool)
    requires Decides(c1, s, ok1)
    ensures Decides(c1 + [Op(BcJmp, 1, 2)], s, !ok1)
  {
    var jmp := [Op(BcJmp, 1, 2)];
    assert jmp[1..] == [];
    assert Boundary(jmp[1..], 0) && Jumps(jmp[1..]);
    JumpsAppend(c1, jmp);
    ExecAppend(c1, jmp, s);
  }

  /** Every compiled filter is well shaped and lands as the direct evaluation of what was emitted. */
  lemma {:induction false} CompileCorrect(f: Filter, s: Socket)
    requires WellFormed(f) && Fits(f)
    ensures WellFormed(Emitted(f))
    ensures Decides(Compile(f), s, RunSsfilter(Emitted(f), s))
  {
    match f
    case AndF(l, r) =>
      CompileCorrect(l, s);
      CompileCorrect(r, s);
      AndDecides(Compile(l), Compile(r), s, RunSsfilter(Emitted(l), s), RunSsfilter(Emitted(r), s));
    case OrF(l, r) =>
      CompileCorrect(l, s);
      CompileCorrect(r, s);
      OrDecides(Compile(l), Compile(r), s, RunSsfilter(Emitted(l), s), RunSsfilter(Emitted(r), s));
    case NotF(l) =>
      CompileCorrect(l, s);
      NotDecides(Compile(l), s, RunSsfilter(Emitted(l), s));
    case _ =>
      LeafCorrect(f, s);
  }

  lemma LeafCorrect(f: Filter, s: Socket)
    requires WellFormed(f) && Fits(f) && !f.AndF? && !f.OrF? && !f.NotF?
    ensures WellFormed(Emitted(f))
    ensures Decides(Compile(f), s, RunSsfilter(Emitted(f), s))
  {
    match f
    case Auto =>
      assert Compile(f)[1..] == [];
    case DCond(hosts) =>
      ChainRuns(BcDCond, hosts[0], |hosts|, s);
      SingleHost(hosts[0], s.remote, s.rport);
      assert hosts[..1] == [hosts[0]];
    case SCond(hosts) =>
      ChainRuns(BcSCond, hosts[0], |hosts|, s);
      SingleHost(hosts[0], s.local, s.lport);
      assert hosts[..1] == [hosts[0]];
    case DGe(port) => PortRuns(BcDGe, port, s);
    case DLe(port) => PortRuns(BcDLe, port, s);
    case SGe(port) => PortRuns(BcSGe, port, s);
    case SLe(port) => PortRuns(BcSLe, port, s);
  }

  // ----- when the bytecode agrees with the direct evaluator

  /** Every address that `r` matches is matched by `h` too. */
  predicate Covers(h: Prefix, r: Prefix)
    requires 0 <= h.bitlen <= 128 && 0 <= r.bitlen <= 128
  {
    && h.bitlen <= r.bitlen && h.data[..h.bitlen] == r.data[..h.bitlen]
    && (r.family == AF_INET && h.family != AF_INET ==> IsZero(h.data[..h.bitlen]))
  }

  /**
   An address `::ffff:w` matches an IPv4 prefix exactly when `w` agrees with it on the leading bits, or
   the address itself does.
   */
  lemma MappedMatches(p: Prefix, w: Word, tail: seq<bool>)
    requires p.family == 2 && 0 <= p.bitlen <= 32 && |tail| == 128
    ensures var d: AddrData := Zeros(80) + Ones(16) + w + tail;
            Inet2Match(SockAddr(10, d), p) <==> w[..p.bitlen] == p.data[..p.bitlen] || d[..p.bitlen] == p.data[..p.bitlen]
  {
    var d: AddrData := Zeros(80) + Ones(16) + w + tail;
    var low: AddrData := WordAt(d, 3) + d[32..];
    assert d[..80] == Zeros(80) && d[80..96] == Ones(16) && WordAt(d, 3) == w;
    assert low[..p.bitlen] == w[..p.bitlen];
    MatchIsEqualPrefix(d, p.data, p.bitlen);
    MatchIsEqualPrefix(low, p.data, p.bitlen);
  }

  /** Any other address, and any other prefix, is compared bit by bit as it stands. */
  lemma OthersMatch(a: SockAddr, p: Prefix)
    requires 0 <= p.bitlen <= 128
    requires p.family != 2 || a.family != 10 || a.data[..96] != Zeros(80) + Ones(16)
    ensures Inet2Match(a, p) <==> a.data[..p.bitlen] == p.data[..p.bitlen]
  {
    MatchIsEqualPrefix(a.data, p.data, p.bitlen);
    if Ipv4Mapped(a.data) {
      var d := a.data[..96];
      assert d[..80] == a.data[..80] && d[80..] == a.data[80..96];
      assert d == d[..80] + d[80..] && d[..80] == Zeros(80);
    }
  }

  lemma PrefixChain(a: AddrData, q: AddrData, p: AddrData, m: nat, n: nat)
    requires n <= m <= 256 && a[..m] == q[..m] && p[..n] == q[..n]
    ensures a[..n] == p[..n]
  {
    assert a[..n] == a[..m][..n] && q[..n] == q[..m][..n];
  }

  lemma CoversSound(h: HostFilter, r: HostFilter, a: SockAddr)
    requires HostOk(h) && HostOk(r) && Covers(h.addr, r.addr) && Inet2Match(a, r.addr)
    ensures Inet2Match(a, h.addr)
  {
    var p, q := h.addr, r.addr;
    MatchIsEqualPrefix(a.data, q.data, q.bitlen);
    MatchIsEqualPrefix(a.data, p.data, p.bitlen);
    if InetAddrMatch(a.data, q.data, q.bitlen) == 0 {
      PrefixChain(a.data, q.data, p.data, q.bitlen, p.bitlen);
    } else if p.family == AF_INET {
      var low: AddrData := WordAt(a.data, 3) + a.data[32..];
      MatchIsEqualPrefix(low, q.data, q.bitlen);
      MatchIsEqualPrefix(low, p.data, p.bitlen);
      PrefixChain(low, q.data, p.data, q.bitlen, p.bitlen);
    } else {
      MappedZeros(a.data, p.data, p.bitlen);
    }
  }

  lemma MappedZeros(a: AddrData, p: AddrData, n: nat)
    requires n <= 80 && Ipv4Mapped(a) && IsZero(p[..n])
    ensures a[..n] == p[..n]
  {
    forall i | 0 <= i < n ensures a[i] == p[i] {
      assert !a[..80][i] && !p[..n][i];
    }
  }

  /** Without cover, some address matches `r` and not `h`. */
  lemma CoversComplete(h: HostFilter, r: HostFilter) returns (a: SockAddr)
    requires HostOk(h) && HostOk(r) && !Covers(h.addr, r.addr)
    ensures Inet2Match(a, r.addr) && !Inet2Match(a, h.addr)
  {
    var p, q := h.addr, r.addr;
    if p.bitlen <= q.bitlen && p.data[..p.bitlen] == q.data[..p.bitlen] {
      var d: AddrData := Zeros(80) + Ones(16) + WordAt(q.data, 0) + Zeros(128);
      a := SockAddr(AF_INET6, d);
      assert d[..80] == Zeros(80) && d[80..96] == Ones(16);
      var low: AddrData := WordAt(d, 3) + d[32..];
      MatchIsEqualPrefix(low, q.data, q.bitlen);
      assert WordAt(d, 3) == WordAt(q.data, 0);
      assert low[..q.bitlen] == q.data[..q.bitlen];
      MatchIsEqualPrefix(d, p.data, p.bitlen);
      assert d[..p.bitlen] == Zeros(p.bitlen);
    } else {
      var d := if q.bitlen < p.bitlen then q.data[q.bitlen := !p.data[q.bitlen]] else q.data;
      a := SockAddr(0, d);
      MatchIsEqualPrefix(d, q.data, q.bitlen);
      MatchIsEqualPrefix(d, p.data, p.bitlen);
      assert d[..q.bitlen] == q.data[..q.bitlen];
      if q.bitlen < p.bitlen {
        assert d[..p.bitlen][q.bitlen] != p.data[..p.bitlen][q.bitlen];
      }
    }
  }

  /** A list counts in full when its head already covers it, or when the list is never consulted. */
  predicate ListExact(hosts: seq<HostFilter>)
    requires HostsOk(hosts)
  {
    || hosts[0].addr.bitlen == 0
    || !(-1 <= hosts[0].port < 0x1_0000)
    || forall i | 0 <= i < |hosts| :: Covers(hosts[0].addr, hosts[i].addr)
  }

  lemma ListExactSound(hosts: seq<HostFilter>, a: SockAddr, port: Port)
    requires HostsOk(hosts) && ListExact(hosts)
    ensures HostTest(a, port, hosts) == HeadHolds(hosts[0], a, port)
  {
    if i :| 0 <= i < |hosts| && Inet2Match(a, hosts[i].addr) {
      if Covers(hosts[0].addr, hosts[i].addr) {
        CoversSound(hosts[0], hosts[i], a);
      }
    }
    assert HostOk(hosts[0]);
  }

  lemma ListExactComplete(hosts: seq<HostFilter>) returns (a: SockAddr, port: Port)
    requires HostsOk(hosts) && !ListExact(hosts)
    ensures HostTest(a, port, hosts) && !HeadHolds(hosts[0], a, port)
  {
    var i :| 0 <= i < |hosts| && !Covers(hosts[0].addr, hosts[i].addr);
    a := CoversComplete(hosts[0], hosts[i]);
    port := if hosts[0].port == -1 then 0 else hosts[0].port;
    assert HostOk(hosts[i]);
  }

  /** Comparing with the low 16 bits of a bound agrees with comparing with the bound. */
  predicate PortExact(port: int, ge: bool) {
    || 0 <= port < 0x1_0000
    || (port % 0x1_0000 == (if ge then 0 else 0xFFFF) && (if ge then port < 0 else port >= 0))
  }

  predicate LeafExact(f: Filter)
    requires WellFormed(f)
  {
    match f
    case DCond(hosts) => ListExact(hosts)
    case SCond(hosts) => ListExact(hosts)
    case DGe(port) => PortExact(port, true)
    case SGe(port) => PortExact(port, true)
    case DLe(port) => PortExact(port, false)
    case SLe(port) => PortExact(port, false)
    case _ => true
  }

  predicate LeavesExact(f: Filter)
    requires WellFormed(f)
  {
    match f
    case AndF(l, r) => LeavesExact(l) && LeavesExact(r)
    case OrF(l, r) => LeavesExact(l) && LeavesExact(r)
    case NotF(l) => LeavesExact(l)
    case _ => LeafExact(f)
  }

  lemma LeafSound(f: Filter, s: Socket)
    requires WellFormed(f) && LeafExact(f) && !f.AndF? && !f.OrF? && !f.NotF?
    ensures WellFormed(Emitted(f)) && RunSsfilter(Emitted(f), s) == RunSsfilter(f, s)
  {
    match f
    case DCond(hosts) =>
      ListExactSound(hosts, s.remote, s.rport);
      SingleHost(hosts[0], s.remote, s.rport);
      assert hosts[..1] == [hosts[0]];
    case SCond(hosts) =>
      ListExactSound(hosts, s.local, s.lport);
      SingleHost(hosts[0], s.local, s.lport);
      assert hosts[..1] == [hosts[0]];
    case _ =>
  }

  /** For a leaf the condition is exact: outside it the two evaluators differ on some socket. */
  lemma LeafExactIff(f: Filter)
    requires WellFormed(f) && Fits(f) && !f.AndF? && !f.OrF? && !f.NotF?
    ensures (forall s :: Accepts(Compile(f), s) == RunSsfilter(f, s)) <==> LeafExact(f)
  {
    if LeafExact(f) {
      forall s ensures Accepts(Compile(f), s) == RunSsfilter(f, s) {
        CompileCorrect(f, s);
        LeafSound(f, s);
      }
    } else {
      var s := LeafWitness(f);
      CompileCorrect(f, s);
    }
  }

  lemma LeafWitness(f: Filter) returns (s: Socket)
    requires WellFormed(f) && !LeafExact(f) && !f.AndF? && !f.OrF? && !f.NotF?
    ensures WellFormed(Emitted(f)) && RunSsfilter(Emitted(f), s) != RunSsfilter(f, s)
  {
    var z := SockAddr(0, Zeros(256));
    match f
    case DCond(hosts) =>
      var a, port := ListExactComplete(hosts);
      s := Socket(z, 0, a, port, false);
      SingleHost(hosts[0], a, port);
      assert hosts[..1] == [hosts[0]];
    case SCond(hosts) =>
      var a, port := ListExactComplete(hosts);
      s := Socket(a, port, z, 0, false);
      SingleHost(hosts[0], a, port);
      assert hosts[..1] == [hosts[0]];
    case DGe(port) =>
      var x: Port := if port < 0 then 0 else 0xFFFF;
      s := Socket(z, x, z, x, false);
    case SGe(port) =>
      var x: Port := if port < 0 then 0 else 0xFFFF;
      s := Socket(z, x, z, x, false);
    case DLe(port) =>
      var x: Port := if port < 0 then 0 else 0xFFFF;
      s := Socket(z, x, z, x, false);
    case SLe(port) =>
      var x: Port := if port < 0 then 0 else 0xFFFF;
      s := Socket(z, x, z, x, false);
  }

  lemma {:induction false} EmittedAgrees(f: Filter, s: Socket)
    requires WellFormed(f) && LeavesExact(f)
    ensures WellFormed(Emitted(f)) && RunSsfilter(Emitted(f), s) == RunSsfilter(f, s)
  {
    match f
    case AndF(l, r) => EmittedAgrees(l, s); EmittedAgrees(r, s);
    case OrF(l, r) => EmittedAgrees(l, s); EmittedAgrees(r, s);
    case NotF(l) => EmittedAgrees(l, s);
    case _ => LeafSound(f, s);
  }

  /** The compiled bytecode decides every socket as the direct evaluator does. */
  lemma BytecodeAgrees(f: Filter, s: Socket)
    requires WellFormed(f) && Fits(f) && LeavesExact(f)
    ensures Accepts(Compile(f), s) == RunSsfilter(f, s)
    ensures Exec(Compile(f), s) == Past(if RunSsfilter(f, s) then 0 else 1)
  {
    CompileCorrect(f, s);
    EmittedAgrees(f, s);
  }

  /** A list of one address, with its port in range, always counts in full. */
  lemma OneAddressIsExact(h: HostFilter)
    requires HostOk(h)
    ensures ListExact([h])
  {
    var hosts := [h];
    assert h.addr.family == AF_INET ==> Covers(h.addr, hosts[0].addr);
  }

  // ----- the imperative compiler

  function Relocated(op: Cell, left: nat, reloc: nat): Cell
    requires op.Op?
  {
    if op.no == left + 1 then op.(no := No16(op.no + reloc)) else op
  }

  /** From one boundary the next is one op on, with none between. */
  lemma {:induction false} NextBoundary(c: seq<Cell>, pos: nat, i: nat)
    requires Jumps(c) && Boundary(c, pos) && pos < |c|
    requires StepOk(c[pos..]) && pos < i <= pos + c[pos].yes
    ensures Boundary(c, i) <==> i == pos + c[pos].yes
  {
    var y := c[0].yes;
    if pos == 0 {
      assert c[0..] == c;
    } else {
      assert c[y..][pos - y..] == c[pos..];
      NextBoundary(c[y..], pos - y, i - y);
    }
  }

  /** At a boundary, relocation treats the op there and leaves its operands alone. */
  lemma PatchAt(c: seq<Cell>, reloc: nat, pos: nat)
    requires Jumps(c) && Boundary(c, pos) && pos < |c|
    ensures c[pos].Op? && c[pos].yes >= 1
    ensures var next := pos + c[pos].yes;
            && next <= |c| && Boundary(c, next)
            && Patch(c, reloc)[pos] == Relocated(c[pos], |c| - pos, reloc)
            && forall i | pos < i < next :: Patch(c, reloc)[i] == c[i]
  {
    JumpsFrom(c, pos);
    assert StepOk(c[pos..]);
    var next := pos + c[pos].yes;
    PatchExact(c, reloc, pos);
    NextBoundary(c, pos, next);
    forall i | pos < i < next ensures Patch(c, reloc)[i] == c[i] {
      NextBoundary(c, pos, i);
      PatchExact(c, reloc, i);
    }
  }

  /** Walks the first `len` bytes by `yes` and relocates in place. */
  method SsfilterPatch(a: array<Cell>, len: nat, reloc: nat)
    requires len <= a.Length
    requires Jumps(a[..len])
    modifies a
    ensures a[..] == Patch(old(a[..len]), reloc) + old(a[len..])
  {
    ghost var c := a[..len];
    var left, pos := len, 0;
    while left > 0
      invariant 0 <= left <= len && pos == len - left
      invariant Boundary(c, pos)
      invariant forall i | pos <= i < a.Length :: a[i] == old(a[i])
      invariant forall i | 0 <= i < pos :: a[i] == Patch(c, reloc)[i]
      decreases left
    {
      PatchAt(c, reloc, pos);
      var op := a[pos];
      assert op == c[pos];
      if op.no == left + 1 {
        a[pos] := op.(no := No16(op.no + reloc));
      }
      left := left - op.yes;
      pos := pos + op.yes;
    }
  }

  /** Writes one op with its host condition and the `alen` words of the head's address. */
  method EmitBlock(a: array<Cell>, ptr: nat, code: Code, h: HostFilter)
    requires HostOk(h) && ptr + BlockCells(h) <= a.Length
    modifies a
    ensures a[..] == old(a[..ptr]) + Block(code, h) + old(a[ptr + BlockCells(h)..])
  {
    var alen := if h.addr.family == AF_INET6 then 4 else 1;
    var oplen := alen + 1 + 2;
    a[ptr] := Op(code, oplen, oplen + 1);
    a[ptr + 1] := CondHead(h.addr.family, h.addr.bitlen);
    a[ptr + 2] := CondPort(h.port);
    a[ptr + 3] := AddrWord(WordAt(h.addr.data, 0));
    if alen == 4 {
      a[ptr + 4] := AddrWord(WordAt(h.addr.data, 1));
      a[ptr + 5] := AddrWord(WordAt(h.addr.data, 2));
      a[ptr + 6] := AddrWord(WordAt(h.addr.data, 3));
    }
  }

  method ChainLength(hosts: seq<HostFilter>) returns (len: nat)
    requires HostsOk(hosts)
    ensures len == ChainCells(hosts[0], |hosts|)
  {
    len := 0;
    for b := 0 to |hosts|
      invariant len == if b == 0 then 0 else ChainCells(hosts[0], b) + (if b < |hosts| then 1 else 0)
    {
      len := len + 1 + 2;
      len := len + if hosts[0].addr.family == AF_INET6 then 4 else 1;
      if b + 1 < |hosts| {
        len := len + 1;
      }
    }
  }

  /** One turn of the loop: the block of an element, then the jump if the list goes on. */
  method EmitElement(a: array<Cell>, ptr: nat, code: Code, h: HostFilter, more: bool, ghost n: nat, ghost whole: seq<Cell>)
    returns (next: nat)
    requires HostOk(h) && n > 0 && more == (n > 1)
    requires a.Length == |whole| && ptr <= |whole|
    requires a[..ptr] == whole[..ptr] && whole[ptr..] == Chain(code, h, n)
    modifies a
    ensures ptr <= next <= |whole| && a[..next] == whole[..next]
    ensures if more then whole[next..] == Chain(code, h, n - 1) else next == |whole|
  {
    ChainUnfold(code, h, n, whole, ptr);
    EmitBlock(a, ptr, code, h);
    next := ptr + BlockCells(h);
    assert a[..next] == whole[..next];
    if more {
      a[next] := Op(BcJmp, 1, No16(a.Length - next));
      next := next + 1;
      assert a[..next] == whole[..next - 1] + [whole[next - 1]];
    }
  }

  /** The host-list branch: one block per list element, jumps between neighbours. */
  method CompileHosts(code: Code, hosts: seq<HostFilter>) returns (a: array<Cell>)
    requires HostsOk(hosts)
    ensures fresh(a) && a[..] == Chain(code, hosts[0], |hosts|)
  {
    var h := hosts[0];
    ghost var whole := Chain(code, h, |hosts|);
    assert HostOk(h);
    var len := ChainLength(hosts);
    a := new Cell[len](_ => Op(BcNop, 0, 0));
    var ptr, b := 0, 0;
    assert whole[0..] == whole;
    ghost var n := |hosts|;
    while b < |hosts|
      invariant 0 <= b <= |hosts| && n == |hosts| - b && 0 <= ptr <= a.Length == |whole|
      invariant a[..ptr] == whole[..ptr]
      invariant if n > 0 then whole[ptr..] == Chain(code, h, n) else ptr == |whole|
    {
      ptr := EmitElement(a, ptr, code, h, b + 1 < |hosts|, n, whole);
      b, n := b + 1, n - 1;
    }
    assert a[..] == a[..ptr];
  }

  lemma ChainHead(code: Code, h: HostFilter, n: nat)
    requires n > 0 && 0 <= h.addr.bitlen
    ensures var c, blk := Chain(code, h, n), Block(code, h);
            && c[..|blk|] == blk
            && (n > 1 ==> |c| > |blk| && c[|blk|] == Op(BcJmp, 1, No16(|c| - |blk|))
                          && c[|blk| + 1..] == Chain(code, h, n - 1))
  {
    if n > 1 {
      var blk, rest := Block(code, h), Chain(code, h, n - 1);
      BlockJumpRest(blk, Op(BcJmp, 1, No16(1 + |rest|)), rest, Chain(code, h, n));
    }
  }

  lemma BlockJumpRest(blk: seq<Cell>, jmp: Cell, rest: seq<Cell>, c: seq<Cell>)
    requires c == blk + ([jmp] + rest)
    ensures c[..|blk|] == blk && |c| == |blk| + 1 + |rest| && c[|blk|] == jmp && c[|blk| + 1..] == rest
  {
  }

  /** A chain of `n` at `ptr` starts with a block, then a jump to the end, then a chain of `n - 1`. */
  lemma ChainUnfold(code: Code, h: HostFilter, n: nat, whole: seq<Cell>, ptr: nat)
    requires n > 0 && 0 <= h.addr.bitlen && ptr <= |whole|
    requires whole[ptr..] == Chain(code, h, n)
    ensures var q := ptr + |Block(code, h)|;
            && q <= |whole|
            && whole[..q] == whole[..ptr] + Block(code, h)
            && (n == 1 ==> q == |whole|)
            && (n > 1 ==> q < |whole| && whole[q] == Op(BcJmp, 1, No16(|whole| - q))
                          && whole[q + 1..] == Chain(code, h, n - 1))
  {
    var blk := Block(code, h);
    ChainHead(code, h, n);
    Splice(whole, ptr, Chain(code, h, n), blk);
    assert n == 1 ==> |Chain(code, h, n)| == |blk|;
  }

  lemma Splice(whole: seq<Cell>, ptr: nat, c: seq<Cell>, blk: seq<Cell>)
    requires ptr <= |whole| && whole[ptr..] == c && |blk| <= |c| && c[..|blk|] == blk
    ensures whole[..ptr + |blk|] == whole[..ptr] + blk
    ensures |blk| < |c| ==> whole[ptr + |blk|] == c[|blk|] && whole[ptr + |blk| + 1..] == c[|blk| + 1..]
  {
  }

  /** Copies `src` to position `at` of `dst`. */
  method CopyCells(dst: array<Cell>, at: nat, src: array<Cell>)
    requires at + src.Length <= dst.Length && dst != src
    modifies dst
    ensures dst[..] == old(dst[..at]) + src[..] + old(dst[at + src.Length..])
  {
    forall i | 0 <= i < src.Length {
      dst[at + i] := src[i];
    }
  }

  /** The length of a part, kept in a `char` that counts bytes. */
  function CharCells(n: nat): (r: int)
    ensures 4 * n <= 127 ==> r == n
  {
    ToChar(4 * n) / 4
  }

  method CompileAnd(a1: array<Cell>, a2: array<Cell>) returns (a: array<Cell>)
    requires 4 * a1.Length <= 127 && 4 * a2.Length <= 127 && Jumps(a1[..])
    ensures fresh(a) && a[..] == Patch(a1[..], a2.Length) + a2[..]
  {
    var l1, l2 := CharCells(a1.Length), CharCells(a2.Length);
    a := new Cell[l1 + l2](_ => Op(BcNop, 0, 0));
    CopyCells(a, 0, a1);
    CopyCells(a, l1, a2);
    assert a[..l1] == a1[..] && a[l1..] == a2[..];
    SsfilterPatch(a, l1, l2);
  }

  method CompileOr(a1: array<Cell>, a2: array<Cell>) returns (a: array<Cell>)
    requires 4 * a1.Length <= 127 && 4 * a2.Length <= 127
    ensures fresh(a) && a[..] == a1[..] + ([Op(BcJmp, 1, a2.Length + 1)] + a2[..])
  {
    var l1, l2 := CharCells(a1.Length), CharCells(a2.Length);
    a := new Cell[l1 + l2 + 1](_ => Op(BcNop, 0, 0));
    CopyCells(a, 0, a1);
    CopyCells(a, l1 + 1, a2);
    a[l1] := Op(BcJmp, 1, No16(l2 + 1));
  }

  method CompileNot(a1: array<Cell>) returns (a: array<Cell>)
    requires 4 * a1.Length <= 127
    ensures fresh(a) && a[..] == a1[..] + [Op(BcJmp, 1, 2)]
  {
    var l1 := CharCells(a1.Length);
    a := new Cell[l1 + 1](_ => Op(BcNop, 0, 0));
    CopyCells(a, 0, a1);
    a[l1] := Op(BcJmp, 1, 2);
  }

  method CompilePort(code: Code, port: int) returns (a: array<Cell>)
    ensures fresh(a) && a[..] == PortCode(code, port)
  {
    a := new Cell[2][Op(code, 2, 3), PortWord(U16(port))];
  }

  /** Compiles the tree bottom up into fresh buffers. */
  method SsfilterBytecompile(f: Filter) returns (a: array<Cell>)
    requires WellFormed(f) && Fits(f)
    ensures fresh(a) && a[..] == Compile(f)
    decreases f
  {
    match f
    case Auto => a := new Cell[1][Op(BcAuto, 1, 2)];
    case DCond(hosts) => a := CompileHosts(BcDCond, hosts);
    case SCond(hosts) => a := CompileHosts(BcSCond, hosts);
    case DGe(port) => a := CompilePort(BcDGe, port);
    case DLe(port) => a := CompilePort(BcDLe, port);
    case SGe(port) => a := CompilePort(BcSGe, port);
    case SLe(port) => a := CompilePort(BcSLe, port);
    case AndF(l, r) =>
      var a1 := SsfilterBytecompile(l);
      var a2 := SsfilterBytecompile(r);
      Shape(l);
      a := CompileAnd(a1, a2);
    case OrF(l, r) =>
      var a1 := SsfilterBytecompile(l);
      var a2 := SsfilterBytecompile(r);
      a := CompileOr(a1, a2);
    case NotF(l) =>
      var a1 := SsfilterBytecompile(l);
      a := CompileNot(a1);
  }

  /** All compiled code is well shaped. */
  lemma Shape(f: Filter)
    requires WellFormed(f) && Fits(f)
    ensures Jumps(Compile(f)) && Boundary(Compile(f), |Compile(f)|)
  {
    CompileCorrect(f, Socket(SockAddr(0, Zeros(256)), 0, SockAddr(0, Zeros(256)), 0, false));
    WalkEnds(Compile(f));
  }
}
