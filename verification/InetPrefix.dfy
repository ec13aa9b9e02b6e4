/**
 Address prefixes: `inet_addr_match` and `mask2bits` of lib/utils.c, and the
 route selectors `root`, `match` and `exact` of ip/iproute.c.
 */
module InetPrefix {
  import opened Bits

  /** `inet_prefix.data`: eight words of memory. */
  type AddrData = d: seq<bool> | |d| == 256 witness Zeros(256)

  /** `inet_prefix`; family 0 (AF_UNSPEC) means that no prefix was given. */
  datatype Prefix = Prefix(family: nat, bitlen: int, data: AddrData)

  function WordAt(d: AddrData, i: nat): Word
    requires i < 8
  {
    d[32 * i..32 * i + 32]
  }

  /** Zero means that the two addresses match. */
  function InetAddrMatch(a: AddrData, b: AddrData, bits: nat): int
    requires bits <= 256
  {
    var words, rest := bits / 32, bits % 32;
    if words != 0 && a[..32 * words] != b[..32 * words] then -1
    else if rest != 0 && !IsZero(And(Xor(WordAt(a, words), WordAt(b, words)), PrefixMask(rest))) then 1
    else 0
  }

  lemma MatchIsEqualPrefix(a: AddrData, b: AddrData, bits: nat)
    requires bits <= 256
    ensures InetAddrMatch(a, b, bits) == 0 <==> a[..bits] == b[..bits]
  {
    var words, rest := bits / 32, bits % 32;
    var n := 32 * words;
    assert bits == n + rest;
    if a[..n] == b[..n] {
      assert forall i | 0 <= i < n :: a[i] == a[..n][i] == b[..n][i] == b[i];
      if rest != 0 {
        var masked := And(Xor(WordAt(a, words), WordAt(b, words)), PrefixMask(rest));
        assert forall i | 0 <= i < 32 :: masked[i] == (i < rest && a[n + i] != b[n + i]);
        if IsZero(masked) {
          forall i | 0 <= i < bits ensures a[i] == b[i] {
            if i >= n {
              assert !masked[i - n];
            }
          }
        } else {
          var i :| 0 <= i < 32 && masked[i];
          assert a[..bits][n + i] != b[..bits][n + i];
        }
      }
    } else {
      assert a[..n] == a[..bits][..n] && b[..n] == b[..bits][..n];
    }
  }

  // ----- mask2bits

  /** A netmask is `n` ones followed by zeros. */
  predicate IsPrefixMask(mask: Word, n: nat) {
    n <= 32 && mask == PrefixMask(n)
  }

  /** `host & (host + 1)` vanishes exactly when `host` is a run of ones at the bottom. */
  lemma {:induction false} LowRun(host: seq<bool>)
    ensures IsZero(And(host, Increment(host)))
       <==> exists k :: 0 <= k <= |host| && IsLowRun(host, k)
  {
    var n := |host|;
    if n == 0 {
      assert IsLowRun(host, 0);
    } else {
      var hi := host[..n - 1];
      var both := And(host, Increment(host));
      assert hi + [host[n - 1]] == host;
      if host[n - 1] {
        LowRun(hi);
        assert forall i | 0 <= i < n - 1 :: both[i] == And(hi, Increment(hi))[i];
        if IsZero(both) {
          var k :| 0 <= k <= n - 1 && IsLowRun(hi, k);
          assert IsLowRun(host, k + 1);
        }
        if k :| 0 <= k <= n && IsLowRun(host, k) {
          assert k > 0;
          assert IsLowRun(hi, k - 1);
        }
      } else {
        assert forall i | 0 <= i < n - 1 :: both[i] == host[i];
        if IsZero(both) {
          assert forall i | 0 <= i < n - 1 :: !both[i];
          assert IsLowRun(host, 0);
        }
        if k :| 0 <= k <= n && IsLowRun(host, k) {
          assert k == 0;
        }
      }
    }
  }

  predicate IsLowRun(x: seq<bool>, k: nat) {
    forall i | 0 <= i < |x| :: x[i] == (i >= |x| - k)
  }

  lemma NetmaskIff(mask: Word, n: nat)
    requires n <= 32
    ensures IsPrefixMask(mask, n) <==> IsLowRun(Not(mask), 32 - n)
  {
    if IsLowRun(Not(mask), 32 - n) {
      assert forall i | 0 <= i < 32 :: Not(mask)[i] == (i >= n);
      assert mask == PrefixMask(n);
    }
  }

  lemma NetmaskTest(mask: Word)
    ensures IsZero(And(Not(mask), Increment(Not(mask)))) <==> exists n: nat :: IsPrefixMask(mask, n)
  {
    LowRun(Not(mask));
    if k :| 0 <= k <= 32 && IsLowRun(Not(mask), k) {
      NetmaskIff(mask, 32 - k);
    }
    if n: nat :| IsPrefixMask(mask, n) {
      NetmaskIff(mask, n);
    }
  }

  lemma MaskDrop(n: nat)
    requires n <= 32
    ensures IsZero(PrefixMask(n)) <==> n == 0
    ensures n > 0 ==> Shl(PrefixMask(n), 1) == PrefixMask(n - 1)
  {
    if n > 0 {
      assert PrefixMask(n)[0];
    }
  }

  /** Prefix length of a netmask, or -1 when it is not a netmask; `netmask` in memory order. */
  method Mask2Bits(netmask: Word) returns (bits: int)
    ensures -1 <= bits <= 32
    ensures bits == -1 <==> forall n: nat :: !IsPrefixMask(netmask, n)
    ensures bits >= 0 ==> IsPrefixMask(netmask, bits)
  {
    var mask := netmask;
    var host := Not(mask);
    NetmaskTest(mask);
    if !IsZero(And(host, Increment(host))) {
      return -1;
    }
    ghost var n: nat :| IsPrefixMask(netmask, n);
    bits := 0;
    while !IsZero(mask)
      invariant 0 <= bits <= n <= 32
      invariant mask == PrefixMask(n - bits)
      decreases n - bits
    {
      MaskDrop(n - bits);
      mask := Shl(mask, 1);
      bits := bits + 1;
    }
    MaskDrop(n - bits);
  }

  // ----- route selectors

  /** The addresses, as bit lists of length `host`, that lie in a prefix. */
  ghost function Members(data: AddrData, len: nat, host: nat): iset<seq<bool>>
    requires len <= host <= 256
  {
    iset x: seq<bool> | |x| == host && x[..len] == data[..len]
  }

  /** What a route message says about its destination; `bytes` is the attribute, if present. */
  datatype Route = Route(family: nat, len: nat, bytes: seq<bool>, present: bool)

  ghost predicate RouteOk(r: Route, host: nat) {
    && r.len <= host <= 128 && host % 8 == 0
    && (r.present ==> 8 * ((r.len + 7) / 8) <= |r.bytes|)
  }

  /** The zeroed `inet_prefix` into which the leading whole bytes of the attribute are copied. */
  function CopyAddr(r: Route): (d: AddrData)
    requires r.len <= 128
    requires r.present ==> 8 * ((r.len + 7) / 8) <= |r.bytes|
  {
    var n := 8 * ((r.len + 7) / 8);
    if r.present then r.bytes[..n] + Zeros(256 - n) else Zeros(256)
  }

  /** The address the route names: the attribute's bits, or zeros without one. */
  function RouteData(r: Route): AddrData {
    var n := if |r.bytes| < 256 then |r.bytes| else 256;
    if r.present then r.bytes[..n] + Zeros(256 - n) else Zeros(256)
  }

  /** One `root`/`match` pair of `filter_nlmsg`, with the same order of tests. */
  predicate SelectorAccepts(root: Prefix, mtch: Prefix, r: Route)
    requires 0 <= root.bitlen <= 256
    requires r.len <= 128
    requires r.present ==> 8 * ((r.len + 7) / 8) <= |r.bytes|
  {
    if root.family != 0 && (r.family != root.family || root.bitlen > r.len) then false
    else if mtch.family != 0 && (r.family != mtch.family || (mtch.bitlen >= 0 && mtch.bitlen < r.len)) then false
    else
      var dst := CopyAddr(r);
      if root.family != 0 && InetAddrMatch(dst, root.data, root.bitlen) != 0 then false
      else if mtch.family != 0 && mtch.bitlen >= 0 && InetAddrMatch(dst, mtch.data, r.len) != 0 then false
      else true
  }

  /** A shorter prefix holds an address that differs from `b` in the first bit it leaves open. */
  lemma OutsideMember(a: AddrData, alen: nat, b: AddrData, blen: nat, host: nat) returns (x: seq<bool>)
    requires alen < blen <= host <= 256
    ensures x in Members(a, alen, host) && x !in Members(b, blen, host)
  {
    x := a[..host][alen := !b[alen]];
    assert x[..alen] == a[..alen];
    assert x[..blen][alen] != b[..blen][alen];
  }

  /** One prefix's addresses lie inside another's exactly when it is longer and agrees with it. */
  lemma ContainedIff(a: AddrData, alen: nat, b: AddrData, blen: nat, host: nat)
    requires alen <= host <= 256 && blen <= host
    ensures Members(a, alen, host) <= Members(b, blen, host) <==> blen <= alen && a[..blen] == b[..blen]
  {
    if alen < blen {
      var x := OutsideMember(a, alen, b, blen, host);
    } else {
      var x := a[..host];
      assert x[..alen] == a[..alen] && x[..blen] == a[..blen];
      if a[..blen] == b[..blen] {
        forall y | y in Members(a, alen, host) ensures y in Members(b, blen, host) {
          assert y[..blen] == y[..alen][..blen] == a[..alen][..blen] == a[..blen];
        }
      } else {
        assert x in Members(a, alen, host) && x !in Members(b, blen, host);
      }
    }
  }

  lemma CopyKeepsPrefix(r: Route, n: nat)
    requires r.len <= 128 && n <= r.len
    requires r.present ==> 8 * ((r.len + 7) / 8) <= |r.bytes|
    ensures CopyAddr(r)[..n] == RouteData(r)[..n]
  {
  }

  ghost function RouteSet(r: Route, host: nat): iset<seq<bool>>
    requires RouteOk(r, host)
  {
    Members(RouteData(r), r.len, host)
  }

  ghost function PrefixSet(p: Prefix, host: nat): iset<seq<bool>>
    requires 0 <= p.bitlen <= host <= 256
  {
    Members(p.data, p.bitlen, host)
  }

  /**
   A selector pair accepts a route exactly when the route's set lies inside the root prefix,
   if one was given, and contains the match prefix, if one was given.
   */
  lemma SelectorIsContainment(root: Prefix, mtch: Prefix, r: Route, host: nat)
    requires RouteOk(r, host)
    requires 0 <= root.bitlen <= host && 0 <= mtch.bitlen <= host
    ensures SelectorAccepts(root, mtch, r)
       <==> && (root.family != 0 ==> r.family == root.family && RouteSet(r, host) <= PrefixSet(root, host))
            && (mtch.family != 0 ==> r.family == mtch.family && PrefixSet(mtch, host) <= RouteSet(r, host))
  {
    var dst, addr := CopyAddr(r), RouteData(r);
    ContainedIff(addr, r.len, root.data, root.bitlen, host);
    ContainedIff(mtch.data, mtch.bitlen, addr, r.len, host);
    CopyKeepsPrefix(r, r.len);
    if root.bitlen <= r.len {
      CopyKeepsPrefix(r, root.bitlen);
    }
    MatchIsEqualPrefix(dst, root.data, root.bitlen);
    MatchIsEqualPrefix(dst, mtch.data, r.len);
  }

  /** `exact P` sets both prefixes to P and accepts exactly the routes for the very same prefix. */
  lemma ExactIsEquality(p: Prefix, r: Route, host: nat)
    requires RouteOk(r, host) && p.family != 0 && 0 <= p.bitlen <= host
    ensures SelectorAccepts(p, p, r)
       <==> r.family == p.family && r.len == p.bitlen && RouteData(r)[..r.len] == p.data[..p.bitlen]
    ensures SelectorAccepts(p, p, r) <==> r.family == p.family && RouteSet(r, host) == PrefixSet(p, host)
  {
    SelectorIsContainment(p, p, r, host);
    ContainedIff(RouteData(r), r.len, p.data, p.bitlen, host);
    ContainedIff(p.data, p.bitlen, RouteData(r), r.len, host);
  }
}
