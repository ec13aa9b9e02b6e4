/**
 The table of links in lib/ll_map.c: a hash table of interface indexes with chained nodes, filled
 from link messages and searched by index.
 */
module LlMap {
  import opened Basics

  const IDXMAP_SIZE := 1024
  const ADDR_SIZE := 20
  const MIN_LEN := 24  // NLMSG_LENGTH of a pointer, which is what the source measures

  /** What a link message says, its attributes parsed.  An index stands for its 32 bits. */
  datatype LinkMsg = LinkMsg(newLink: bool, len: nat, index: nat, kind: nat, flags: nat,
                             address: Option<seq<Byte>>, name: Option<string>)

  /** What the table knows of a link. */
  datatype Link = Link(kind: nat, flags: nat, address: seq<Byte>, name: string)

  /** The messages that are taken up. */
  predicate Usable(m: LinkMsg) {
    m.newLink && m.len >= MIN_LEN && m.name.Some?
  }

  function LinkOf(m: LinkMsg): Link
    requires Usable(m)
  {
    Link(m.kind, m.flags, if m.address.Some? then m.address.value else [], m.name.value)
  }

  function Min(a: nat, b: nat): nat {
    if a < b then a else b
  }

  /** `idx & (IDXMAP_SIZE - 1)` */
  function Hash(idx: nat): (h: nat)
    ensures h < IDXMAP_SIZE
  {
    idx % IDXMAP_SIZE
  }

  // ----- the table as a map

  function Remembered(links: map<nat, Link>, m: LinkMsg, memory: bool): map<nat, Link> {
    if Usable(m) && (memory || m.index in links) then links[m.index := LinkOf(m)] else links
  }

  /** A message as it arrives: whether there is memory for a new node. */
  datatype Arrival = Arrival(m: LinkMsg, memory: bool)

  function After(run: seq<Arrival>): map<nat, Link> {
    if run == [] then map[]
    else Remembered(After(run[..|run| - 1]), run[|run| - 1].m, run[|run| - 1].memory)
  }

  /** The latest message taken up for this index: a named link message, for a known link or with memory for a new one. */
  function Latest(run: seq<Arrival>, idx: nat): Option<LinkMsg> {
    if run == [] then None
    else
      var before, m := Latest(run[..|run| - 1], idx), run[|run| - 1].m;
      if m.newLink && m.len >= 24 && m.name.Some? && m.index == idx && (run[|run| - 1].memory || before.Some?)
      then Some(m) else before
  }

  /** The record says what the message says; without an address attribute its address is empty. */
  predicate Describes(l: Link, m: LinkMsg) {
    && l.kind == m.kind && l.flags == m.flags && m.name == Some(l.name)
    && l.address == if m.address.Some? then m.address.value else []
  }

  /** What is looked up is always what the latest message for the index says, untouched by messages for others. */
  lemma {:induction false} LookupIsLatest(run: seq<Arrival>, idx: nat)
    ensures idx in After(run) <==> Latest(run, idx).Some?
    ensures idx in After(run) ==> Describes(After(run)[idx], Latest(run, idx).value)
  {
    if run == [] {
    } else {
      LookupIsLatest(run[..|run| - 1], idx);
    }
  }

  // ----- the table itself

  class Node {
    var next: Node?
    const index: nat
    var kind: nat
    var flags: nat
    var alen: nat
    var name: string
    var addr: seq<Byte>

    constructor (index: nat)
      ensures this.index == index && next == null && |addr| == ADDR_SIZE
    {
      this.index := index;
      next := null;
      kind, flags, alen, name := *, *, *, *;
      addr := seq(ADDR_SIZE, _ => 0);
    }

    /** The node holds this link; of a long address only the bytes that fit. */
    ghost predicate Holds(l: Link)
      reads this
    {
      && kind == l.kind && flags == l.flags && name == l.name && alen == |l.address|
      && |addr| == ADDR_SIZE && addr[..Min(alen, ADDR_SIZE)] == l.address[..Min(alen, ADDR_SIZE)]
    }

    /** The leading bytes of the address, at most `room`. */
    method Copy(room: nat, ghost l: Link) returns (copy: seq<Byte>)
      requires Holds(l)
      ensures copy == l.address[..Min(Min(room, ADDR_SIZE), |l.address|)]
    {
      var n := room;
      if n > ADDR_SIZE {
        n := ADDR_SIZE;
      }
      if n > alen {
        n := alen;
      }
      copy := addr[..n];
      ghost var m := Min(alen, ADDR_SIZE);
      assert addr[..m][..n] == copy && l.address[..m][..n] == l.address[..n];
    }

    method Store(m: LinkMsg)
      requires Usable(m) && |addr| == ADDR_SIZE
      modifies this`kind, this`flags, this`alen, this`addr, this`name
      ensures Holds(LinkOf(m))
    {
      kind := m.kind;
      flags := m.flags;
      if m.address.Some? {
        var data := m.address.value;
        alen := |data|;
        var n := Min(alen, ADDR_SIZE);
        addr := data[..n] + addr[n..];
      } else {
        alen := 0;
        addr := seq(ADDR_SIZE, _ => 0);
      }
      name := m.name.value;
    }
  }

  function Last(chain: seq<Node>): Node? {
    if chain == [] then null else chain[|chain| - 1]
  }

  /** From `head` the nodes of `chain` follow one another, and nothing after. */
  ghost predicate Linked(head: Node?, chain: seq<Node>, nexts: map<Node, Node?>) {
    && head == (if chain == [] then null else chain[0])
    && forall k | 0 <= k < |chain| :: chain[k] in nexts && nexts[chain[k]] == Follower(chain, k)
  }

  function Follower(chain: seq<Node>, k: nat): Node? {
    if k + 1 < |chain| then chain[k + 1] else null
  }

  /** The chain of bucket `b` holds nodes of its own, one for each index, linked from the bucket's head. */
  ghost predicate Bucket(head: Node?, chain: seq<Node>, b: nat, nexts: map<Node, Node?>) {
    && Linked(head, chain, nexts)
    && (forall k | 0 <= k < |chain| :: Hash(chain[k].index) == b)
    && (forall k, l | 0 <= k < l < |chain| :: chain[k].index != chain[l].index)
  }

  /** The first `b` buckets are in order. */
  ghost predicate Buckets(heads: seq<Node?>, chains: seq<seq<Node>>, nexts: map<Node, Node?>, b: nat)
    requires b <= |heads| == |chains|
  {
    b == 0 || (Buckets(heads, chains, nexts, b - 1) && Bucket(heads[b - 1], chains[b - 1], b - 1, nexts))
  }

  /** The chains hold one node for every index known, and no other nodes. */
  ghost predicate Complete(chains: seq<seq<Node>>, nodes: set<Node>, known: set<nat>) {
    && |chains| == IDXMAP_SIZE
    && (forall n | n in nodes :: n.index in known && n in chains[Hash(n.index)])
    && (forall i | i in known :: exists n | n in nodes :: n.index == i)
  }

  /** What the memory holds: heads, chains, `next` fields and the links stored. */
  datatype Table = Table(heads: seq<Node?>, chains: seq<seq<Node>>, nexts: map<Node, Node?>, links: map<nat, Link>) {
    ghost predicate Ok() {
      && |heads| == IDXMAP_SIZE && Complete(chains, nexts.Keys, links.Keys)
      && Buckets(heads, chains, nexts, |chains|)
    }
  }

  lemma {:induction false} BucketAt(heads: seq<Node?>, chains: seq<seq<Node>>, nexts: map<Node, Node?>, b: nat, i: nat)
    requires i < b <= |heads| == |chains| && Buckets(heads, chains, nexts, b)
    ensures Bucket(heads[i], chains[i], i, nexts)
    decreases b
  {
    if i == b - 1 {
    } else {
      BucketAt(heads, chains, nexts, b - 1, i);
    }
  }

  lemma {:induction false} EmptyBuckets(heads: seq<Node?>, chains: seq<seq<Node>>, b: nat)
    requires b <= |heads| == |chains| && forall i | 0 <= i < |heads| :: heads[i] == null && chains[i] == []
    ensures Buckets(heads, chains, map[], b)
    decreases b
  {
    if b == 0 {
    } else {
      EmptyBuckets(heads, chains, b - 1);
    }
  }

  /** The fields `next` once `n` hangs behind `last`. */
  ghost function Hung(nexts: map<Node, Node?>, last: Node?, n: Node): map<Node, Node?> {
    if last == null then nexts[n := null] else nexts[last := n][n := null]
  }

  function NewHead(head: Node?, chain: seq<Node>, n: Node): Node? {
    if chain == [] then n else head
  }

  /** A new node goes to the end of its own chain. */
  lemma BucketGrows(head: Node?, chain: seq<Node>, b: nat, nexts: map<Node, Node?>, n: Node)
    requires Bucket(head, chain, b, nexts) && n !in nexts && Hash(n.index) == b
    requires forall k | 0 <= k < |chain| :: chain[k].index != n.index
    ensures Bucket(NewHead(head, chain, n), chain + [n], b, Hung(nexts, Last(chain), n))
  {
  }

  /** The other chains do not see it. */
  lemma BucketKept(head: Node?, chain: seq<Node>, b: nat, nexts: map<Node, Node?>, last: Node?, n: Node)
    requires Bucket(head, chain, b, nexts) && n !in nexts
    requires last != null ==> Hash(last.index) != b
    ensures Bucket(head, chain, b, Hung(nexts, last, n))
  {
  }

  lemma {:induction false} BucketsGrow(heads: seq<Node?>, chains: seq<seq<Node>>, nexts: map<Node, Node?>, n: Node,
                                       h: nat, b: nat)
    requires b <= |heads| == |chains| && Buckets(heads, chains, nexts, b)
    requires n !in nexts && h == Hash(n.index) < |chains|
    requires forall k | 0 <= k < |chains[h]| :: chains[h][k].index != n.index && Hash(chains[h][k].index) == h
    ensures Buckets(heads[h := NewHead(heads[h], chains[h], n)], chains[h := chains[h] + [n]],
              Hung(nexts, Last(chains[h]), n), b)
    decreases b
  {
    if b == 0 {
    } else {
      BucketsGrow(heads, chains, nexts, n, h, b - 1);
      if b - 1 == h {
        BucketGrows(heads[h], chains[h], h, nexts, n);
      } else {
        BucketKept(heads[b - 1], chains[b - 1], b - 1, nexts, Last(chains[h]), n);
      }
    }
  }

  lemma CompleteGrows(chains: seq<seq<Node>>, nodes: set<Node>, known: set<nat>, n: Node)
    requires Complete(chains, nodes, known) && n.index !in known
    ensures var h := Hash(n.index);
            Complete(chains[h := chains[h] + [n]], nodes + {n}, known + {n.index})
  {
    var h := Hash(n.index);
    var more := chains[h := chains[h] + [n]];
    forall m | m in nodes + {n} ensures m in more[Hash(m.index)] {
      assert m in nodes ==> m in chains[Hash(m.index)];
    }
    forall i | i in known + {n.index} ensures exists m | m in nodes + {n} :: m.index == i {
      if i == n.index {
        assert n in nodes + {n};
      } else {
        var m :| m in nodes && m.index == i;
        assert m in nodes + {n};
      }
    }
  }

  /** The table with a new node at the end of its chain. */
  ghost function Grown(t: Table, n: Node, l: Link): Table
    requires |t.heads| == |t.chains| == IDXMAP_SIZE
  {
    var h := Hash(n.index);
    Table(t.heads[h := NewHead(t.heads[h], t.chains[h], n)], t.chains[h := t.chains[h] + [n]],
      Hung(t.nexts, Last(t.chains[h]), n), t.links[n.index := l])
  }

  lemma GrownKeys(t: Table, n: Node, l: Link)
    requires |t.heads| == |t.chains| == IDXMAP_SIZE
    requires var last := Last(t.chains[Hash(n.index)]); last != null ==> last in t.nexts
    ensures Grown(t, n, l).nexts.Keys == t.nexts.Keys + {n}
    ensures Grown(t, n, l).links.Keys == t.links.Keys + {n.index}
  {
  }

  lemma OwnBucket(t: Table, n: Node)
    requires t.Ok() && n.index !in t.links
    ensures var h := Hash(n.index);
            && Bucket(t.heads[h], t.chains[h], h, t.nexts)
            && (forall k | 0 <= k < |t.chains[h]| :: t.chains[h][k].index != n.index)
            && (Last(t.chains[h]) != null ==> Last(t.chains[h]) in t.nexts)
  {
    BucketAt(t.heads, t.chains, t.nexts, |t.chains|, Hash(n.index));
    InOwnChain(t, n.index);
  }

  lemma TableGrows(t: Table, n: Node, l: Link)
    requires t.Ok() && n !in t.nexts && n.index !in t.links
    ensures Grown(t, n, l).Ok() && Grown(t, n, l).nexts.Keys == t.nexts.Keys + {n}
    ensures var last := Last(t.chains[Hash(n.index)]); last != null ==> last in t.nexts
  {
    var h := Hash(n.index);
    OwnBucket(t, n);
    BucketsGrow(t.heads, t.chains, t.nexts, n, h, |t.chains|);
    CompleteGrows(t.chains, t.nexts.Keys, t.links.Keys, n);
    GrownKeys(t, n, l);
  }

  /** An index is known exactly when its own chain has a node for it. */
  lemma InOwnChain(t: Table, idx: nat)
    requires t.Ok()
    ensures Linked(t.heads[Hash(idx)], t.chains[Hash(idx)], t.nexts)
    ensures idx in t.links <==> exists k | 0 <= k < |t.chains[Hash(idx)]| :: t.chains[Hash(idx)][k].index == idx
  {
    BucketAt(t.heads, t.chains, t.nexts, |t.chains|, Hash(idx));
    if idx in t.links {
      var n :| n in t.nexts.Keys && n.index == idx;
      assert n in t.chains[Hash(idx)];
    }
  }

  /** No index has two nodes. */
  lemma OnePerIndex(t: Table, n: Node, m: Node)
    requires t.Ok() && n in t.nexts.Keys && m in t.nexts.Keys
    ensures n.index == m.index <==> n == m
  {
    if n.index == m.index {
      var h := Hash(n.index);
      BucketAt(t.heads, t.chains, t.nexts, |t.chains|, h);
      assert n in t.chains[h] && m in t.chains[h];
    }
  }

  lemma OverwriteOk(t: Table, im: Node, l: Link)
    requires t.Ok() && im in t.nexts.Keys && im.index in t.links
    ensures t.(links := t.links[im.index := l]).Ok()
    ensures forall n | n in t.nexts.Keys && n.index == im.index :: n == im
  {
    assert t.links[im.index := l].Keys == t.links.Keys;
    forall n | n in t.nexts.Keys && n.index == im.index ensures n == im {
      OnePerIndex(t, n, im);
    }
  }

  /** Every node holds the link that its index is known by. */
  ghost predicate AllHeld(links: map<nat, Link>, nodes: set<Node>)
    reads nodes
  {
    forall n | n in nodes :: n.index in links && n.Holds(links[n.index])
  }

  class LlMap {
    const heads: array<Node?>
    ghost var t: Table

    ghost predicate Valid()
      reads this, heads, t.nexts.Keys
    {
      t.Ok() && Represents(t)
    }

    ghost predicate Represents(t: Table)
      reads heads, t.nexts.Keys
    {
      && heads.Length == IDXMAP_SIZE && heads[..] == t.heads && |t.chains| == IDXMAP_SIZE
      && (forall n | n in t.nexts.Keys :: n.next == t.nexts[n])
      && AllHeld(t.links, t.nexts.Keys)
    }

    constructor ()
      ensures Valid() && fresh(heads) && t.links == map[] && t.nexts == map[]
    {
      heads := new Node?[IDXMAP_SIZE](_ => null);
      t := Table(seq(IDXMAP_SIZE, _ => null), seq(IDXMAP_SIZE, _ => []), map[], map[]);
      new;
      EmptyBuckets(t.heads, t.chains, |t.chains|);
    }

    /** The walk along a chain that every lookup does. */
    method Walk(head: Node?, idx: nat, ghost chain: seq<Node>, ghost nexts: map<Node, Node?>)
      returns (im: Node?, last: Node?, ghost k: nat)
      requires Linked(head, chain, nexts) && forall n | n in nexts :: n.next == nexts[n]
      ensures k <= |chain| && im == if k < |chain| then chain[k] else null
      ensures k < |chain| ==> chain[k].index == idx && chain[k] in nexts
      ensures k == |chain| ==> last == Last(chain) && forall j | 0 <= j < k :: chain[j].index != idx
    {
      k := 0;
      im, last := head, null;
      while im != null && im.index != idx
        invariant 0 <= k <= |chain|
        invariant k < |chain| ==> im == chain[k]
        invariant k == |chain| ==> im == null
        invariant last == if k > 0 then chain[k - 1] else null
        invariant forall j | 0 <= j < k :: chain[j].index != idx
        decreases |chain| - k
      {
        assert im == chain[k] && im in nexts && nexts[im] == Follower(chain, k);
        last := im;
        im := im.next;
        k := k + 1;
      }
    }

    method Find(idx: nat) returns (im: Node?, last: Node?)
      requires Valid()
      ensures im == null <==> idx !in t.links
      ensures im != null ==> im in t.nexts.Keys && im.index == idx && im.Holds(t.links[idx])
      ensures im == null ==> last == Last(t.chains[Hash(idx)])
    {
      InOwnChain(t, idx);
      ghost var k;
      im, last, k := Walk(heads[Hash(idx)], idx, t.chains[Hash(idx)], t.nexts);
    }

    /** `ll_remember_index` */
    method RememberIndex(m: LinkMsg, memory: bool) returns (ret: int)
      requires Valid()
      modifies this`t, heads, t.nexts.Keys
      ensures Valid()
      ensures forall n | n in t.nexts.Keys :: n in old(t.nexts.Keys) || fresh(n)
      ensures t.links == Remembered(old(t.links), m, memory)
      ensures ret == if m.newLink && m.len < MIN_LEN then -1 else 0
    {
      if !m.newLink {
        return 0;
      }
      if m.len < MIN_LEN {
        return -1;
      }
      ret := 0;
      if m.name.None? {
        return;
      }
      Upsert(m, memory);
    }

    /** Any sequence of link messages, from an empty table. */
    method RememberAll(run: seq<Arrival>)
      requires Valid() && t.links == map[]
      modifies this`t, heads, t.nexts.Keys
      ensures Valid() && t.links == After(run)
      ensures forall n | n in t.nexts.Keys :: n in old(t.nexts.Keys) || fresh(n)
      decreases |run|
    {
      if run == [] {
      } else {
        RememberAll(run[..|run| - 1]);
        var _ := RememberIndex(run[|run| - 1].m, run[|run| - 1].memory);
      }
    }

    method Upsert(m: LinkMsg, memory: bool)
      requires Valid() && Usable(m)
      modifies this`t, heads, t.nexts.Keys
      ensures Valid()
      ensures forall n | n in t.nexts.Keys :: n in old(t.nexts.Keys) || fresh(n)
      ensures t.links == Remembered(old(t.links), m, memory)
    {
      var im, last := Find(m.index);
      if im == null {
        if !memory {
          return;
        }
        Add(m, last);
      } else {
        Overwrite(im, m);
      }
    }

    method Overwrite(im: Node, m: LinkMsg)
      requires Valid() && Usable(m) && im in t.nexts.Keys && im.index == m.index && m.index in t.links
      modifies this`t, t.nexts.Keys
      ensures Valid() && t == old(t).(links := old(t).links[m.index := LinkOf(m)])
    {
      OverwriteOk(t, im, LinkOf(m));
      StoreIn(im, m, t);
      Settle(t.(links := t.links[m.index := LinkOf(m)]));
    }

    method StoreIn(im: Node, m: LinkMsg, ghost t: Table)
      requires Represents(t) && Usable(m) && im in t.nexts.Keys && im.index == m.index
      requires forall n | n in t.nexts.Keys && n.index == im.index :: n == im
      modifies im`kind, im`flags, im`alen, im`addr, im`name
      ensures Represents(t.(links := t.links[m.index := LinkOf(m)]))
    {
      assert im.Holds(t.links[im.index]);
      im.Store(m);
    }

    /** A new node behind the last one of its chain. */
    method Add(m: LinkMsg, last: Node?)
      requires Valid() && Usable(m) && m.index !in t.links && last == Last(t.chains[Hash(m.index)])
      modifies this`t, heads, t.nexts.Keys
      ensures Valid()
      ensures forall n | n in t.nexts.Keys :: n in old(t.nexts.Keys) || fresh(n)
      ensures t.links == old(t.links)[m.index := LinkOf(m)]
    {
      var im := Made(m);
      Attach(im, last, LinkOf(m));
    }

    method Attach(im: Node, last: Node?, ghost l: Link)
      requires Valid() && im !in t.nexts.Keys && im.next == null && im.index !in t.links && im.Holds(l)
      requires last == Last(t.chains[Hash(im.index)])
      modifies this`t, heads, t.nexts.Keys
      ensures Valid() && t.nexts.Keys == old(t.nexts.Keys) + {im} && t.links == old(t.links)[im.index := l]
    {
      TableGrows(t, im, l);
      Hang(im, last, t, l);
      Settle(Grown(t, im, l));
    }

    ghost method Settle(g: Table)
      requires g.Ok() && Represents(g)
      modifies this`t
      ensures Valid() && t == g
    {
      t := g;
    }

    method Made(m: LinkMsg) returns (im: Node)
      requires Usable(m)
      ensures fresh(im) && im.index == m.index && im.next == null && im.Holds(LinkOf(m))
    {
      im := new Node(m.index);
      im.Store(m);
    }

    method Hang(im: Node, last: Node?, ghost t: Table, ghost l: Link)
      requires Represents(t) && im !in t.nexts.Keys && im.next == null && im.index !in t.links && im.Holds(l)
      requires last == Last(t.chains[Hash(im.index)]) && (last != null ==> last in t.nexts.Keys)
      modifies heads, last
      ensures Represents(Grown(t, im, l))
    {
      if last == null {
        heads[Hash(im.index)] := im;
      } else {
        last.next := im;
      }
    }

    method IndexToType(idx: nat) returns (kind: int)
      requires Valid()
      ensures kind == if idx != 0 && idx in t.links then t.links[idx].kind else -1
    {
      if idx == 0 {
        return -1;
      }
      var im, _ := Find(idx);
      kind := if im != null then im.kind else -1;
    }

    method IndexToFlags(idx: nat) returns (flags: nat)
      requires Valid()
      ensures flags == if idx != 0 && idx in t.links then t.links[idx].flags else 0
    {
      if idx == 0 {
        return 0;
      }
      var im, _ := Find(idx);
      flags := if im != null then im.flags else 0;
    }

    /** The bytes copied out, at most `room`. */
    method IndexToAddr(idx: nat, room: nat) returns (addr: seq<Byte>)
      requires Valid()
      ensures addr == if idx != 0 && idx in t.links
                      then t.links[idx].address[..Min(Min(room, ADDR_SIZE), |t.links[idx].address|)] else []
    {
      addr := [];
      if idx == 0 {
        return;
      }
      var im, _ := Find(idx);
      if im != null {
        addr := im.Copy(room, t.links[idx]);
      }
    }
  }
}
