/**
 The u32 selector packer of tc/f_u32.c.

 Match constraints of different widths are merged into a table of 32-bit keys.
 The theorems say which packets a table built that way selects.
 */
module U32Selector {
  import opened Basics
  import opened Bits

  /** `struct tc_u32_key`; `val` and `mask` are in memory order. */
  datatype Key = Key(val: Word, mask: Word, off: int, offmask: int)

  /** What a call of `pack_key` asks for. */
  datatype Constraint = Constraint(key: Word, mask: Word, off: int, offmask: int)

  /**
   A packet: `bit(8 * a + i)` is bit `i`, from the top, of the byte at `a`, and
   `disp(m)` is the displacement that an offset mask `m` adds to an offset.
   */
  datatype Packet = Packet(bit: int -> bool, disp: int -> int)

  const MAX_KEYS := 128

  /** The word of the packet at a place agrees with `val` wherever `mask` has a one. */
  predicate Agrees(p: Packet, val: Word, mask: Word, off: int, offmask: int) {
    forall i | 0 <= i < 32 :: mask[i] ==> p.bit(8 * (off + p.disp(offmask)) + i) == val[i]
  }

  predicate Sat(p: Packet, c: Constraint) {
    Agrees(p, c.key, c.mask, c.off, c.offmask)
  }

  predicate Hits(p: Packet, k: Key) {
    Agrees(p, k.val, k.mask, k.off, k.offmask)
  }

  /** A selector selects the packets that every key hits. */
  predicate Matches(p: Packet, t: seq<Key>) {
    forall i | 0 <= i < |t| :: Hits(p, t[i])
  }

  /** Every constraint of the list holds. */
  predicate SatAll(p: Packet, cs: seq<Constraint>) {
    cs == [] || (Sat(p, cs[0]) && SatAll(p, cs[1..]))
  }

  predicate Inside(val: Word, mask: Word) {
    forall i | 0 <= i < 32 :: val[i] ==> mask[i]
  }

  predicate SameSlot(k: Key, off: int, offmask: int) {
    k.off == off && k.offmask == offmask
  }

  predicate TableOk(t: seq<Key>) {
    && |t| <= MAX_KEYS
    && (forall i | 0 <= i < |t| :: Inside(t[i].val, t[i].mask) && t[i].off % 4 == 0)
    && forall i, j | 0 <= i < j < |t| :: !SameSlot(t[i], t[j].off, t[j].offmask)
  }

  // ----- pack_key

  function Find(t: seq<Key>, off: int, offmask: int): (i: nat)
    ensures i <= |t| && (i < |t| ==> SameSlot(t[i], off, offmask))
    ensures forall j | 0 <= j < i :: !SameSlot(t[j], off, offmask)
  {
    if t == [] || SameSlot(t[0], off, offmask) then 0 else 1 + Find(t[1..], off, offmask)
  }

  predicate Conflict(k: Key, c: Constraint) {
    !IsZero(And(Xor(And(c.key, c.mask), k.val), And(c.mask, k.mask)))
  }

  function Merged(k: Key, c: Constraint): Key {
    k.(val := Or(k.val, And(c.key, c.mask)), mask := Or(k.mask, c.mask))
  }

  /** The table after one call, or None when the call is refused. */
  function Pack(t: seq<Key>, c: Constraint): Option<seq<Key>> {
    var i := Find(t, c.off, c.offmask);
    if i < |t| then
      if Conflict(t[i], c) then None else Some(t[i := Merged(t[i], c)])
    else if |t| >= MAX_KEYS || c.off % 4 != 0 then None
    else Some(t + [Key(And(c.key, c.mask), c.mask, c.off, c.offmask)])
  }

  /** A conflict is a bit that both masks have and on which the values differ. */
  lemma ConflictBit(k: Key, c: Constraint)
    ensures Conflict(k, c) <==> exists i :: 0 <= i < 32 && c.mask[i] && k.mask[i] && c.key[i] != k.val[i]
  {
    var x := And(Xor(And(c.key, c.mask), k.val), And(c.mask, k.mask));
    if i :| 0 <= i < 32 && c.mask[i] && k.mask[i] && c.key[i] != k.val[i] {
      assert x[i];
    }
    if i :| 0 <= i < 32 && x[i] {
      assert c.mask[i] && k.mask[i] && c.key[i] != k.val[i];
    }
  }

  lemma MergedHits(p: Packet, k: Key, c: Constraint)
    requires Inside(k.val, k.mask) && SameSlot(k, c.off, c.offmask) && !Conflict(k, c)
    ensures Inside(Merged(k, c).val, Merged(k, c).mask)
    ensures Hits(p, Merged(k, c)) <==> Hits(p, k) && Sat(p, c)
  {
    ConflictBit(k, c);
    var m := Merged(k, c);
    forall i | 0 <= i < 32
      ensures m.mask[i] == (k.mask[i] || c.mask[i])
      ensures k.mask[i] ==> m.val[i] == k.val[i]
      ensures c.mask[i] ==> m.val[i] == c.key[i]
    {
    }
  }

  /** Two demands on one word clash exactly when no packet meets both. */
  lemma ConflictIff(k: Key, c: Constraint)
    requires SameSlot(k, c.off, c.offmask)
    ensures Conflict(k, c) <==> forall p :: !(Hits(p, k) && Sat(p, c))
  {
    ConflictBit(k, c);
    if !Conflict(k, c) {
      var w: Word := seq(32, i requires 0 <= i < 32 => if k.mask[i] then k.val[i] else c.key[i]);
      assert forall i | 0 <= i < 32 :: (k.mask[i] ==> w[i] == k.val[i]) && (c.mask[i] ==> w[i] == c.key[i]);
      var p := PacketWith(w, c.off, c.offmask);
      assert Hits(p, k) && Sat(p, c);
    }
  }

  /** A packet with a given word at a given place. */
  lemma PacketWith(w: Word, off: int, offmask: int) returns (p: Packet)
    ensures forall i | 0 <= i < 32 :: p.bit(8 * (off + p.disp(offmask)) + i) == w[i]
  {
    var base := 8 * off;
    p := Packet(n => 0 <= n - base < 32 && w[n - base], _ => 0);
  }

  /** A successful call narrows the selection by exactly its constraint. */
  lemma PackMeaning(t: seq<Key>, c: Constraint, p: Packet)
    requires TableOk(t) && Pack(t, c).Some?
    ensures TableOk(Pack(t, c).value)
    ensures Matches(p, Pack(t, c).value) <==> Matches(p, t) && Sat(p, c)
  {
    var i := Find(t, c.off, c.offmask);
    var r := Pack(t, c).value;
    if i < |t| {
      MergedHits(p, t[i], c);
      assert forall j | 0 <= j < |t| && j != i :: r[j] == t[j];
      if Matches(p, r) {
        assert Hits(p, r[i]);
        forall j | 0 <= j < |t| ensures Hits(p, t[j]) {
          assert Hits(p, r[j]);
        }
      }
    } else {
      FreshHits(p, c);
      assert r[|t|] == Key(And(c.key, c.mask), c.mask, c.off, c.offmask);
      if Matches(p, r) {
        assert Hits(p, r[|t|]);
        forall j | 0 <= j < |t| ensures Hits(p, t[j]) {
          assert r[j] == t[j];
        }
      }
    }
  }

  lemma FreshHits(p: Packet, c: Constraint)
    ensures Hits(p, Key(And(c.key, c.mask), c.mask, c.off, c.offmask)) <==> Sat(p, c)
  {
    var v := And(c.key, c.mask);
    assert forall i | 0 <= i < 32 && c.mask[i] :: v[i] == c.key[i];
  }

  /** A call refused for a conflict asks for something no packet selected so far has. */
  lemma RefusalIsUnsatisfiable(t: seq<Key>, c: Constraint, p: Packet)
    requires Find(t, c.off, c.offmask) < |t| && Pack(t, c).None?
    ensures !(Matches(p, t) && Sat(p, c))
  {
    var i := Find(t, c.off, c.offmask);
    ConflictIff(t[i], c);
  }

  // ----- sequences of calls

  function PackAll(t: seq<Key>, cs: seq<Constraint>): Option<seq<Key>>
    decreases |cs|
  {
    if cs == [] then Some(t)
    else
      var r := Pack(t, cs[0]);
      if r.None? then None else PackAll(r.value, cs[1..])
  }

  lemma {:induction false} SatAllSnoc(p: Packet, cs: seq<Constraint>, c: Constraint)
    ensures SatAll(p, cs + [c]) <==> SatAll(p, cs) && Sat(p, c)
  {
    if cs == [] {
      assert ([] + [c])[1..] == [];
    } else {
      assert (cs + [c])[1..] == cs[1..] + [c];
      SatAllSnoc(p, cs[1..], c);
    }
  }

  /** After any sequence of successful calls a packet is selected iff it meets every constraint given. */
  lemma {:induction false} PackAllMeaning(t: seq<Key>, cs: seq<Constraint>, p: Packet)
    requires TableOk(t) && PackAll(t, cs).Some?
    ensures TableOk(PackAll(t, cs).value)
    ensures Matches(p, PackAll(t, cs).value) <==> Matches(p, t) && SatAll(p, cs)
    decreases |cs|
  {
    if cs == [] {
    } else {
      PackMeaning(t, cs[0], p);
      PackAllMeaning(Pack(t, cs[0]).value, cs[1..], p);
    }
  }

  lemma {:induction false} PackAllSnoc(t: seq<Key>, cs: seq<Constraint>, c: Constraint)
    ensures PackAll(t, cs + [c])
         == if PackAll(t, cs).None? then None else Pack(PackAll(t, cs).value, c)
    decreases |cs|
  {
    if cs == [] {
      assert ([] + [c])[1..] == [];
    } else {
      assert (cs + [c])[1..] == cs[1..] + [c];
      if Pack(t, cs[0]).Some? {
        PackAllSnoc(Pack(t, cs[0]).value, cs[1..], c);
      }
    }
  }

  lemma {:induction false} PackAllAppend(t: seq<Key>, a: seq<Constraint>, b: seq<Constraint>)
    ensures PackAll(t, a + b) == if PackAll(t, a).None? then None else PackAll(PackAll(t, a).value, b)
    decreases |a|
  {
    if a == [] {
      assert a + b == b;
    } else {
      assert (a + b)[1..] == a[1..] + b;
      if Pack(t, a[0]).Some? {
        PackAllAppend(Pack(t, a[0]).value, a[1..], b);
      }
    }
  }

  /** Once a constraint is refused, no list that goes on from it can be packed. */
  lemma RefusedForGood(log: seq<Constraint>, c: Constraint, more: seq<Constraint>)
    requires PackAll([], log + [c]).None?
    ensures PackAll([], (log + [c]) + more).None?
  {
    PackAllAppend([], log + [c], more);
  }

  /**
   A call is refused exactly when the table has a key for its place and no packet meets both, or has no
   such key and is full or the offset is not that of a word.
   */
  lemma PackRefusedIff(t: seq<Key>, c: Constraint)
    requires TableOk(t)
    ensures Pack(t, c).None?
       <==> || (exists i :: 0 <= i < |t| && SameSlot(t[i], c.off, c.offmask) && NeverBoth(t[i], c))
            || ((forall i | 0 <= i < |t| :: !SameSlot(t[i], c.off, c.offmask)) && (|t| >= 128 || c.off % 4 != 0))
  {
    var i := Find(t, c.off, c.offmask);
    if i < |t| {
      ConflictIff(t[i], c);
      assert forall j | 0 <= j < |t| && j != i :: !SameSlot(t[j], c.off, c.offmask);
    }
  }

  /** No packet meets the key and the constraint. */
  ghost predicate NeverBoth(k: Key, c: Constraint) {
    forall p :: !(Hits(p, k) && Sat(p, c))
  }

  // ----- narrow constraints

  /** `x > 2^n - 1` for an unsigned word */
  predicate Exceeds(x: Word, n: nat)
    requires n <= 32
  {
    !IsZero(x[..32 - n])
  }

  /** `n` packet bits from the top of the byte at `off` agree with `key` under `mask`. */
  predicate FieldSat(p: Packet, key: seq<bool>, mask: seq<bool>, off: int, offmask: int)
    requires |key| == |mask|
  {
    forall i | 0 <= i < |key| :: mask[i] ==> p.bit(8 * (off + p.disp(offmask)) + i) == key[i]
  }

  /** How far a byte constraint is shifted, by its place in the word. */
  function ByteShift(r: int): (k: nat)
    requires 0 <= r < 4
    ensures k == 24 - 8 * r
  {
    if r == 0 then 24 else if r == 1 then 16 else if r == 2 then 8 else 0
  }

  function Constraint8(key: Word, mask: Word, off: int, offmask: int): Constraint {
    var shift := ByteShift(off % 4);
    Constraint(Shl(key, shift), Shl(mask, shift), off - off % 4, offmask)
  }

  /** Any offset off a word boundary is treated as the second half of its word. */
  function Constraint16(key: Word, mask: Word, off: int, offmask: int): Constraint {
    var shift := if off % 4 == 0 then 16 else 0;
    Constraint(Shl(key, shift), Shl(mask, shift), off - off % 4, offmask)
  }

  /** A field of `n` low bits moved up by `shift` tests the packet bits from `at` in the word. */
  lemma ShiftedSat(p: Packet, key: Word, mask: Word, n: nat, shift: nat, off: int, offmask: int, at: int)
    requires n + shift <= 32 && !Exceeds(key, n) && !Exceeds(mask, n)
    requires 8 * at == 32 - n - shift
    ensures Sat(p, Constraint(Shl(key, shift), Shl(mask, shift), off, offmask))
       <==> FieldSat(p, key[32 - n..], mask[32 - n..], off + at, offmask)
  {
    var c := Constraint(Shl(key, shift), Shl(mask, shift), off, offmask);
    ShiftedBits(key, n, shift, 8 * at);
    ShiftedBits(mask, n, shift, 8 * at);
    FieldInWord(p, c, key[32 - n..], mask[32 - n..], 8 * at);
    assert 8 * (off + at + p.disp(offmask)) == 8 * (off + p.disp(offmask)) + 8 * at;
  }

  /** The `n` low bits of `x`, moved up, begin at bit `first`; all other bits are zero. */
  lemma ShiftedBits(x: Word, n: nat, shift: nat, first: nat)
    requires n + shift <= 32 && !Exceeds(x, n) && first == 32 - n - shift
    ensures forall i | 0 <= i < 32 :: Shl(x, shift)[i] == (first <= i < first + n && x[32 - n..][i - first])
  {
    forall i | 0 <= i < 32 ensures Shl(x, shift)[i] == (first <= i < first + n && x[32 - n..][i - first]) {
      if i < first {
        assert !x[..32 - n][i + shift];
      }
    }
  }

  /** A constraint whose word holds a field from bit `first` on, and no mask bit elsewhere, tests that field. */
  lemma FieldInWord(p: Packet, c: Constraint, k: seq<bool>, m: seq<bool>, first: nat)
    requires |k| == |m| && first + |k| <= 32
    requires forall i | 0 <= i < 32 :: c.mask[i] == (first <= i < first + |k| && m[i - first])
    requires forall i | 0 <= i < 32 :: c.key[i] == (first <= i < first + |k| && k[i - first])
    ensures var base := 8 * (c.off + p.disp(c.offmask)) + first;
            Sat(p, c) <==> forall i | 0 <= i < |k| :: m[i] ==> p.bit(base + i) == k[i]
  {
    var word := 8 * (c.off + p.disp(c.offmask));
    var base := word + first;
    if Sat(p, c) {
      forall i | 0 <= i < |k| && m[i] ensures p.bit(base + i) == k[i] {
        assert c.mask[first + i] && c.key[first + i] == k[i];
      }
    }
    if forall i | 0 <= i < |k| :: m[i] ==> p.bit(base + i) == k[i] {
      forall i | 0 <= i < 32 && c.mask[i] ensures p.bit(word + i) == c.key[i] {
        assert m[i - first] && word + i == base + (i - first);
      }
    }
  }

  /** An 8-bit constraint tests the byte at its offset, wherever that lies in a word. */
  lemma Key8Meaning(p: Packet, key: Word, mask: Word, off: int, offmask: int)
    requires !Exceeds(key, 8) && !Exceeds(mask, 8)
    ensures Sat(p, Constraint8(key, mask, off, offmask)) <==> FieldSat(p, key[24..], mask[24..], off, offmask)
  {
    var r := off % 4;
    ShiftedSat(p, key, mask, 8, 24 - 8 * r, off - r, offmask, r);
  }

  /** Where a 16-bit constraint really tests. */
  function Half(off: int): int {
    off - off % 4 + if off % 4 == 0 then 0 else 2
  }

  lemma Key16Meaning(p: Packet, key: Word, mask: Word, off: int, offmask: int)
    requires !Exceeds(key, 16) && !Exceeds(mask, 16)
    ensures Sat(p, Constraint16(key, mask, off, offmask)) <==> FieldSat(p, key[16..], mask[16..], Half(off), offmask)
  {
    var r := off % 4;
    ShiftedSat(p, key, mask, 16, if r == 0 then 16 else 0, off - r, offmask, if r == 0 then 0 else 2);
  }

  /** A packet that agrees with a field at one place and, in one masked bit, not at another. */
  lemma Spoiled(k: seq<bool>, m: seq<bool>, i: nat, at: int, other: int, offmask: int) returns (p: Packet)
    requires |k| == |m| == 16 && i < 16 && m[i]
    requires !(8 * at <= 8 * other + i < 8 * at + 16)
    ensures FieldSat(p, k, m, at, offmask) && !FieldSat(p, k, m, other, offmask)
  {
    p := Packet(n => if n == 8 * other + i then !k[i] else 0 <= n - 8 * at < 16 && k[n - 8 * at], _ => 0);
    assert p.bit(8 * (other + p.disp(offmask)) + i) != k[i];
  }

  lemma OddWitness(k: seq<bool>, m: seq<bool>, off: int, offmask: int) returns (p: Packet)
    requires |k| == |m| == 16 && !IsZero(m) && off % 2 != 0
    ensures FieldSat(p, k, m, off, offmask) != FieldSat(p, k, m, Half(off), offmask)
  {
    var i :| 0 <= i < 16 && m[i];
    HalfOdd(off);
    p := NextTo(k, m, i, off, Half(off), offmask);
  }

  /** Two fields one byte apart can be told apart. */
  lemma NextTo(k: seq<bool>, m: seq<bool>, i: nat, at: int, other: int, offmask: int) returns (p: Packet)
    requires |k| == |m| == 16 && i < 16 && m[i] && (other == at + 1 || other == at - 1)
    ensures FieldSat(p, k, m, at, offmask) != FieldSat(p, k, m, other, offmask)
  {
    if (other == at + 1) == (i < 8) {
      p := Spoiled(k, m, i, other, at, offmask);
    } else {
      p := Spoiled(k, m, i, at, other, offmask);
    }
  }

  lemma HalfOdd(off: int)
    requires off % 2 != 0
    ensures Half(off) == off + 1 || Half(off) == off - 1
  {
  }

  lemma HalfEven(off: int)
    requires off % 2 == 0
    ensures Half(off) == off
  {
  }

  lemma EmptyField(p: Packet, key: seq<bool>, mask: seq<bool>, off: int, offmask: int)
    requires |key| == |mask| && IsZero(mask)
    ensures FieldSat(p, key, mask, off, offmask)
  {
  }

  predicate Named16(p: Packet, key: Word, mask: Word, off: int, offmask: int) {
    FieldSat(p, key[16..], mask[16..], off, offmask)
  }

  lemma Key16Exact(p: Packet, key: Word, mask: Word, off: int, offmask: int)
    requires !Exceeds(key, 16) && !Exceeds(mask, 16)
    requires off % 2 == 0 || IsZero(mask[16..])
    ensures Sat(p, Constraint16(key, mask, off, offmask)) <==> Named16(p, key, mask, off, offmask)
  {
    Key16Meaning(p, key, mask, off, offmask);
    if off % 2 == 0 {
      HalfEven(off);
    } else {
      var k, m := key[16..], mask[16..];
      EmptyField(p, k, m, off, offmask);
      EmptyField(p, k, m, Half(off), offmask);
      assert Named16(p, key, mask, off, offmask);
    }
  }

  lemma Key16Differs(key: Word, mask: Word, off: int, offmask: int) returns (p: Packet)
    requires !Exceeds(key, 16) && !Exceeds(mask, 16)
    requires off % 2 != 0 && !IsZero(mask[16..])
    ensures Sat(p, Constraint16(key, mask, off, offmask)) != Named16(p, key, mask, off, offmask)
  {
    p := OddWitness(key[16..], mask[16..], off, offmask);
    Key16Meaning(p, key, mask, off, offmask);
  }

  /** A 16-bit constraint tests the two bytes it names iff its offset is even or it tests nothing. */
  lemma Key16ExactIff(key: Word, mask: Word, off: int, offmask: int)
    requires !Exceeds(key, 16) && !Exceeds(mask, 16)
    ensures (forall p :: Sat(p, Constraint16(key, mask, off, offmask)) == Named16(p, key, mask, off, offmask))
       <==> off % 2 == 0 || IsZero(mask[16..])
  {
    if off % 2 == 0 || IsZero(mask[16..]) {
      forall p ensures Sat(p, Constraint16(key, mask, off, offmask)) == Named16(p, key, mask, off, offmask) {
        Key16Exact(p, key, mask, off, offmask);
      }
    } else {
      var p := Key16Differs(key, mask, off, offmask);
    }
  }

  // ----- addresses

  /** The first `n` packet bits from the byte at `off` on equal those of `w`. */
  predicate BitsSat(p: Packet, w: seq<bool>, n: nat, off: int, offmask: int)
    requires n <= |w|
  {
    forall i | 0 <= i < n :: p.bit(8 * (off + p.disp(offmask)) + i) == w[i]
  }

  /** What is left of `n` bits after one word. */
  function Beyond(n: nat): nat {
    if n <= 32 then 0 else n - 32
  }

  /** The leading `n` bits from `off` on equal those of the address, given word by word. */
  predicate PrefixSat(p: Packet, addr: seq<Word>, n: nat, off: int, offmask: int) {
    addr == []
    || (BitsSat(p, addr[0], if n < 32 then n else 32, off, offmask)
        && PrefixSat(p, addr[1..], Beyond(n), off + 4, offmask))
  }

  function IpConstraint(addr: Word, bitlen: nat, off: int, offmask: int): Constraint
    requires bitlen <= 32
  {
    Constraint(addr, if bitlen == 0 then Zeros(32) else PrefixMask(bitlen), off, offmask)
  }

  /** An IPv4 prefix constrains exactly its leading bits. */
  lemma IpMeaning(p: Packet, addr: Word, bitlen: nat, off: int, offmask: int)
    requires bitlen <= 32
    ensures Sat(p, IpConstraint(addr, bitlen, off, offmask)) <==> BitsSat(p, addr, bitlen, off, offmask)
  {
    var c := IpConstraint(addr, bitlen, off, offmask);
    assert forall i | 0 <= i < 32 :: c.mask[i] == (i < bitlen);
  }

  /** The constraints for the words of an address of which `plen` bits remain; 31 count as a whole word. */
  function Ip6Constraints(addr: seq<Word>, plen: nat, off: int, offmask: int): seq<Constraint> {
    if plen == 0 || addr == [] then []
    else [Ip6Constraint(addr, plen, off, offmask)] + Ip6Constraints(addr[1..], Beyond(plen), off + 4, offmask)
  }

  function Ip6Constraint(addr: seq<Word>, plen: nat, off: int, offmask: int): Constraint
    requires addr != []
  {
    IpConstraint(addr[0], if plen >= 31 then 32 else plen, off, offmask)
  }

  /** The number of bits that the packed prefix tests. */
  function Ip6Tested(plen: nat): nat {
    if plen % 32 == 31 then plen + 1 else plen
  }

  /** `n` bits are tested for a prefix of `plen` bits: word by word the same, and 32 for 31. */
  predicate Tests(plen: nat, n: nat) {
    if plen < 31 then n == plen else if plen == 31 then n == 32 else n >= 32 && Tests(plen - 32, n - 32)
  }

  lemma {:induction false} TestedBits(plen: nat)
    ensures Tests(plen, Ip6Tested(plen))
  {
    if plen < 32 {
    } else {
      TestedBits(plen - 32);
    }
  }

  lemma {:induction false} NothingLeft(p: Packet, addr: seq<Word>, off: int, offmask: int)
    ensures PrefixSat(p, addr, 0, off, offmask)
  {
    if addr == [] {
    } else {
      NothingLeft(p, addr[1..], off + 4, offmask);
    }
  }

  /** Together the words test exactly `n` leading bits. */
  lemma {:induction false} Ip6Meaning(p: Packet, addr: seq<Word>, plen: nat, n: nat, off: int, offmask: int)
    requires Tests(plen, n)
    ensures SatAll(p, Ip6Constraints(addr, plen, off, offmask)) <==> PrefixSat(p, addr, n, off, offmask)
  {
    if plen == 0 {
      NothingLeft(p, addr, off, offmask);
    } else if addr != [] {
      IpMeaning(p, addr[0], if plen >= 31 then 32 else plen, off, offmask);
      Ip6Meaning(p, addr[1..], Beyond(plen), Beyond(n), off + 4, offmask);
      var cs := Ip6Constraints(addr, plen, off, offmask);
      assert cs[1..] == Ip6Constraints(addr[1..], Beyond(plen), off + 4, offmask);
    }
  }

  /** Packing an IPv6 prefix constrains exactly its leading bits iff its length is not 31 modulo 32. */
  lemma Ip6ExactIff(addr: seq<Word>, plen: nat, off: int, offmask: int)
    requires |addr| == 4 && plen <= 128
    ensures (forall p :: SatAll(p, Ip6Constraints(addr, plen, off, offmask)) == PrefixSat(p, addr, plen, off, offmask))
       <==> plen % 32 != 31
  {
    forall p ensures SatAll(p, Ip6Constraints(addr, plen, off, offmask)) == PrefixSat(p, addr, Ip6Tested(plen), off, offmask) {
      TestedBits(plen);
      Ip6Meaning(p, addr, plen, Ip6Tested(plen), off, offmask);
    }
    if plen % 32 == 31 {
      var p := OneBitOff(addr, plen, off, offmask);
      assert SatAll(p, Ip6Constraints(addr, plen, off, offmask)) == PrefixSat(p, addr, plen + 1, off, offmask);
    }
  }

  /** A packet that carries the address up to bit `n` and differs there. */
  lemma {:induction false} OneBitOff(addr: seq<Word>, n: nat, off: int, offmask: int) returns (p: Packet)
    requires n < 32 * |addr|
    ensures p.disp(offmask) == 0
    ensures PrefixSat(p, addr, n, off, offmask) && !PrefixSat(p, addr, n + 1, off, offmask)
  {
    if n < 32 {
      p := WordBitOff(addr[0], n, off, offmask);
      NothingLeft(p, addr[1..], off + 4, offmask);
    } else {
      var q := OneBitOff(addr[1..], n - 32, off + 4, offmask);
      p := WithWord(q, addr[0], off, offmask);
      SameFrom(p, q, addr[1..], n - 32, off + 4, offmask);
      SameFrom(p, q, addr[1..], n - 31, off + 4, offmask);
    }
  }

  lemma WordBitOff(w: Word, n: nat, off: int, offmask: int) returns (p: Packet)
    requires n < 32
    ensures p.disp(offmask) == 0 && BitsSat(p, w, n, off, offmask) && !BitsSat(p, w, n + 1, off, offmask)
  {
    var base := 8 * off;
    p := Packet(m => 0 <= m - base < 32 && w[m - base] != (m - base == n), _ => 0);
    assert p.bit(8 * (off + p.disp(offmask)) + n) != w[n];
  }

  /** The packet `q` with the word at `off` replaced, and what lies before it. */
  lemma WithWord(q: Packet, w: Word, off: int, offmask: int) returns (p: Packet)
    requires q.disp(offmask) == 0
    ensures p.disp(offmask) == 0 && BitsSat(p, w, 32, off, offmask)
    ensures forall m | m >= 8 * off + 32 :: p.bit(m) == q.bit(m)
  {
    var base := 8 * off;
    p := Packet(m => if m < base + 32 then 0 <= m - base && w[m - base] else q.bit(m), q.disp);
  }

  /** Only the bits from the first word on matter. */
  lemma {:induction false} SameFrom(p: Packet, q: Packet, addr: seq<Word>, n: nat, off: int, offmask: int)
    requires p.disp(offmask) == q.disp(offmask) == 0
    requires forall m | m >= 8 * off :: p.bit(m) == q.bit(m)
    ensures PrefixSat(p, addr, n, off, offmask) == PrefixSat(q, addr, n, off, offmask)
  {
    if addr == [] {
    } else {
      SameFrom(p, q, addr[1..], Beyond(n), off + 4, offmask);
      SameBits(p, q, addr[0], if n < 32 then n else 32, off, offmask);
    }
  }

  lemma SameBits(p: Packet, q: Packet, w: Word, n: nat, off: int, offmask: int)
    requires p.disp(offmask) == q.disp(offmask) == 0 && n <= 32
    requires forall m | m >= 8 * off :: p.bit(m) == q.bit(m)
    ensures BitsSat(p, w, n, off, offmask) == BitsSat(q, w, n, off, offmask)
  {
    forall i | 0 <= i < n
      ensures p.bit(8 * (off + p.disp(offmask)) + i) == w[i] <==> q.bit(8 * (off + q.disp(offmask)) + i) == w[i]
    {
    }
  }

  // ----- Ethernet addresses

  type Octet = b: seq<bool> | |b| == 8 witness Zeros(8)

  const BYTE_MASK: Word := Zeros(24) + Ones(8)

  function EtherConstraint(b: Octet, off: int, offmask: int): Constraint {
    Constraint8(Zeros(24) + b, BYTE_MASK, off, offmask)
  }

  function EtherConstraints(addr: seq<Octet>, n: nat, off: int, offmask: int): (cs: seq<Constraint>)
    requires n <= |addr|
    ensures |cs| == n
  {
    if n == 0 then [] else EtherConstraints(addr, n - 1, off, offmask) + [EtherConstraint(addr[n - 1], off + n - 1, offmask)]
  }

  /** The packet bytes from `off` on are those of the address. */
  predicate BytesSat(p: Packet, addr: seq<Octet>, n: nat, off: int, offmask: int)
    requires n <= |addr|
  {
    n == 0 || (BytesSat(p, addr, n - 1, off, offmask) && BitsSat(p, addr[n - 1], 8, off + n - 1, offmask))
  }

  lemma ByteFits(b: Octet)
    ensures !Exceeds(Zeros(24) + b, 8) && !Exceeds(BYTE_MASK, 8)
  {
    assert (Zeros(24) + b)[..24] == Zeros(24) && BYTE_MASK[..24] == Zeros(24);
  }

  lemma ByteMeaning(p: Packet, b: Octet, off: int, offmask: int)
    ensures Sat(p, EtherConstraint(b, off, offmask)) <==> BitsSat(p, b, 8, off, offmask)
  {
    ByteFits(b);
    Key8Meaning(p, Zeros(24) + b, BYTE_MASK, off, offmask);
    assert (Zeros(24) + b)[24..] == b && BYTE_MASK[24..] == Ones(8);
    FullField(p, b, off, offmask);
  }

  lemma FullField(p: Packet, b: Octet, off: int, offmask: int)
    ensures FieldSat(p, b, Ones(8), off, offmask) <==> BitsSat(p, b, 8, off, offmask)
  {
  }

  /** Packing an Ethernet address, byte by byte, constrains exactly its bytes. */
  lemma {:induction false} EtherMeaning(p: Packet, addr: seq<Octet>, n: nat, off: int, offmask: int)
    requires n <= |addr|
    ensures SatAll(p, EtherConstraints(addr, n, off, offmask)) <==> BytesSat(p, addr, n, off, offmask)
  {
    if n == 0 {
    } else {
      EtherMeaning(p, addr, n - 1, off, offmask);
      EtherByte(p, EtherConstraints(addr, n - 1, off, offmask), addr[n - 1], off + n - 1, offmask);
    }
  }

  lemma EtherByte(p: Packet, cs: seq<Constraint>, b: Octet, off: int, offmask: int)
    ensures SatAll(p, cs + [EtherConstraint(b, off, offmask)]) <==> SatAll(p, cs) && BitsSat(p, b, 8, off, offmask)
  {
    ByteMeaning(p, b, off, offmask);
    SatAllSnoc(p, cs, EtherConstraint(b, off, offmask));
  }

  lemma {:induction false} EtherRefused(log: seq<Constraint>, addr: seq<Octet>, n: nat, m: nat, off: int, offmask: int)
    requires n <= m <= |addr| && PackAll([], log + EtherConstraints(addr, n, off, offmask)).None?
    ensures PackAll([], log + EtherConstraints(addr, m, off, offmask)).None?
    decreases m
  {
    if m == n {
    } else {
      EtherRefused(log, addr, n, m - 1, off, offmask);
      EtherNext(log, addr, m - 1, off, offmask);
      StillRefused(log + EtherConstraints(addr, m - 1, off, offmask), EtherConstraint(addr[m - 1], off + m - 1, offmask));
    }
  }

  lemma StillRefused(log: seq<Constraint>, c: Constraint)
    requires PackAll([], log).None?
    ensures PackAll([], log + [c]).None?
  {
    PackAllSnoc([], log, c);
  }

  /** One more byte packs one more constraint. */
  lemma EtherNext(log: seq<Constraint>, addr: seq<Octet>, n: nat, off: int, offmask: int)
    requires n < |addr|
    ensures log + EtherConstraints(addr, n + 1, off, offmask)
         == (log + EtherConstraints(addr, n, off, offmask)) + [EtherConstraint(addr[n], off + n, offmask)]
  {
    var cs, c := EtherConstraints(addr, n, off, offmask), EtherConstraint(addr[n], off + n, offmask);
    assert log + (cs + [c]) == (log + cs) + [c];
  }

  // ----- the selector that the callers fill in place

  class Selector {
    var keys: array<Key>
    var nkeys: nat
    ghost var log: seq<Constraint>  // the constraints accepted so far

    ghost predicate Valid()
      reads this, keys
    {
      keys.Length == MAX_KEYS && nkeys <= MAX_KEYS && TableOk(keys[..nkeys]) && PackAll([], log) == Some(keys[..nkeys])
    }

    ghost function Table(): seq<Key>
      reads this, keys
      requires nkeys <= keys.Length
    {
      keys[..nkeys]
    }

    constructor ()
      ensures Valid() && log == [] && fresh(keys)
    {
      keys := new Key[MAX_KEYS](_ => Key(Zeros(32), Zeros(32), 0, 0));
      nkeys := 0;
      log := [];
    }

    /** Finds the key of the slot and merges into it, or appends a key; refusal changes nothing. */
    method Merge(key: Word, mask: Word, off: int, offmask: int) returns (ok: bool)
      requires keys.Length == MAX_KEYS && nkeys <= MAX_KEYS
      modifies this`nkeys, keys
      ensures nkeys <= MAX_KEYS
      ensures var r := Pack(old(Table()), Constraint(key, mask, off, offmask));
              ok == r.Some? && Table() == if ok then r.value else old(Table())
    {
      ghost var t, c := Table(), Constraint(key, mask, off, offmask);
      var hwm := nkeys;
      var masked := And(key, mask);
      var i := 0;
      while i < hwm
        invariant 0 <= i <= hwm == nkeys && Table() == t
        invariant forall j | 0 <= j < i :: !SameSlot(t[j], off, offmask)
      {
        if keys[i].off == off && keys[i].offmask == offmask {
          FindAt(t, off, offmask, i);
          var intersect := And(mask, keys[i].mask);
          if !IsZero(And(Xor(masked, keys[i].val), intersect)) {
            return false;
          }
          keys[i] := keys[i].(val := Or(keys[i].val, masked), mask := Or(keys[i].mask, mask));
          assert Table() == t[i := Merged(t[i], c)];
          return true;
        }
        i := i + 1;
      }
      FindAt(t, off, offmask, hwm);
      if hwm >= MAX_KEYS || off % 4 != 0 {
        return false;
      }
      keys[hwm] := Key(masked, mask, off, offmask);
      nkeys := nkeys + 1;
      assert Table() == t + [Key(masked, mask, off, offmask)];
      return true;
    }

    /** Accepts a constraint exactly when the table has room for it and it clashes with no key. */
    method PackKey(key: Word, mask: Word, off: int, offmask: int) returns (ok: bool)
      requires Valid()
      modifies this`nkeys, this`log, keys
      ensures Valid()
      ensures ok == Pack(old(Table()), Constraint(key, mask, off, offmask)).Some?
      ensures log == old(log) + if ok then [Constraint(key, mask, off, offmask)] else []
      ensures !ok ==> PackAll([], old(log) + [Constraint(key, mask, off, offmask)]).None?
    {
      ghost var t, c := Table(), Constraint(key, mask, off, offmask);
      ok := Merge(key, mask, off, offmask);
      PackAllSnoc([], log, c);
      if ok {
        PackMeaning(t, c, Packet(_ => false, _ => 0));
        log := log + [c];
      } else {
        assert log + [] == log;
      }
    }

    method PackKey8(key: Word, mask: Word, off: int, offmask: int) returns (ok: bool)
      requires Valid()
      modifies this`nkeys, this`log, keys
      ensures Valid()
      ensures ok == (!Exceeds(key, 8) && !Exceeds(mask, 8) && Pack(old(Table()), Constraint8(key, mask, off, offmask)).Some?)
      ensures log == old(log) + if ok then [Constraint8(key, mask, off, offmask)] else []
      ensures !ok && !Exceeds(key, 8) && !Exceeds(mask, 8) ==>
                PackAll([], old(log) + [Constraint8(key, mask, off, offmask)]).None?
    {
      if Exceeds(key, 8) || Exceeds(mask, 8) {
        return false;
      }
      var shift := ByteShift(off % 4);
      ok := PackKey(Shl(key, shift), Shl(mask, shift), off - off % 4, offmask);
    }

    method PackKey16(key: Word, mask: Word, off: int, offmask: int) returns (ok: bool)
      requires Valid()
      modifies this`nkeys, this`log, keys
      ensures Valid()
      ensures ok == (!Exceeds(key, 16) && !Exceeds(mask, 16) && Pack(old(Table()), Constraint16(key, mask, off, offmask)).Some?)
      ensures log == old(log) + if ok then [Constraint16(key, mask, off, offmask)] else []
    {
      if Exceeds(key, 16) || Exceeds(mask, 16) {
        return false;
      }
      var shift := if off % 4 == 0 then 16 else 0;
      ok := PackKey(Shl(key, shift), Shl(mask, shift), off - off % 4, offmask);
    }

    /** The packing part of `parse_ip_addr`. */
    method PackIpAddr(addr: Word, bitlen: nat, off: int, offmask: int) returns (ok: bool)
      requires Valid() && bitlen <= 32
      modifies this`nkeys, this`log, keys
      ensures Valid()
      ensures ok == Pack(old(Table()), IpConstraint(addr, bitlen, off, offmask)).Some?
      ensures log == old(log) + if ok then [IpConstraint(addr, bitlen, off, offmask)] else []
      ensures !ok ==> PackAll([], old(log) + [IpConstraint(addr, bitlen, off, offmask)]).None?
    {
      var mask := Zeros(32);
      if bitlen != 0 {
        mask := PrefixMask(bitlen);
      }
      ok := PackKey(addr, mask, off, offmask);
    }

    /** One turn of the loop over the words of an IPv6 address; `left` are the words still to pack. */
    method PackIp6Word(addr: seq<Word>, plen: nat, i: nat, off: int, offmask: int, ghost left: seq<Word>, ghost place: int)
      returns (ok: bool)
      requires Valid() && i < plen && i / 32 < |addr|
      requires left != [] && left[0] == addr[i / 32] && place == off + 4 * (i / 32)
      modifies this`nkeys, this`log, keys
      ensures Valid()
      ensures log == old(log) + if ok then [Ip6Constraint(left, plen - i, place, offmask)] else []
      ensures !ok ==> PackAll([], old(log) + [Ip6Constraint(left, plen - i, place, offmask)]).None?
    {
      var word := i / 32;
      var bits := if i + 31 <= plen then 32 else plen - i;
      ok := PackIpAddr(addr[word], bits, off + 4 * word, offmask);
    }

    /**
     The packing part of `parse_ip6_addr`.  It succeeds exactly when all the words can be packed one
     after the other; a refused word leaves the earlier words packed.
     */
    method PackIp6Addr(addr: seq<Word>, plen: nat, off: int, offmask: int) returns (ok: bool)
      requires Valid() && |addr| == 4 && plen <= 128
      modifies this`nkeys, this`log, keys
      ensures Valid()
      ensures ok <==> PackAll(old(Table()), Ip6Constraints(addr, plen, off, offmask)).Some?
      ensures ok ==> log == old(log) + Ip6Constraints(addr, plen, off, offmask)
    {
      PackAllAppend([], log, Ip6Constraints(addr, plen, off, offmask));
      ok := PackIp6From(addr, plen, off, offmask, log + Ip6Constraints(addr, plen, off, offmask));
    }

    method PackIp6From(addr: seq<Word>, plen: nat, off: int, offmask: int, ghost all: seq<Constraint>) returns (ok: bool)
      requires Valid() && |addr| == 4 && plen <= 128 && all == log + Ip6Constraints(addr, plen, off, offmask)
      modifies this`nkeys, this`log, keys
      ensures Valid() && (ok <==> PackAll([], all).Some?) && (ok ==> log == all)
    {
      var i := 0;
      ghost var k, left, place, rest := 0, addr, off, plen;
      while i < plen
        invariant AtWord(i, k, addr, plen, off, left, place, rest) && Valid()
        invariant all == log + Ip6Constraints(left, rest, place, offmask)
        decreases |left|
      {
        AtWordNext(i, k, addr, plen, off, left, place, rest);
        Ip6Shift(log, left, rest, place, offmask);
        ghost var c, more := Ip6Constraint(left, rest, place, offmask), Ip6Constraints(left[1..], Beyond(rest), place + 4, offmask);
        ghost var before := log;
        ok := PackIp6Word(addr, plen, i, off, offmask, left, place);
        if !ok {
          RefusedForGood(before, c, more);
          return;
        }
        k, left, place, rest := k + 1, left[1..], place + 4, Beyond(rest);
        i := i + 32;
      }
      assert all == log;
      ok := true;
    }

    /** The packing part of `parse_ether_addr`: succeeds exactly when all six bytes can be packed one after the other. */
    method PackEtherAddr(addr: seq<Octet>, off: int, offmask: int) returns (ok: bool)
      requires Valid() && |addr| == 6
      modifies this`nkeys, this`log, keys
      ensures Valid()
      ensures ok <==> PackAll(old(Table()), EtherConstraints(addr, |addr|, off, offmask)).Some?
      ensures ok ==> log == old(log) + EtherConstraints(addr, |addr|, off, offmask)
    {
      PackAllAppend([], log, EtherConstraints(addr, |addr|, off, offmask));
      ghost var log0, upto := log, 0;
      ok, upto := PackBytes(addr, off, offmask);
      if !ok {
        EtherRefused(log0, addr, upto + 1, |addr|, off, offmask);
      }
    }

    method PackBytes(addr: seq<Octet>, off: int, offmask: int) returns (ok: bool, ghost upto: nat)
      requires Valid()
      modifies this`nkeys, this`log, keys
      ensures Valid()
      ensures ok ==> log == old(log) + EtherConstraints(addr, |addr|, off, offmask)
      ensures !ok ==> upto < |addr| && PackAll([], old(log) + EtherConstraints(addr, upto + 1, off, offmask)).None?
    {
      ghost var log0 := log;
      for i := 0 to |addr|
        invariant Valid() && log == log0 + EtherConstraints(addr, i, off, offmask)
      {
        ok := PackByte(addr, i, off, offmask, log0);
        if !ok {
          return false, i;
        }
      }
      return true, |addr|;
    }

    method PackByte(addr: seq<Octet>, i: nat, off: int, offmask: int, ghost log0: seq<Constraint>) returns (ok: bool)
      requires Valid() && i < |addr| && log == log0 + EtherConstraints(addr, i, off, offmask)
      modifies this`nkeys, this`log, keys
      ensures Valid()
      ensures ok ==> log == log0 + EtherConstraints(addr, i + 1, off, offmask)
      ensures !ok ==> PackAll([], log0 + EtherConstraints(addr, i + 1, off, offmask)).None?
    {
      ok := PackOctet(addr[i], off + i, offmask);
      EtherNext(log0, addr, i, off, offmask);
    }

    method PackOctet(b: Octet, off: int, offmask: int) returns (ok: bool)
      requires Valid()
      modifies this`nkeys, this`log, keys
      ensures Valid()
      ensures log == old(log) + if ok then [EtherConstraint(b, off, offmask)] else []
      ensures !ok ==> PackAll([], old(log) + [EtherConstraint(b, off, offmask)]).None?
    {
      ByteFits(b);
      ok := PackKey8(Zeros(24) + b, BYTE_MASK, off, offmask);
    }
  }

  /** A selector built by any calls selects the packets that meet every constraint it accepted. */
  lemma SelectorMeaning(log: seq<Constraint>, p: Packet)
    requires PackAll([], log).Some?
    ensures TableOk(PackAll([], log).value) && (Matches(p, PackAll([], log).value) <==> SatAll(p, log))
  {
    PackAllMeaning([], log, p);
  }

  lemma {:induction false} SatAllAppend(p: Packet, a: seq<Constraint>, b: seq<Constraint>)
    ensures SatAll(p, a + b) <==> SatAll(p, a) && SatAll(p, b)
  {
    if a == [] {
      assert a + b == b;
    } else {
      assert (a + b)[1..] == a[1..] + b;
      SatAllAppend(p, a[1..], b);
    }
  }

  /** `k` steps of a given width */
  function Steps(k: nat, width: nat): nat {
    if k == 0 then 0 else Steps(k - 1, width) + width
  }

  /** The loop stands at word `k` of the four; `left` are the words from there on, `rest` the bits. */
  predicate AtWord(i: int, k: nat, addr: seq<Word>, plen: nat, off: int, left: seq<Word>, place: int, rest: nat)
    requires |addr| == 4
  {
    && k <= 4 && i == Steps(k, 32) && left == addr[k..]
    && place == off + Steps(k, 4) && rest == if i < plen then plen - i else 0
  }

  lemma AtWordNext(i: int, k: nat, addr: seq<Word>, plen: nat, off: int, left: seq<Word>, place: int, rest: nat)
    requires |addr| == 4 && AtWord(i, k, addr, plen, off, left, place, rest) && i < plen <= 128
    ensures 0 <= i && i / 32 == k < 4 && left != [] && left[0] == addr[i / 32] && place == off + 4 * (i / 32)
    ensures AtWord(i + 32, k + 1, addr, plen, off, left[1..], place + 4, Beyond(rest))
  {
    assert Steps(1, 32) == 32 && Steps(2, 32) == 64 && Steps(3, 32) == 96 && Steps(4, 32) == 128;
    assert Steps(1, 4) == 4 && Steps(2, 4) == 8 && Steps(3, 4) == 12;
    assert k == 0 || k == 1 || k == 2 || k == 3;
  }

  lemma Ip6Shift(log: seq<Constraint>, addr: seq<Word>, plen: nat, off: int, offmask: int)
    requires addr != [] && plen > 0
    ensures log + Ip6Constraints(addr, plen, off, offmask)
         == (log + [Ip6Constraint(addr, plen, off, offmask)]) + Ip6Constraints(addr[1..], Beyond(plen), off + 4, offmask)
  {
  }

  /** A packed IPv6 prefix narrows the selection by its tested leading bits. */
  lemma PackedIp6(log: seq<Constraint>, addr: seq<Word>, plen: nat, off: int, offmask: int, p: Packet)
    ensures SatAll(p, log + Ip6Constraints(addr, plen, off, offmask))
       <==> SatAll(p, log) && PrefixSat(p, addr, Ip6Tested(plen), off, offmask)
  {
    SatAllAppend(p, log, Ip6Constraints(addr, plen, off, offmask));
    TestedBits(plen);
    Ip6Meaning(p, addr, plen, Ip6Tested(plen), off, offmask);
  }

  /** A packed Ethernet address narrows the selection by its six bytes. */
  lemma PackedEther(log: seq<Constraint>, addr: seq<Octet>, off: int, offmask: int, p: Packet)
    requires |addr| == 6
    ensures SatAll(p, log + EtherConstraints(addr, |addr|, off, offmask))
       <==> SatAll(p, log) && BytesSat(p, addr, |addr|, off, offmask)
  {
    SatAllAppend(p, log, EtherConstraints(addr, |addr|, off, offmask));
    EtherMeaning(p, addr, |addr|, off, offmask);
  }

  lemma FindAt(t: seq<Key>, off: int, offmask: int, i: nat)
    requires i <= |t| && (i < |t| ==> SameSlot(t[i], off, offmask))
    requires forall j | 0 <= j < i :: !SameSlot(t[j], off, offmask)
    ensures Find(t, off, offmask) == i
  {
  }
}
