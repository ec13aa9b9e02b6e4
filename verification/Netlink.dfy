/**
 Attributes of netlink messages, lib/libnetlink.c: appending them to a message
 buffer in place, nesting them, and parsing them back.

 An attribute is a four-byte header (length, then type, both 16 bits, little
 endian) and its payload; the next one starts at the next multiple of four.
 */
module Netlink {
  import opened Basics

  /** `RTA_ALIGN` and `NLMSG_ALIGN`: up to the next multiple of four. */
  function Align(n: nat): (r: nat)
    ensures n <= r < n + 4
  {
    if n == 0 then 0 else if n <= 4 then 4 else 4 + Align(n - 4)
  }

  predicate Aligned(n: nat) {
    Align(n) == n
  }

  /** `(len + 3) & ~3` */
  lemma {:induction false} AlignIsMask(n: nat)
    ensures Align(n) == (n + 3) / 4 * 4
  {
    if n <= 4 {
    } else {
      AlignIsMask(n - 4);
    }
  }

  lemma {:induction false} AlignAdd(a: nat, b: nat)
    requires Aligned(a)
    ensures Align(a + b) == a + Align(b)
  {
    if a == 0 {
    } else {
      assert a > 3;
      if a == 4 {
        assert Align(4 + b) == 4 + Align(b);
      } else {
        AlignAdd(a - 4, b);
      }
    }
  }

  lemma {:induction false} AlignTwice(n: nat)
    ensures Aligned(Align(n))
  {
    if n <= 4 {
    } else {
      AlignTwice(n - 4);
    }
  }

  // ----- little-endian fields

  /** The number in the two bytes from `pos` */
  function Get16(b: seq<Byte>, pos: nat): nat
    requires pos + 2 <= |b|
  {
    b[pos] as int + 256 * b[pos + 1] as int
  }

  /** The number in the four bytes from `pos` */
  function Get32(b: seq<Byte>, pos: nat): nat
    requires pos + 4 <= |b|
  {
    Get16(b, pos) + 0x1_0000 * Get16(b, pos + 2)
  }

  /** The two bytes of `n` truncated to 16 bits */
  function Put16(n: nat): (b: seq<Byte>)
    ensures |b| == 2
  {
    [n % 256, n / 256 % 256]
  }

  /** The four bytes of `n` truncated to 32 bits */
  function Put32(n: nat): (b: seq<Byte>)
    ensures |b| == 4
  {
    Put16(n) + Put16(n / 0x1_0000)
  }

  lemma GetPut16(b: seq<Byte>, pos: nat, n: nat)
    requires n < 0x1_0000 && pos + 2 <= |b| && b[pos..pos + 2] == Put16(n)
    ensures Get16(b, pos) == n
  {
    assert b[pos] == b[pos..pos + 2][0] && b[pos + 1] == b[pos..pos + 2][1];
  }

  lemma Same16(b: seq<Byte>, pos: nat, c: seq<Byte>, at: nat)
    requires pos + 2 <= |b| && at + 2 <= |c| && b[pos..pos + 2] == c[at..at + 2]
    ensures Get16(b, pos) == Get16(c, at)
  {
    assert b[pos] == b[pos..pos + 2][0] == c[at..at + 2][0] == c[at];
    assert b[pos + 1] == b[pos..pos + 2][1] == c[at..at + 2][1] == c[at + 1];
  }

  lemma Same32(b: seq<Byte>, pos: nat, c: seq<Byte>, at: nat)
    requires pos + 4 <= |b| && at + 4 <= |c| && b[pos..pos + 4] == c[at..at + 4]
    ensures Get32(b, pos) == Get32(c, at)
  {
    var x, y := b[pos..pos + 4], c[at..at + 4];
    assert b[pos..pos + 2] == x[..2] && c[at..at + 2] == y[..2];
    assert b[pos + 2..pos + 2 + 2] == x[2..] && c[at + 2..at + 2 + 2] == y[2..];
    Same16(b, pos, c, at);
    Same16(b, pos + 2, c, at + 2);
  }

  function Header(len: nat, ty: nat): (h: seq<Byte>)
    ensures |h| == 4
  {
    Put16(len) + Put16(ty)
  }

  function RtaLen(b: seq<Byte>, pos: nat): nat
    requires pos + 4 <= |b|
  {
    Get16(b, pos)
  }

  function RtaType(b: seq<Byte>, pos: nat): nat
    requires pos + 4 <= |b|
  {
    Get16(b, pos + 2)
  }

  lemma HeaderFields(b: seq<Byte>, pos: nat, len: nat, ty: nat)
    requires pos + 4 <= |b| && b[pos..pos + 4] == Header(len, ty) && len < 0x1_0000 && ty < 0x1_0000
    ensures RtaLen(b, pos) == len && RtaType(b, pos) == ty
  {
    var h := b[pos..pos + 4];
    assert b[pos..pos + 2] == h[..2] && b[pos + 2..pos + 2 + 2] == h[2..];
    GetPut16(b, pos, len);
    GetPut16(b, pos + 2, ty);
  }

  // ----- parsing

  /** `RTA_OK` for the attribute at `pos`, of which `|b| - pos` bytes are left. */
  predicate RtaOk(b: seq<Byte>, pos: nat) {
    pos + 4 <= |b| && 4 <= RtaLen(b, pos) <= |b| - pos
  }

  /** An attribute found: its place and its type. */
  datatype Head = Head(off: nat, ty: nat)

  /** What a walk finds, and the bytes left over: the deficit, negative after an unaligned end. */
  datatype Walk = Walk(heads: seq<Head>, left: int)

  function WalkFrom(b: seq<Byte>, pos: nat): Walk
    decreases |b| - pos
  {
    if !RtaOk(b, pos) then Walk([], |b| - pos)
    else Before(Head(pos, RtaType(b, pos)), WalkFrom(b, pos + Align(RtaLen(b, pos))))
  }

  function Before(h: Head, w: Walk): Walk {
    Walk([h] + w.heads, w.left)
  }

  lemma WalkStep(b: seq<Byte>, pos: nat, next: nat)
    requires RtaOk(b, pos) && next == pos + Align(RtaLen(b, pos))
    ensures WalkFrom(b, pos) == Before(Head(pos, RtaType(b, pos)), WalkFrom(b, next))
  {
  }

  lemma WalkEnd(b: seq<Byte>, pos: nat)
    requires !RtaOk(b, pos)
    ensures WalkFrom(b, pos) == Walk([], |b| - pos)
  {
  }

  /** A walk that found `done` first. */
  function After(done: seq<Head>, w: Walk): Walk {
    Walk(done + w.heads, w.left)
  }

  lemma AfterBefore(done: seq<Head>, h: Head, w: Walk)
    ensures After(done, Before(h, w)) == After(done + [h], w)
  {
  }

  /** The place of the first attribute of a type, or -1. */
  function First(hs: seq<Head>, ty: nat): int {
    if hs == [] then -1 else if hs[0].ty == ty then hs[0].off else First(hs[1..], ty)
  }

  lemma {:induction false} FirstSnoc(hs: seq<Head>, h: Head, ty: nat)
    ensures First(hs + [h], ty) == if First(hs, ty) != -1 then First(hs, ty) else if h.ty == ty then h.off else -1
  {
    if hs == [] {
      assert hs + [h] == [h];
    } else {
      assert (hs + [h])[1..] == hs[1..] + [h];
      FirstSnoc(hs[1..], h, ty);
    }
  }

  /** The table after the attributes `done`: the first of each type, -1 standing for NULL. */
  ghost predicate Filled(t: seq<int>, done: seq<Head>) {
    forall ty | 0 <= ty < |t| :: t[ty] == First(done, ty)
  }

  lemma FilledSnoc(t: seq<int>, done: seq<Head>, h: Head)
    requires Filled(t, done)
    ensures Filled(if h.ty < |t| && t[h.ty] == -1 then t[h.ty := h.off] else t, done + [h])
  {
    forall ty | 0 <= ty < |t|
      ensures First(done + [h], ty) == if t[ty] != -1 then t[ty] else if h.ty == ty then h.off else -1
    {
      FirstSnoc(done, h, ty);
    }
  }

  /** Fills `tb` with the place of the first attribute of each type up to `max`; -1 stands for NULL. */
  method ParseRtattr(tb: array<int>, max: nat, b: seq<Byte>) returns (deficit: int)
    requires tb.Length == max + 1
    modifies tb
    ensures forall ty | 0 <= ty <= max :: tb[ty] == First(WalkFrom(b, 0).heads, ty)
    ensures deficit == WalkFrom(b, 0).left
  {
    forall ty | 0 <= ty <= max {
      tb[ty] := -1;
    }
    var pos: nat, len: int := 0, |b|;
    ghost var done: seq<Head>, all := [], WalkFrom(b, 0);
    while len >= 4 && RtaLen(b, pos) >= 4 && RtaLen(b, pos) <= len
      invariant len == |b| - pos && Filled(tb[..], done)
      invariant all == After(done, WalkFrom(b, pos))
      decreases |b| - pos
    {
      var ty, step := RtaType(b, pos), Align(RtaLen(b, pos));
      WalkStep(b, pos, pos + step);
      AfterBefore(done, Head(pos, ty), WalkFrom(b, pos + step));
      done := Note(tb, Head(pos, ty), done);
      len := len - step;
      pos := pos + step;
    }
    deficit := len;
    WalkEnd(b, pos);
    assert done + [] == done;
    assert forall ty | 0 <= ty <= max :: tb[ty] == tb[..][ty];
  }

  /** Keeps an attribute if it is the first of its type. */
  method Note(tb: array<int>, h: Head, ghost done: seq<Head>) returns (ghost done': seq<Head>)
    requires Filled(tb[..], done)
    modifies tb
    ensures done' == done + [h] && Filled(tb[..], done')
  {
    done' := done + [h];
    FilledSnoc(tb[..], done, h);
    ghost var t := tb[..];
    if h.ty < tb.Length && tb[h.ty] == -1 {
      tb[h.ty] := h.off;
      assert tb[..] == t[h.ty := h.off];
    }
  }

  /** Of any bytes at all: the attributes found lie wholly inside them, one after the other. */
  lemma {:induction false} FoundInside(b: seq<Byte>, pos: nat, i: nat)
    requires i < |WalkFrom(b, pos).heads|
    ensures var hs := WalkFrom(b, pos).heads;
            var o := hs[i].off;
            && pos <= o && RtaOk(b, o) && RtaType(b, o) == hs[i].ty && o + RtaLen(b, o) <= |b|
            && (i + 1 < |hs| ==> o + RtaLen(b, o) <= hs[i + 1].off)
    decreases |b| - pos
  {
    var next := pos + Align(RtaLen(b, pos));
    WalkStep(b, pos, next);
    if i > 0 {
      FoundInside(b, next, i - 1);
    } else if |WalkFrom(b, next).heads| > 0 {
      FoundInside(b, next, 0);
    }
  }

  /** No two of the attributes found overlap. */
  lemma {:induction false} FoundApart(b: seq<Byte>, i: nat, j: nat)
    requires i < j < |WalkFrom(b, 0).heads|
    ensures var hs := WalkFrom(b, 0).heads; RtaOk(b, hs[i].off) && hs[i].off + RtaLen(b, hs[i].off) <= hs[j].off
    decreases j
  {
    FoundInside(b, 0, i);
    if i + 1 == j {
    } else {
      FoundInside(b, 0, j - 1);
      FoundApart(b, i, j - 1);
    }
  }

  /** What is kept for a type is the first of the attributes found that has the type. */
  lemma {:induction false} FirstIsFound(hs: seq<Head>, ty: nat) returns (i: nat)
    ensures i <= |hs| && First(hs, ty) == (if i < |hs| then hs[i].off else -1)
    ensures (i < |hs| ==> hs[i].ty == ty) && forall j | 0 <= j < i :: hs[j].ty != ty
  {
    if hs == [] || hs[0].ty == ty {
      i := 0;
    } else {
      i := FirstIsFound(hs[1..], ty);
      assert forall j | 0 < j <= i :: hs[j].ty == hs[1..][j - 1].ty;
      i := i + 1;
    }
  }

  /** Where the header fields lie: length, then type, low byte first. */
  lemma HeaderLayout(b: seq<Byte>, pos: nat)
    requires pos + 4 <= |b|
    ensures RtaLen(b, pos) == b[pos] as int + 0x100 * b[pos + 1] as int
    ensures RtaType(b, pos) == b[pos + 2] as int + 0x100 * b[pos + 3] as int
  {
  }

  /** The walk stops exactly where fewer than four bytes are left, or the length is below four or beyond the end. */
  lemma StopsExactly(b: seq<Byte>, pos: nat)
    ensures WalkFrom(b, pos).heads == []
       <==> |b| < pos + 4 || Get16(b, pos) < 4 || Get16(b, pos) > |b| - pos
  {
  }

  // ----- attribute trees

  datatype Attr =
    | Leaf(ty: nat, payload: seq<Byte>)
    | Nest(ty: nat, kids: seq<Attr>)

  /** Bytes that a list of attributes takes, padding included. */
  function Size(attrs: seq<Attr>): (n: nat)
    decreases attrs
  {
    if attrs == [] then 0 else Align(AttrLen(attrs[0])) + Size(attrs[1..])
  }

  lemma {:induction false} SizeAligned(attrs: seq<Attr>)
    ensures Aligned(Size(attrs))
    decreases attrs
  {
    if attrs == [] {
    } else {
      SizeAligned(attrs[1..]);
      AlignTwice(AttrLen(attrs[0]));
      AlignAdd(Align(AttrLen(attrs[0])), Size(attrs[1..]));
    }
  }

  function AttrLen(t: Attr): nat
    decreases t
  {
    match t
    case Leaf(_, p) => 4 + |p|
    case Nest(_, kids) => 4 + Size(kids)
  }

  /** Types and lengths fit their 16-bit fields. */
  predicate Fits(attrs: seq<Attr>)
    decreases attrs
  {
    attrs == [] || (FitsOne(attrs[0]) && Fits(attrs[1..]))
  }

  predicate FitsOne(t: Attr)
    decreases t
  {
    t.ty < 0x1_0000 && AttrLen(t) < 0x1_0000 && (t.Nest? ==> Fits(t.kids))
  }

  /** The bytes are these attributes, in order and with nothing else; padding may hold anything. */
  ghost predicate Encodes(b: seq<Byte>, attrs: seq<Attr>)
    decreases attrs, 0
  {
    if attrs == [] then b == []
    else
      && |b| >= 4 && 4 <= RtaLen(b, 0) && Align(RtaLen(b, 0)) <= |b|
      && EncodesOne(b[..RtaLen(b, 0)], attrs[0])
      && Encodes(b[Align(RtaLen(b, 0))..], attrs[1..])
  }

  /** Header and payload of one attribute, without its padding. */
  ghost predicate EncodesOne(b: seq<Byte>, t: Attr)
    decreases t, 1
  {
    && |b| >= 4 && RtaLen(b, 0) == |b| == AttrLen(t) && RtaType(b, 0) == t.ty
    && match t
       case Leaf(_, p) => b[4..] == p
       case Nest(_, kids) => Encodes(b[4..], kids)
  }

  lemma SameHeader(b: seq<Byte>, pos: nat, c: seq<Byte>, at: nat)
    requires pos + 4 <= |b| && at + 4 <= |c| && b[pos..pos + 4] == c[at..at + 4]
    ensures RtaLen(b, pos) == RtaLen(c, at) && RtaType(b, pos) == RtaType(c, at)
  {
    assert b[pos..pos + 2] == b[pos..pos + 4][..2] && c[at..at + 2] == c[at..at + 4][..2];
    assert b[pos + 2..pos + 2 + 2] == b[pos..pos + 4][2..] && c[at + 2..at + 2 + 2] == c[at..at + 4][2..];
    Same16(b, pos, c, at);
    Same16(b, pos + 2, c, at + 2);
  }

  lemma FrontOf(b: seq<Byte>, c: seq<Byte>, n: nat)
    requires |b| >= 4 && n == RtaLen(b, 0) && Align(n) <= |b|
    ensures RtaLen(b + c, 0) == n && (b + c)[..n] == b[..n] && (b + c)[Align(n)..] == b[Align(n)..] + c
  {
    assert (b + c)[0..0 + 4] == b[0..0 + 4];
    SameHeader(b + c, 0, b, 0);
  }

  lemma EncodesCons(b: seq<Byte>, n: nat, attrs: seq<Attr>)
    requires attrs != [] && |b| >= 4 && 4 <= n == RtaLen(b, 0) && Align(n) <= |b|
    requires EncodesOne(b[..n], attrs[0]) && Encodes(b[Align(n)..], attrs[1..])
    ensures Encodes(b, attrs)
  {
  }

  lemma AppendStep(b: seq<Byte>, n: nat, attrs: seq<Attr>, c: seq<Byte>, more: seq<Attr>)
    requires attrs != [] && |b| >= 4 && 4 <= n == RtaLen(b, 0) && Align(n) <= |b|
    requires EncodesOne(b[..n], attrs[0]) && Encodes(b[Align(n)..] + c, attrs[1..] + more)
    ensures Encodes(b + c, attrs + more)
  {
    FrontOf(b, c, n);
    assert (attrs + more)[1..] == attrs[1..] + more && (attrs + more)[0] == attrs[0];
    EncodesCons(b + c, n, attrs + more);
  }

  /** Attribute lists may be put one behind the other. */
  lemma {:induction false} EncodesAppend(b: seq<Byte>, attrs: seq<Attr>, c: seq<Byte>, more: seq<Attr>)
    requires Encodes(b, attrs) && Encodes(c, more)
    ensures Encodes(b + c, attrs + more)
    decreases attrs
  {
    if attrs == [] {
      assert b + c == c && attrs + more == more;
    } else {
      var n := RtaLen(b, 0);
      EncodesAppend(b[Align(n)..], attrs[1..], c, more);
      AppendStep(b, n, attrs, c, more);
    }
  }

  /** One attribute and any padding is a list of one. */
  lemma EncodesSingle(b: seq<Byte>, t: Attr)
    requires |b| == Align(AttrLen(t)) && EncodesOne(b[..AttrLen(t)], t)
    ensures Encodes(b, [t])
  {
    var n := AttrLen(t);
    assert b[0..0 + 4] == b[..n][0..0 + 4];
    SameHeader(b, 0, b[..n], 0);
    assert [t][1..] == [] && b[Align(n)..] == [];
    assert Encodes(b[Align(n)..], [t][1..]);
  }

  // ----- what the parser finds in encoded attributes

  /** The walk over encoded attributes consumes them exactly and finds them all, in order. */
  lemma {:induction false} ParseEncoded(b: seq<Byte>, pos: nat, attrs: seq<Attr>)
    requires pos <= |b| && Encodes(b[pos..], attrs)
    ensures ParsedAs(b, pos, attrs)
    decreases attrs
  {
    if attrs == [] {
      assert |b[pos..]| == 0;
    } else {
      var next := HeadFound(b, pos, attrs);
      ParseEncoded(b, next, attrs[1..]);
      ParseStep(b, pos, next, attrs);
    }
  }

  ghost predicate ParsedAs(b: seq<Byte>, pos: nat, attrs: seq<Attr>) {
    WalkFrom(b, pos).left == 0 && AllFound(b, WalkFrom(b, pos).heads, attrs)
  }

  lemma ParseStep(b: seq<Byte>, pos: nat, next: nat, attrs: seq<Attr>)
    requires attrs != [] && Found(b, pos, attrs[0]) && next == pos + Align(RtaLen(b, pos))
    requires ParsedAs(b, next, attrs[1..])
    ensures ParsedAs(b, pos, attrs)
  {
    WalkStep(b, pos, next);
    FoundParts(b, pos, attrs[0]);
    AllFoundCons(b, Head(pos, RtaType(b, pos)), WalkFrom(b, next).heads, attrs[0], attrs[1..]);
    assert [attrs[0]] + attrs[1..] == attrs;
  }

  lemma AllFoundCons(b: seq<Byte>, h: Head, hs: seq<Head>, t: Attr, attrs: seq<Attr>)
    requires h.ty == t.ty && Found(b, h.off, t) && AllFound(b, hs, attrs)
    ensures AllFound(b, [h] + hs, [t] + attrs)
  {
    assert ([h] + hs)[1..] == hs && ([t] + attrs)[1..] == attrs;
  }

  /** One attribute found for each of the list, in order. */
  ghost predicate AllFound(b: seq<Byte>, hs: seq<Head>, attrs: seq<Attr>) {
    && |hs| == |attrs|
    && (hs == []
        || (hs[0].ty == attrs[0].ty && Found(b, hs[0].off, attrs[0]) && AllFound(b, hs[1..], attrs[1..])))
  }

  /** The first found of a type is the first of the list. */
  lemma {:induction false} FirstMatches(b: seq<Byte>, hs: seq<Head>, attrs: seq<Attr>, ty: nat)
    requires AllFound(b, hs, attrs)
    ensures var i, r := FirstAttr(attrs, ty), First(hs, ty);
            if i == |attrs| then r == -1 else r >= 0 && Found(b, r, attrs[i])
  {
    if hs == [] {
    } else if hs[0].ty != ty {
      FirstMatches(b, hs[1..], attrs[1..], ty);
    }
  }

  lemma HeadFound(b: seq<Byte>, pos: nat, attrs: seq<Attr>) returns (next: nat)
    requires pos <= |b| && Encodes(b[pos..], attrs) && attrs != []
    ensures Found(b, pos, attrs[0]) && next == pos + Align(RtaLen(b, pos))
    ensures next <= |b| && Encodes(b[next..], attrs[1..])
  {
    next := pos + Align(RtaLen(b[pos..], 0));
    SuffixHead(b, pos, RtaLen(b[pos..], 0));
  }

  lemma SuffixHead(b: seq<Byte>, pos: nat, n: nat)
    requires pos + 4 <= |b| && n == RtaLen(b[pos..], 0) && Align(n) <= |b| - pos
    ensures RtaLen(b, pos) == n && b[pos..][..n] == b[pos..pos + n] && b[pos..][Align(n)..] == b[pos + Align(n)..]
  {
    var r := b[pos..];
    assert r[0..0 + 4] == b[pos..pos + 4];
    SameHeader(r, 0, b, pos);
  }

  /** At `off` the bytes hold exactly this attribute: its type and its payload. */
  ghost predicate Found(b: seq<Byte>, off: nat, t: Attr) {
    RtaOk(b, off) && EncodesOne(b[off..off + RtaLen(b, off)], t)
  }

  /** What `RTA_DATA` and `RTA_PAYLOAD` give for the attribute at `off`. */
  function Payload(b: seq<Byte>, off: nat): seq<Byte>
    requires RtaOk(b, off)
  {
    b[off + 4..off + RtaLen(b, off)]
  }

  /** The first attribute of a type in a list, or the length of the list. */
  function FirstAttr(attrs: seq<Attr>, ty: nat): (i: nat)
    ensures i <= |attrs| && (i < |attrs| ==> attrs[i].ty == ty)
    ensures forall j | 0 <= j < i :: attrs[j].ty != ty
  {
    if attrs == [] || attrs[0].ty == ty then 0 else 1 + FirstAttr(attrs[1..], ty)
  }

  /** The type and payload of an attribute found. */
  lemma FoundParts(b: seq<Byte>, off: nat, t: Attr)
    requires Found(b, off, t)
    ensures RtaType(b, off) == t.ty
    ensures match t case Leaf(_, p) => Payload(b, off) == p case Nest(_, kids) => Encodes(Payload(b, off), kids)
  {
    var r := b[off..off + RtaLen(b, off)];
    assert r[0..0 + 4] == b[off..off + 4];
    SameHeader(r, 0, b, off);
    assert r[4..] == Payload(b, off);
  }

  /**
   Parsing encoded attributes gives, for each type, the first attribute of that type with
   exactly its payload, and NULL when there is none.  The payload of a nest is again encoded
   attributes, so the same holds inside it.
   */
  lemma ParseRoundTrip(b: seq<Byte>, attrs: seq<Attr>, ty: nat)
    requires Encodes(b, attrs)
    ensures WalkFrom(b, 0).left == 0
    ensures var i, r := FirstAttr(attrs, ty), First(WalkFrom(b, 0).heads, ty);
            if i == |attrs| then r == -1
            else && r >= 0 && RtaOk(b, r) && RtaType(b, r) == ty
                 && match attrs[i] case Leaf(_, p) => Payload(b, r) == p case Nest(_, kids) => Encodes(Payload(b, r), kids)
  {
    assert b[0..] == b;
    ParseEncoded(b, 0, attrs);
    FirstMatches(b, WalkFrom(b, 0).heads, attrs, ty);
    var i := FirstAttr(attrs, ty);
    if i < |attrs| {
      FoundParts(b, First(WalkFrom(b, 0).heads, ty), attrs[i]);
    }
  }

  /** A last attribute without its padding is found all the same; what is missing shows as a negative rest. */
  lemma {:induction false} UnpaddedFound(b: seq<Byte>, pos: nat, attrs: seq<Attr>, r: seq<Byte>, t: Attr)
    requires pos <= |b| && Encodes(b[pos..], attrs) && EncodesOne(r, t)
    ensures WalkFrom(b + r, pos).left == |r| - Align(|r|)
    ensures AllFound(b + r, WalkFrom(b + r, pos).heads, attrs + [t])
    decreases attrs
  {
    var c := b + r;
    if attrs == [] {
      assert |b[pos..]| == 0;
      LastFound(b, r, t);
      AllFoundCons(c, Head(pos, t.ty), [], t, []);
    } else {
      var next := HeadFound(b, pos, attrs);
      UnpaddedFound(b, next, attrs[1..], r, t);
      StillFound(b, r, pos, attrs[0]);
      WalkStep(c, pos, next);
      AllFoundCons(c, Head(pos, attrs[0].ty), WalkFrom(c, next).heads, attrs[0], attrs[1..] + [t]);
      assert [attrs[0]] + (attrs[1..] + [t]) == attrs + [t];
    }
  }

  lemma FoundBehind(b: seq<Byte>, r: seq<Byte>, t: Attr)
    requires EncodesOne(r, t)
    ensures Found(b + r, |b|, t) && RtaLen(b + r, |b|) == |r| && RtaType(b + r, |b|) == t.ty
  {
    var c := b + r;
    assert c[|b|..|b| + 4] == r[0..0 + 4];
    SameHeader(c, |b|, r, 0);
    assert c[|b|..|b| + |r|] == r;
  }

  lemma LastFound(b: seq<Byte>, r: seq<Byte>, t: Attr)
    requires EncodesOne(r, t)
    ensures WalkFrom(b + r, |b|) == Walk([Head(|b|, t.ty)], |r| - Align(|r|)) && Found(b + r, |b|, t)
  {
    FoundBehind(b, r, t);
    LastWalk(b + r, |b|, |b| + Align(|r|));
  }

  /** The walk of one attribute up to the end. */
  lemma LastWalk(c: seq<Byte>, at: nat, next: nat)
    requires RtaOk(c, at) && at + RtaLen(c, at) == |c| && next == at + Align(RtaLen(c, at))
    ensures WalkFrom(c, at) == Walk([Head(at, RtaType(c, at))], |c| - next)
  {
    WalkStep(c, at, next);
    WalkEnd(c, next);
  }

  /** An attribute found is found as well with more bytes behind it. */
  lemma StillFound(b: seq<Byte>, r: seq<Byte>, off: nat, t: Attr)
    requires Found(b, off, t)
    ensures Found(b + r, off, t) && RtaLen(b + r, off) == RtaLen(b, off) && RtaType(b + r, off) == t.ty
  {
    var c := b + r;
    assert c[off..off + 4] == b[off..off + 4];
    SameHeader(c, off, b, off);
    FoundParts(b, off, t);
    assert c[off..off + RtaLen(b, off)] == b[off..off + RtaLen(b, off)];
  }

  // ----- building

  /** A message under construction: the buffer and `nlmsg_len`. */
  class Message {
    var buf: array<Byte>
    var len: nat

    /** `NLMSG_TAIL`, as an offset */
    function Tail(): nat
      reads this
    {
      Align(len)
    }

    /**
     `addattr_l`: appends one attribute behind the aligned end.  It succeeds exactly when the
     attribute fits in `maxlen`; nothing in front of it changes, and a refusal changes nothing.
     */
    method AddattrL(maxlen: nat, ty: nat, data: seq<Byte>) returns (ok: bool)
      requires maxlen <= buf.Length
      modifies this`len, buf
      ensures ok <==> old(Tail()) + Align(4 + |data|) <= maxlen
      ensures !ok ==> len == old(len) && buf[..] == old(buf[..])
      ensures ok ==> len == old(Tail()) + Align(4 + |data|) <= maxlen && Aligned(len)
      ensures ok ==> buf[..old(Tail())] == old(buf[..Tail()])
      ensures ok ==> buf[old(Tail())..old(Tail()) + 4] == Header(4 + |data|, ty)
      ensures ok ==> buf[old(Tail()) + 4..old(Tail()) + 4 + |data|] == data
      ensures ok ==> buf[old(Tail()) + 4 + |data|..] == old(buf[Tail() + 4 + |data|..])
    {
      var tail, n := Align(len), 4 + |data|;
      if tail + Align(n) > maxlen {
        return false;
      }
      WriteAttr(tail, ty, data);
      AlignTwice(len);
      AlignTwice(n);
      AlignAdd(tail, Align(n));
      len := tail + Align(n);
      ok := true;
    }

    /** Writes `rta_len`, `rta_type` and the payload. */
    method WriteAttr(tail: nat, ty: nat, data: seq<Byte>)
      requires tail + 4 + |data| <= buf.Length
      modifies buf
      ensures buf[..tail] == old(buf[..tail]) && buf[tail..tail + 4] == Header(4 + |data|, ty)
      ensures buf[tail + 4..tail + 4 + |data|] == data && buf[tail + 4 + |data|..] == old(buf[tail + 4 + |data|..])
    {
      Write(tail, Header(4 + |data|, ty));
      ghost var front := buf[..tail + 4];
      Write(tail + 4, data);
      assert buf[..tail] == front[..tail] && buf[tail..tail + 4] == front[tail..];
    }

    /** Copies bytes to a place in the buffer. */
    method Write(at: nat, data: seq<Byte>)
      requires at + |data| <= buf.Length
      modifies buf
      ensures buf[..at] == old(buf[..at]) && buf[at..at + |data|] == data && buf[at + |data|..] == old(buf[at + |data|..])
    {
      forall i | 0 <= i < |data| {
        buf[at + i] := data[i];
      }
    }

    /** `addattr32`, for the four bytes of a word */
    method Addattr32(maxlen: nat, ty: nat, data: seq<Byte>) returns (ok: bool)
      requires maxlen <= buf.Length && |data| == 4
      modifies this`len, buf
      ensures ok <==> old(Tail()) + 8 <= maxlen
      ensures !ok ==> len == old(len) && buf[..] == old(buf[..])
      ensures ok ==> len == old(Tail()) + 8 <= maxlen && Aligned(len)
      ensures ok ==> buf[..old(Tail())] == old(buf[..Tail()])
      ensures ok ==> buf[old(Tail())..old(Tail()) + 4] == Header(8, ty) && buf[old(Tail()) + 4..old(Tail()) + 8] == data
      ensures ok ==> buf[old(Tail()) + 8..] == old(buf[Tail() + 8..])
    {
      var tail, n := Align(len), 8;
      if tail + n > maxlen {
        return false;
      }
      WriteAttr(tail, ty, data);
      AlignTwice(len);
      AlignAdd(tail, n);
      len := tail + n;
      ok := true;
    }

    /** `addattr_nest`: an attribute without payload, whose place is remembered. */
    method AddattrNest(maxlen: nat, ty: nat) returns (nest: nat)
      requires maxlen <= buf.Length
      modifies this`len, buf
      ensures nest == old(Tail())
      ensures nest + 4 <= maxlen ==> len == nest + 4 && buf[..nest] == old(buf[..Tail()]) && buf[nest..nest + 4] == Header(4, ty)
      ensures nest + 4 <= maxlen ==> buf[nest + 4..] == old(buf[Tail() + 4..])
      ensures nest + 4 > maxlen ==> len == old(len) && buf[..] == old(buf[..])
    {
      nest := Align(len);
      var _ := AddattrL(maxlen, ty, []);
    }

    /**
     `addattr_nest_end`: writes the length of everything since `nest` into its header.  For a nest
     whose opening was refused this writes a zero behind the message.
     */
    method AddattrNestEnd(nest: nat)
      requires nest <= Tail() && nest + 2 <= buf.Length
      modifies buf
      ensures buf[nest..nest + 2] == Put16(Tail() - nest)
      ensures buf[..nest] == old(buf[..nest]) && buf[nest + 2..] == old(buf[nest + 2..])
    {
      Write(nest, Put16(Align(len) - nest));
    }

    method BuildLeaf(maxlen: nat, ty: nat, p: seq<Byte>)
      requires maxlen <= buf.Length && FitsOne(Leaf(ty, p))
      requires Tail() + Align(4 + |p|) <= maxlen
      modifies this`len, buf
      ensures len == old(Tail()) + Align(4 + |p|) <= buf.Length
      ensures buf[..old(Tail())] == old(buf[..Tail()])
      ensures Encodes(buf[old(Tail())..len], [Leaf(ty, p)])
    {
      var start := Align(len);
      var _ := AddattrL(maxlen, ty, p);
      ghost var b := buf[start..len];
      SubSlice(buf[..], start, len, 0, 4);
      SubSlice(buf[..], start, len, 4, 4 + |p|);
      LeafEncodes(b, ty, p);
    }

    method BuildNest(maxlen: nat, ty: nat, kids: seq<Attr>)
      requires maxlen <= buf.Length && FitsOne(Nest(ty, kids))
      requires Tail() + 4 + Size(kids) <= maxlen
      modifies this`len, buf
      ensures len == old(Tail()) + 4 + Size(kids) <= buf.Length
      ensures buf[..old(Tail())] == old(buf[..Tail()])
      ensures Encodes(buf[old(Tail())..len], [Nest(ty, kids)])
      decreases kids, 3
    {
      var nest := AddattrNest(maxlen, ty);
      AlignTwice(old(len));
      AlignAdd(nest, 4);
      ghost var b1 := buf[..];
      assert b1[..nest] == old(buf[..Tail()]) && b1[nest..nest + 4] == Header(4, ty);
      BuildKids(maxlen, nest, ty, kids);
      CloseNest(nest, ty, kids);
    }

    /** The kids go behind the header of the open nest. */
    method BuildKids(maxlen: nat, nest: nat, ty: nat, kids: seq<Attr>)
      requires maxlen <= buf.Length && Fits(kids)
      requires Aligned(len) && len == nest + 4 && len + Size(kids) <= maxlen
      requires buf[nest..nest + 4] == Header(4, ty)
      modifies this`len, buf
      ensures len == nest + 4 + Size(kids) <= buf.Length && Aligned(len)
      ensures buf[..nest] == old(buf[..nest]) && buf[nest..nest + 4] == Header(4, ty)
      ensures Encodes(buf[nest + 4..len], kids)
      decreases kids, 2
    {
      SizeAligned(kids);
      AlignAdd(nest + 4, Size(kids));
      ghost var b1 := buf[..];
      BuildAll(maxlen, kids);
      Kept(b1, buf[..], nest, Header(4, ty));
    }

    /** Closing a nest turns its header into one for everything since. */
    method CloseHeader(nest: nat, ty: nat)
      requires Aligned(len) && nest + 4 <= len <= buf.Length && buf[nest..nest + 4] == Header(4, ty)
      modifies buf
      ensures buf[..nest] == old(buf[..nest]) && buf[nest + 4..] == old(buf[nest + 4..])
      ensures buf[nest..nest + 4] == Header(len - nest, ty)
    {
      ghost var hi := buf[nest + 2..];
      assert hi[..2] == buf[nest..nest + 4][2..] == Put16(ty);
      AddattrNestEnd(nest);
      assert buf[nest + 2..nest + 4] == hi[..2];
      assert buf[nest..nest + 4] == buf[nest..nest + 2] + buf[nest + 2..nest + 4];
      assert buf[nest + 4..] == hi[2..];
    }

    /** Closing a nest whose kids are in place completes the encoding. */
    method CloseNest(nest: nat, ty: nat, kids: seq<Attr>)
      requires FitsOne(Nest(ty, kids)) && len == nest + 4 + Size(kids) <= buf.Length && Aligned(len)
      requires buf[nest..nest + 4] == Header(4, ty) && Encodes(buf[nest + 4..len], kids)
      modifies buf
      ensures buf[..nest] == old(buf[..nest]) && Encodes(buf[nest..len], [Nest(ty, kids)])
    {
      ghost var b1, k := buf[..], buf[nest + 4..len];
      CloseHeader(nest, ty);
      Closed(b1, buf[..], nest, len, k);
      NestEncodes(buf[nest..len], len - nest, ty, kids);
    }

    /** Appends an attribute tree with the calls above, where everything fits. */
    method Build(maxlen: nat, t: Attr)
      requires maxlen <= buf.Length && FitsOne(t)
      requires Tail() + Align(AttrLen(t)) <= maxlen
      modifies this`len, buf
      ensures len == old(Tail()) + Align(AttrLen(t)) <= buf.Length
      ensures buf[..old(Tail())] == old(buf[..Tail()])
      ensures Encodes(buf[old(Tail())..len], [t])
      decreases t, 3
    {
      match t
      case Leaf(ty, p) => BuildLeaf(maxlen, ty, p);
      case Nest(ty, kids) => BuildNest(maxlen, ty, kids);
    }

    /** Appends a list of attribute trees, one after the other. */
    method BuildAll(maxlen: nat, attrs: seq<Attr>)
      requires maxlen <= buf.Length && Fits(attrs)
      requires Aligned(len) && len + Size(attrs) <= maxlen
      modifies this`len, buf
      ensures len == old(len) + Size(attrs) <= buf.Length
      ensures buf[..old(len)] == old(buf[..len])
      ensures Encodes(buf[old(len)..len], attrs)
      decreases attrs, 1
    {
      if attrs != [] {
        var start := len;
        Build(maxlen, attrs[0]);
        var mid := len;
        AlignTwice(AttrLen(attrs[0]));
        AlignAdd(start, Align(AttrLen(attrs[0])));
        ghost var b1 := buf[..];
        BuildAll(maxlen, attrs[1..]);
        ghost var b2 := buf[..];
        assert b1[..mid] == b2[..mid];
        Joined(b1, b2, start, mid, len, attrs);
        assert buf[..start] == b2[..start] && buf[start..len] == b2[start..len];
      }
    }
  }

  lemma SubSlice(c: seq<Byte>, start: nat, end: nat, i: nat, j: nat)
    requires i <= j <= end - start && end <= |c|
    ensures c[start..end][i..j] == c[start + i..start + j]
  {
    var x, y := c[start..end][i..j], c[start + i..start + j];
    forall k | 0 <= k < j - i ensures x[k] == y[k] {
      assert x[k] == c[start..end][i + k] == c[start + i + k];
    }
  }

  lemma Kept(b1: seq<Byte>, b2: seq<Byte>, nest: nat, h: seq<Byte>)
    requires nest + 4 <= |b1| && nest + 4 <= |b2| && b1[..nest + 4] == b2[..nest + 4] && b1[nest..nest + 4] == h
    ensures b1[..nest] == b2[..nest] && b2[nest..nest + 4] == h
  {
    assert b1[..nest] == b1[..nest + 4][..nest] && b1[nest..nest + 4] == b1[..nest + 4][nest..];
    assert b2[..nest] == b2[..nest + 4][..nest] && b2[nest..nest + 4] == b2[..nest + 4][nest..];
  }

  /** With its header rewritten, and the rest as it was, a nest holds the same bytes behind the header. */
  lemma Closed(b1: seq<Byte>, b2: seq<Byte>, nest: nat, end: nat, k: seq<Byte>)
    requires nest + 4 <= end <= |b1| == |b2| && b2[nest + 4..] == b1[nest + 4..] && k == b1[nest + 4..end]
    ensures b2[nest..end][..4] == b2[nest..nest + 4] && b2[nest..end][4..] == k
  {
    var n := end - nest;
    assert b2[nest..end][4..] == b2[nest + 4..][..n - 4] && k == b1[nest + 4..][..n - 4];
  }

  /** A first attribute, left in place while the others are appended behind it, completes the list. */
  lemma Joined(b1: seq<Byte>, b2: seq<Byte>, start: nat, mid: nat, end: nat, attrs: seq<Attr>)
    requires attrs != [] && start <= mid <= end <= |b2| && mid <= |b1| && b1[..mid] == b2[..mid]
    requires Encodes(b1[start..mid], [attrs[0]]) && Encodes(b2[mid..end], attrs[1..])
    ensures b1[..start] == b2[..start] && Encodes(b2[start..end], attrs)
  {
    var first, rest := b1[start..mid], b2[mid..end];
    assert first == b1[..mid][start..] == b2[..mid][start..] == b2[start..mid];
    assert b1[..start] == b1[..mid][..start] && b2[..start] == b2[..mid][..start];
    assert b2[start..end] == first + rest;
    assert [attrs[0]] + attrs[1..] == attrs;
    EncodesAppend(first, [attrs[0]], rest, attrs[1..]);
  }

  lemma LeafEncodes(b: seq<Byte>, ty: nat, p: seq<Byte>)
    requires ty < 0x1_0000 && 4 + |p| < 0x1_0000 && |b| == Align(4 + |p|)
    requires b[..4] == Header(4 + |p|, ty) && b[4..4 + |p|] == p
    ensures Encodes(b, [Leaf(ty, p)])
  {
    var r := b[..4 + |p|];
    assert r[..4] == b[..4] && r[4..] == b[4..4 + |p|];
    LeafEncodesOne(r, ty, p);
    EncodesSingle(b, Leaf(ty, p));
  }

  lemma LeafEncodesOne(r: seq<Byte>, ty: nat, p: seq<Byte>)
    requires ty < 0x1_0000 && |r| == 4 + |p| < 0x1_0000 && r[..4] == Header(|r|, ty) && r[4..] == p
    ensures EncodesOne(r, Leaf(ty, p))
  {
    assert r[0..0 + 4] == r[..4];
    HeaderFields(r, 0, |r|, ty);
  }

  lemma NestEncodes(b: seq<Byte>, n: nat, ty: nat, kids: seq<Attr>)
    requires ty < 0x1_0000 && |b| == n == 4 + Size(kids) && n < 0x1_0000 && Encodes(b[4..], kids)
    requires b[..4] == Header(n, ty)
    ensures Encodes(b, [Nest(ty, kids)])
  {
    NestEncodesOne(b, n, ty, kids);
    SizeAligned(kids);
    AlignAdd(4, Size(kids));
    assert b[..n] == b;
    EncodesSingle(b, Nest(ty, kids));
  }

  lemma NestEncodesOne(b: seq<Byte>, n: nat, ty: nat, kids: seq<Attr>)
    requires ty < 0x1_0000 && |b| == n == 4 + Size(kids) && n < 0x1_0000 && Encodes(b[4..], kids)
    requires b[..4] == Header(n, ty)
    ensures EncodesOne(b, Nest(ty, kids))
  {
    assert b[0..0 + 4] == b[..4];
    HeaderFields(b, 0, n, ty);
  }
}
