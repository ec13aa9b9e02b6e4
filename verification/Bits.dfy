/**
 Machine words as the list of their bits, most significant bit first.

 A word in host order is listed from its top bit.  A word in memory is listed in
 memory order: byte 0 first, each byte from its top bit.  In this form `htonl`
 and `ntohl` are the identity on lists, whatever the byte order of the host, and
 the bitwise operations commute with them because they work bit by bit.
 */
module Bits {

  type Word = w: seq<bool> | |w| == 32 witness seq(32, _ => false)

  function Zeros(n: nat): (r: seq<bool>)
    ensures |r| == n && forall i | 0 <= i < n :: !r[i]
  {
    seq(n, _ => false)
  }

  function Ones(n: nat): (r: seq<bool>)
    ensures |r| == n && forall i | 0 <= i < n :: r[i]
  {
    seq(n, _ => true)
  }

  predicate IsZero(x: seq<bool>) {
    forall i | 0 <= i < |x| :: !x[i]
  }

  function And(x: seq<bool>, y: seq<bool>): (r: seq<bool>)
    requires |x| == |y|
    ensures |r| == |x| && forall i | 0 <= i < |x| :: r[i] == (x[i] && y[i])
  {
    seq(|x|, i requires 0 <= i < |x| => x[i] && y[i])
  }

  function Or(x: seq<bool>, y: seq<bool>): (r: seq<bool>)
    requires |x| == |y|
    ensures |r| == |x| && forall i | 0 <= i < |x| :: r[i] == (x[i] || y[i])
  {
    seq(|x|, i requires 0 <= i < |x| => x[i] || y[i])
  }

  function Xor(x: seq<bool>, y: seq<bool>): (r: seq<bool>)
    requires |x| == |y|
    ensures |r| == |x| && forall i | 0 <= i < |x| :: r[i] == (x[i] != y[i])
  {
    seq(|x|, i requires 0 <= i < |x| => x[i] != y[i])
  }

  function Not(x: seq<bool>): (r: seq<bool>)
    ensures |r| == |x| && forall i | 0 <= i < |x| :: r[i] == !x[i]
  {
    seq(|x|, i requires 0 <= i < |x| => !x[i])
  }

  /** `x << k` within the width of `x` */
  function Shl(x: seq<bool>, k: nat): (r: seq<bool>)
    requires k <= |x|
    ensures |r| == |x|
  {
    x[k..] + Zeros(k)
  }

  /** `x + 1`, wrapping within the width of `x` */
  function Increment(x: seq<bool>): (r: seq<bool>)
    ensures |r| == |x|
  {
    if x == [] then []
    else if x[|x| - 1] then Increment(x[..|x| - 1]) + [false]
    else x[..|x| - 1] + [true]
  }

  /** The mask of an `n`-bit prefix: `n` ones, then zeros. */
  function PrefixMask(n: nat): (r: Word)
    requires n <= 32
    ensures forall i | 0 <= i < 32 :: r[i] == (i < n)
  {
    Shl(Ones(32), 32 - n)
  }
}
