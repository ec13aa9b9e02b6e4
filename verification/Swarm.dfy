/**
 Particle swarm training of the network weights: `get_rbf_SSE` and the training part of
 `rbfgrad_mark_probability` in modules/sch_rbfgrad.c.

 Arithmetic is over the reals.  The exponential and the random numbers are parameters.
 */
module Swarm {
  const UNIT_NUM := 6
  const SAM_NUM := 10
  const PARTICLE_NUM := 90
  const MAX_EPOCH := 10

  const IW1 := 0.9
  const IW2 := 0.2
  const IWE := 7.5
  const AC1 := 2.0
  const AC2 := 2.0
  const MV := 0.01

  /** One value for each hidden unit. */
  type Row = r: seq<real> | |r| == UNIT_NUM witness [0.0, 0.0, 0.0, 0.0, 0.0, 0.0]

  /** The two random numbers for an epoch, a particle and a dimension. */
  type Dice = (nat, nat, nat) -> (real, real)

  // ----- the error of a weight vector

  type Input = x: seq<real> | |x| == SAM_NUM witness [0.0, 0.0, 0.0, 0.0, 0.0, 0.0, 0.0, 0.0, 0.0, 0.0]

  datatype Network = Network(samIn: Input, centres: seq<Input>, delta: Row, target: real, exp: real -> real) {
    predicate Ok() {
      |centres| == UNIT_NUM && forall i | 0 <= i < UNIT_NUM :: delta[i] != 0.0
    }
  }

  function Distance(x: Input, c: Input, k: nat): real
    requires k <= SAM_NUM
  {
    if k == 0 then 0.0 else Distance(x, c, k - 1) + (x[k - 1] - c[k - 1]) * (x[k - 1] - c[k - 1])
  }

  function Bell(exp: real -> real, sum: real, delta: real): real
    requires delta != 0.0
  {
    exp(-sum / (2.0 * delta * delta))
  }

  function Hidden(net: Network, i: nat, m: nat): real
    requires net.Ok() && i < UNIT_NUM && m <= SAM_NUM
  {
    Bell(net.exp, Distance(net.samIn, net.centres[i], m), net.delta[i])
  }

  function Output(net: Network, w: Row, k: nat, m: nat): real
    requires net.Ok() && k <= UNIT_NUM && m <= SAM_NUM
  {
    if k == 0 then 0.0 else Output(net, w, k - 1, m) + w[k - 1] * Hidden(net, k - 1, m)
  }

  function HalfSquare(x: real): (r: real)
    ensures r >= 0.0
  {
    x * x / 2.0
  }

  /** Half the squared error of the network with the weights `w` */
  function Sse(net: Network, w: Row): (r: real)
    requires net.Ok()
    ensures r >= 0.0
  {
    HalfSquare(net.target - Output(net, w, |w|, |net.samIn|))
  }

  /** The network is linear in its weights: nothing at zero, and weight `i` counts by the bell of its centre. */
  lemma OutputAtZero(net: Network, w: Row)
    requires net.Ok() && forall i | 0 <= i < UNIT_NUM :: w[i] == 0.0
    ensures Output(net, w, |w|, |net.samIn|) == 0.0
  {
    for k := 0 to |w|
      invariant Output(net, w, k, |net.samIn|) == 0.0
    {
    }
  }

  /** The ten squared differences of an input and a centre. */
  function SquareSum(x: Input, c: Input): real {
    (x[0] - c[0]) * (x[0] - c[0]) + (x[1] - c[1]) * (x[1] - c[1]) + (x[2] - c[2]) * (x[2] - c[2])
    + (x[3] - c[3]) * (x[3] - c[3]) + (x[4] - c[4]) * (x[4] - c[4]) + (x[5] - c[5]) * (x[5] - c[5])
    + (x[6] - c[6]) * (x[6] - c[6]) + (x[7] - c[7]) * (x[7] - c[7]) + (x[8] - c[8]) * (x[8] - c[8])
    + (x[9] - c[9]) * (x[9] - c[9])
  }

  lemma DistanceIsSquareSum(x: Input, c: Input)
    ensures Distance(x, c, |x|) == SquareSum(x, c)
  {
    assert Distance(x, c, 0) == 0.0;
    DistanceStep(x, c, 0);
    DistanceStep(x, c, 1);
    DistanceStep(x, c, 2);
    DistanceStep(x, c, 3);
    DistanceStep(x, c, 4);
    DistanceStep(x, c, 5);
    DistanceStep(x, c, 6);
    DistanceStep(x, c, 7);
    DistanceStep(x, c, 8);
    DistanceStep(x, c, 9);
  }

  lemma DistanceStep(x: Input, c: Input, k: nat)
    requires k < SAM_NUM
    ensures Distance(x, c, k + 1) == Distance(x, c, k) + (x[k] - c[k]) * (x[k] - c[k])
  {
  }

  lemma {:induction false} RaisedWeight(net: Network, w: Row, i: nat, d: real, k: nat)
    requires net.Ok() && i < UNIT_NUM && k <= UNIT_NUM
    ensures Output(net, w[i := w[i] + d], k, |net.samIn|)
         == Output(net, w, k, |net.samIn|) + if i < k then d * Hidden(net, i, |net.samIn|) else 0.0
  {
    if k == 0 {
    } else {
      RaisedWeight(net, w, i, d, k - 1);
      var h, more := Hidden(net, k - 1, |net.samIn|), w[i := w[i] + d];
      OutputStep(net, w, k);
      OutputStep(net, more, k);
      assert more[k - 1] * h == w[k - 1] * h + if k - 1 == i then d * h else 0.0 by {
        Distributes(w[i], d, h);
      }
    }
  }

  lemma OutputStep(net: Network, w: Row, k: nat)
    requires net.Ok() && 0 < k <= UNIT_NUM
    ensures Output(net, w, k, |net.samIn|)
         == Output(net, w, k - 1, |net.samIn|) + w[k - 1] * Hidden(net, k - 1, |net.samIn|)
  {
  }

  lemma Distributes(a: real, b: real, c: real)
    ensures (a + b) * c == a * c + b * c
  {
  }

  /** Raising weight `i` by `d` raises the output by `d` times the bell of unit `i`. */
  lemma OutputIsLinear(net: Network, w: Row, i: nat, d: real)
    requires net.Ok() && i < UNIT_NUM
    ensures var s := SquareSum(net.samIn, net.centres[i]);
            Output(net, w[i := w[i] + d], |w|, |net.samIn|)
            == Output(net, w, |w|, |net.samIn|) + d * net.exp(-s / (2.0 * net.delta[i] * net.delta[i]))
  {
    var h := Hidden(net, i, |net.samIn|);
    assert h == net.exp(-SquareSum(net.samIn, net.centres[i]) / (2.0 * net.delta[i] * net.delta[i])) by {
      HiddenIsBell(net, i);
    }
    RaisedWeight(net, w, i, d, |w|);
  }

  lemma HiddenIsBell(net: Network, i: nat)
    requires net.Ok() && i < UNIT_NUM
    ensures Hidden(net, i, |net.samIn|)
         == net.exp(-SquareSum(net.samIn, net.centres[i]) / (2.0 * net.delta[i] * net.delta[i]))
  {
    DistanceIsSquareSum(net.samIn, net.centres[i]);
  }

  /** The error is half the square of what the output misses the target by. */
  lemma SseIsHalfSquare(net: Network, w: Row)
    requires net.Ok()
    ensures var miss := net.target - Output(net, w, |w|, |net.samIn|); Sse(net, w) == miss * miss / 2.0
  {
  }

  // ----- the swarm

  datatype State = State(
    pos: seq<Row>, vel: seq<Row>, pbest: seq<Row>, pbestval: seq<real>,
    gbest: Row, gbestval: real, index: nat)
  {
    predicate Ok() {
      |pos| == |vel| == |pbest| == |pbestval| > 0
    }
  }

  /** The scan for the least value: a later one is taken only when it is strictly less. */
  function Best(vals: seq<real>, k: nat): (b: nat)
    requires |vals| > 0 && k <= |vals|
    ensures b < |vals| && (b == 0 || b < k)
  {
    if k == 0 then 0
    else
      var b := Best(vals, k - 1);
      if vals[b] > vals[k - 1] then k - 1 else b
  }

  lemma {:induction false} BestIsFirstMin(vals: seq<real>, k: nat)
    requires 0 < k <= |vals|
    ensures var b := Best(vals, k);
            && (forall j | 0 <= j < k :: vals[b] <= vals[j])
            && (forall j | 0 <= j < b :: vals[b] < vals[j])
  {
    if k <= 1 {
    } else {
      BestIsFirstMin(vals, k - 1);
    }
  }

  function Selected(s: State): (t: State)
    requires s.Ok()
    ensures t.Ok()
  {
    var b := Best(s.pbestval, |s.pbestval|);
    s.(index := b, gbestval := s.pbestval[b], gbest := s.pbest[b])
  }

  function Remembered(s: State, err: Row -> real): (t: State)
    requires s.Ok()
    ensures t.Ok() && t.pos == s.pos && t.vel == s.vel
  {
    s.(pbestval := seq(|s.pos|, j requires 0 <= j < |s.pos| => Less(s.pbestval[j], err(s.pos[j]))),
       pbest := seq(|s.pos|, j requires 0 <= j < |s.pos| =>
                  if s.pbestval[j] > err(s.pos[j]) then s.pos[j] else s.pbest[j]))
  }

  function Less(a: real, b: real): real {
    if a > b then b else a
  }

  function Inertia(epoch: nat): real {
    if epoch as real < IWE then (IW2 - IW1) / (IWE - 1.0) * epoch as real + IW1 else IW2
  }

  function Clamp(v: real): (c: real)
    ensures -MV <= c <= MV
  {
    var u := if v > MV then MV else v;
    if u < -MV then -MV else u
  }

  function Pull(iwt: real, v: real, best: real, x: real, g: real, r: (real, real)): real {
    iwt * v + AC1 * r.0 * (best - x) + AC2 * r.1 * (g - x)
  }

  function Speed(v: real, best: real, x: real, g: real, iwt: real, r: (real, real)): (u: real)
    ensures -MV <= u <= MV
  {
    Clamp(Pull(iwt, v, best, x, g, r))
  }

  /** The next velocity of particle `j`: drawn to its own best and to the global best. */
  function Velocity(v: Row, best: Row, x: Row, g: Row, iwt: real, dice: Dice, epoch: nat, j: nat): (u: Row)
    ensures forall k | 0 <= k < UNIT_NUM :: -MV <= u[k] <= MV
  {
    var u := seq(UNIT_NUM, k requires 0 <= k < UNIT_NUM => Speed(v[k], best[k], x[k], g[k], iwt, dice(epoch, j, k)));
    assert forall k | 0 <= k < UNIT_NUM :: u[k] == Speed(v[k], best[k], x[k], g[k], iwt, dice(epoch, j, k));
    u
  }

  function Steered(s: State, j: nat, dice: Dice, epoch: nat): Row
    requires s.Ok() && j < |s.pos|
  {
    Velocity(s.vel[j], s.pbest[j], s.pos[j], s.gbest, Inertia(epoch), dice, epoch, j)
  }

  function Plus(x: Row, v: Row): Row {
    seq(UNIT_NUM, k requires 0 <= k < UNIT_NUM => x[k] + v[k])
  }

  function Moved(s: State, dice: Dice, epoch: nat): (t: State)
    requires s.Ok()
    ensures t.Ok() && |t.pos| == |s.pos|
  {
    s.(vel := seq(|s.pos|, j requires 0 <= j < |s.pos| => Steered(s, j, dice, epoch)),
       pos := seq(|s.pos|, j requires 0 <= j < |s.pos| => Plus(s.pos[j], Steered(s, j, dice, epoch))))
  }

  /** How a velocity answers a change of the old one, of either best, and of the position, before the limit. */
  lemma PullIsAffine(iwt: real, v: real, best: real, x: real, g: real, r: (real, real), d: real)
    ensures Pull(iwt, 0.0, x, x, x, r) == 0.0
    ensures Pull(iwt, v + d, best, x, g, r) - Pull(iwt, v, best, x, g, r) == iwt * d
    ensures Pull(iwt, v, best + d, x, g, r) - Pull(iwt, v, best, x, g, r) == 2.0 * r.0 * d
    ensures Pull(iwt, v, best, x, g + d, r) - Pull(iwt, v, best, x, g, r) == 2.0 * r.1 * d
    ensures Pull(iwt, v, best + d, x + d, g + d, r) == Pull(iwt, v, best, x, g, r)
  {
  }

  /** One epoch's move: each velocity is limited to 0.01 either way and then added to the position. */
  lemma MoveExact(s: State, dice: Dice, epoch: nat, j: nat, k: nat)
    requires s.Ok() && j < |s.pos| && k < UNIT_NUM
    ensures var t := Moved(s, dice, epoch);
            var u := Pull(Inertia(epoch), s.vel[j][k], s.pbest[j][k], s.pos[j][k], s.gbest[k], dice(epoch, j, k));
            && t.pos[j][k] == s.pos[j][k] + t.vel[j][k]
            && t.vel[j][k] == if u > 0.01 then 0.01 else if u < -0.01 then -0.01 else u
  {
    assert Moved(s, dice, epoch).vel[j] == Steered(s, j, dice, epoch);
    assert Moved(s, dice, epoch).pos[j] == Plus(s.pos[j], Steered(s, j, dice, epoch));
  }

  /** The inertia starts at 0.9 and falls in equal steps until it stays at 0.2. */
  lemma InertiaFalls(n: nat)
    ensures Inertia(0) == 0.9 && (n >= 8 ==> Inertia(n) == 0.2)
    ensures n < 7 ==> Inertia(n) - Inertia(n + 1) == 0.7 / 6.5
  {
  }

  /** The positions become the personal bests, and the least of them the global best. */
  function Start(s: State, err: Row -> real): (t: State)
    requires s.Ok()
    ensures t.Ok() && t.pos == s.pos
  {
    Selected(s.(pbest := s.pos, pbestval := seq(|s.pos|, j requires 0 <= j < |s.pos| => err(s.pos[j]))))
  }

  function Epoch(s: State, err: Row -> real, dice: Dice, epoch: nat): (t: State)
    requires s.Ok()
    ensures t.Ok() && |t.pos| == |s.pos|
  {
    Moved(Selected(Remembered(s, err)), dice, epoch)
  }

  function Trained(s: State, err: Row -> real, dice: Dice, n: nat): (t: State)
    requires s.Ok()
    ensures t.Ok() && |t.pos| == |s.pos|
    decreases n
  {
    if n == 0 then Start(s, err) else Epoch(Trained(s, err, dice, n - 1), err, dice, n - 1)
  }

  // ----- what training finds

  /** The positions at which particle `j` is evaluated up to epoch `n`. */
  function Track(s: State, err: Row -> real, dice: Dice, n: nat, j: nat): seq<Row>
    requires s.Ok() && j < |s.pos|
    decreases n
  {
    if n == 0 then [s.pos[j]] else Track(s, err, dice, n - 1, j) + [Trained(s, err, dice, n - 1).pos[j]]
  }

  /** `best` is a row of the track with the least error, `val`. */
  ghost predicate BestOf(err: Row -> real, best: Row, val: real, track: seq<Row>) {
    best in track && val == err(best) && forall i | 0 <= i < |track| :: val <= err(track[i])
  }

  lemma BestOfSnoc(err: Row -> real, best: Row, val: real, track: seq<Row>, x: Row)
    requires BestOf(err, best, val, track)
    ensures BestOf(err, if val > err(x) then x else best, Less(val, err(x)), track + [x])
  {
    var more := track + [x];
    assert more[|track|] == x;
    assert forall i | 0 <= i < |track| :: more[i] == track[i];
  }

  lemma TrackSnoc(s: State, err: Row -> real, dice: Dice, n: nat, j: nat)
    requires s.Ok() && j < |s.pos|
    ensures Track(s, err, dice, n + 1, j) == Track(s, err, dice, n, j) + [Trained(s, err, dice, n).pos[j]]
    ensures Trained(s, err, dice, n + 1) == Epoch(Trained(s, err, dice, n), err, dice, n)
  {
  }

  ghost predicate Personal(s: State, err: Row -> real, dice: Dice, n: nat, j: nat)
    requires s.Ok() && j < |s.pos|
  {
    var t := Trained(s, err, dice, n);
    BestOf(err, t.pbest[j], t.pbestval[j], Track(s, err, dice, n, j))
  }

  lemma StartPersonal(s: State, err: Row -> real, dice: Dice, j: nat)
    requires s.Ok() && j < |s.pos|
    ensures Personal(s, err, dice, 0, j)
  {
    assert Start(s, err).pbest[j] == s.pos[j] && Start(s, err).pbestval[j] == err(s.pos[j]);
    assert Track(s, err, dice, 0, j) == [s.pos[j]];
  }

  /** Each particle's best is the best of the positions it has been evaluated at. */
  lemma PersonalBest(s: State, err: Row -> real, dice: Dice, n: nat, j: nat)
    requires s.Ok() && j < |s.pos|
    ensures Personal(s, err, dice, n, j)
  {
    StartPersonal(s, err, dice, j);
    for i := 0 to n
      invariant Personal(s, err, dice, i, j)
    {
      PersonalStep(s, err, dice, i, j);
    }
  }

  lemma PersonalStep(s: State, err: Row -> real, dice: Dice, n: nat, j: nat)
    requires s.Ok() && j < |s.pos| && Personal(s, err, dice, n, j)
    ensures Personal(s, err, dice, n + 1, j)
  {
    var t := Trained(s, err, dice, n);
    BestOfSnoc(err, t.pbest[j], t.pbestval[j], Track(s, err, dice, n, j), t.pos[j]);
    TrackSnoc(s, err, dice, n, j);
    EpochPersonal(t, err, dice, n, j);
  }

  lemma EpochPersonal(s: State, err: Row -> real, dice: Dice, n: nat, j: nat)
    requires s.Ok() && j < |s.pos|
    ensures var t := Epoch(s, err, dice, n);
            && t.pbestval[j] == Less(s.pbestval[j], err(s.pos[j]))
            && t.pbest[j] == if s.pbestval[j] > err(s.pos[j]) then s.pos[j] else s.pbest[j]
  {
  }

  /** The global best is the least personal best. */
  ghost predicate Leads(s: State)
    requires s.Ok()
  {
    && s.index < |s.pbest| && s.gbest == s.pbest[s.index] && s.gbestval == s.pbestval[s.index]
    && forall j | 0 <= j < |s.pbest| :: s.gbestval <= s.pbestval[j]
  }

  lemma SelectedLeads(s: State)
    requires s.Ok()
    ensures Leads(Selected(s))
  {
    BestIsFirstMin(s.pbestval, |s.pbestval|);
  }

  lemma TrainedLeads(s: State, err: Row -> real, dice: Dice, n: nat)
    requires s.Ok()
    ensures Leads(Trained(s, err, dice, n))
  {
    if n == 0 {
      SelectedLeads(s.(pbest := s.pos, pbestval := seq(|s.pos|, j requires 0 <= j < |s.pos| => err(s.pos[j]))));
    } else {
      var t := Remembered(Trained(s, err, dice, n - 1), err);
      SelectedLeads(t);
    }
  }

  /**
   `gbestval` is the least error over all particles and all positions evaluated, and it is the error
   at `gbest`, which is one of them.
   */
  lemma GlobalBest(s: State, err: Row -> real, dice: Dice, n: nat)
    requires s.Ok()
    ensures var t := Trained(s, err, dice, n);
            && t.index < |s.pos| && t.gbest in Track(s, err, dice, n, t.index) && t.gbestval == err(t.gbest)
            && forall j | 0 <= j < |s.pos| :: NoneBetter(err, t.gbestval, Track(s, err, dice, n, j))
  {
    var t := Trained(s, err, dice, n);
    TrainedLeads(s, err, dice, n);
    PersonalBest(s, err, dice, n, t.index);
    forall j | 0 <= j < |s.pos| ensures NoneBetter(err, t.gbestval, Track(s, err, dice, n, j)) {
      PersonalBest(s, err, dice, n, j);
    }
  }

  ghost predicate NoneBetter(err: Row -> real, val: real, track: seq<Row>) {
    forall i | 0 <= i < |track| :: val <= err(track[i])
  }

  /** The least error never grows from epoch to epoch. */
  lemma NeverWorse(s: State, err: Row -> real, dice: Dice, n: nat)
    requires s.Ok()
    ensures Trained(s, err, dice, n + 1).gbestval <= Trained(s, err, dice, n).gbestval
  {
    var t := Trained(s, err, dice, n);
    TrainedLeads(s, err, dice, n);
    TrainedLeads(s, err, dice, n + 1);
    EpochPersonal(t, err, dice, n, t.index);
  }

  /** No particle moves further than the speed limit in any dimension in one epoch. */
  lemma StepBounded(s: State, err: Row -> real, dice: Dice, n: nat, j: nat, k: nat)
    requires s.Ok() && j < |s.pos| && k < UNIT_NUM
    ensures var x, y := Trained(s, err, dice, n).pos[j][k], Trained(s, err, dice, n + 1).pos[j][k];
            -0.01 <= y - x <= 0.01
  {
    var t := Selected(Remembered(Trained(s, err, dice, n), err));
    assert Moved(t, dice, n).pos[j] == Plus(t.pos[j], Steered(t, j, dice, n));
  }

  // ----- the training loops

  class Trainer {
    const net: Network
    const maxEpoch: nat
    const pos: array<Row>
    const vel: array<Row>
    const pbest: array<Row>
    const pbestval: array<real>
    const netOut: array<real>
    var gbest: Row
    var gbestval: real
    var index: nat
    var w: Row

    ghost predicate Valid() {
      && net.Ok()
      && pos.Length == vel.Length == pbest.Length == pbestval.Length == netOut.Length > 0
      && pos != vel && pos != pbest && vel != pbest && pbestval != netOut
    }

    ghost function View(): (s: State)
      requires Valid()
      reads this, pos, vel, pbest, pbestval
      ensures s.Ok()
    {
      State(pos[..], vel[..], pbest[..], pbestval[..], gbest, gbestval, index)
    }

    ghost function Err(): Row -> real
      requires Valid()
    {
      (w: Row) => Sse(net, w)
    }

    constructor (net: Network, pos: seq<Row>, vel: seq<Row>)
      requires net.Ok() && |pos| == |vel| == PARTICLE_NUM
      ensures Valid() && View().pos == pos && View().vel == vel && maxEpoch == MAX_EPOCH
    {
      maxEpoch := MAX_EPOCH;
      this.net := net;
      this.pos := new Row[PARTICLE_NUM](i requires 0 <= i < |pos| => pos[i]);
      this.vel := new Row[PARTICLE_NUM](i requires 0 <= i < |vel| => vel[i]);
      pbest := new Row[PARTICLE_NUM](i requires 0 <= i < |pos| => pos[i]);
      pbestval := new real[PARTICLE_NUM](_ => 0.0);
      netOut := new real[PARTICLE_NUM](_ => 0.0);
      gbest, gbestval, index, w := pos[0], 0.0, 0, pos[0];
    }

    method HiddenUnit(i: nat) returns (r: real)
      requires Valid() && i < UNIT_NUM
      ensures r == Hidden(net, i, |net.samIn|)
    {
      var sum := 0.0;
      for j := 0 to SAM_NUM
        invariant sum == Distance(net.samIn, net.centres[i], j)
      {
        sum := sum + (net.samIn[j] - net.centres[i][j]) * (net.samIn[j] - net.centres[i][j]);
      }
      r := Bell(net.exp, sum, net.delta[i]);
    }

    /** `get_rbf_SSE` */
    method GetRbfSse(which: nat) returns (sse: real)
      requires Valid() && which < pos.Length
      modifies netOut
      ensures sse == Err()(pos[which])
      ensures netOut[which] == Output(net, pos[which], |pos[which]|, |net.samIn|)
    {
      netOut[which] := 0.0;
      for i := 0 to UNIT_NUM
        invariant netOut[which] == Output(net, pos[which], i, |net.samIn|)
      {
        var r := HiddenUnit(i);
        netOut[which] := netOut[which] + pos[which][i] * r;
      }
      sse := HalfSquare(net.target - netOut[which]);
    }

    /** The scan for the global best. */
    method Select()
      requires Valid()
      modifies this`gbest, this`gbestval, this`index
      ensures View() == Selected(old(View()))
    {
      gbestval := pbestval[0];
      index := 0;
      for j := 0 to pbestval.Length
        invariant index == Best(pbestval[..], j) && gbestval == pbestval[index]
      {
        if gbestval > pbestval[j] {
          gbestval := pbestval[j];
          index := j;
        }
      }
      gbest := pbest[index];
    }

    method Begin()
      requires Valid()
      modifies this`gbest, this`gbestval, this`index, pbest, pbestval, netOut
      ensures View() == Start(old(View()), Err())
    {
      ghost var s := View();
      for i := 0 to pos.Length
        invariant pbest[..i] == s.pos[..i]
      {
        pbest[i] := pos[i];
      }
      for i := 0 to pos.Length
        invariant pbest[..] == s.pos
        invariant forall j | 0 <= j < i :: pbestval[j] == Err()(pos[j])
      {
        var sse := GetRbfSse(i);
        pbestval[i] := sse;
      }
      assert pbestval[..] == seq(|s.pos|, j requires 0 <= j < |s.pos| => Err()(s.pos[j]));
      Select();
    }

    method Remember()
      requires Valid()
      modifies pbest, pbestval, netOut
      ensures View() == Remembered(old(View()), Err())
    {
      ghost var s, goal := View(), Remembered(View(), Err());
      for j := 0 to pos.Length
        invariant pbestval[..j] == goal.pbestval[..j] && pbestval[j..] == s.pbestval[j..]
        invariant pbest[..j] == goal.pbest[..j] && pbest[j..] == s.pbest[j..]
      {
        Consider(j);
      }
    }

    /** Evaluates a particle and keeps its position if that is better than its best. */
    method Consider(j: nat)
      requires Valid() && j < pos.Length
      modifies pbest, pbestval, netOut
      ensures pbestval[..] == old(pbestval[..])[j := Less(old(pbestval[j]), Err()(pos[j]))]
      ensures pbest[..] == old(pbest[..])[j := if old(pbestval[j]) > Err()(pos[j]) then pos[j] else old(pbest[j])]
    {
      var sse := GetRbfSse(j);
      if pbestval[j] > sse {
        pbestval[j] := sse;
        pbest[j] := pos[j];
      }
    }

    method MoveParticle(j: nat, iwt: real, dice: Dice, epoch: nat, ghost goal: Row)
      requires Valid() && j < pos.Length
      requires goal == Velocity(vel[j], pbest[j], pos[j], gbest, iwt, dice, epoch, j)
      modifies pos, vel
      ensures vel[..] == old(vel[..])[j := goal]
      ensures pos[..] == old(pos[..])[j := Plus(old(pos[j]), goal)]
    {
      ghost var s := View();
      var v, x := vel[j], pos[j];
      for k := 0 to UNIT_NUM
        invariant |v| == UNIT_NUM
        invariant forall i | 0 <= i < UNIT_NUM :: v[i] == if i < k then goal[i] else s.vel[j][i]
      {
        var u := Pull(iwt, v[k], pbest[j][k], x[k], gbest[k], dice(epoch, j, k));
        if u > MV {
          u := MV;
        }
        if u < -MV {
          u := -MV;
        }
        assert u == goal[k];
        v := v[k := u];
      }
      for k := 0 to UNIT_NUM
        invariant |x| == UNIT_NUM
        invariant forall i | 0 <= i < UNIT_NUM :: x[i] == s.pos[j][i] + if i < k then goal[i] else 0.0
      {
        x := x[k := x[k] + v[k]];
      }
      assert v == goal && x == Plus(s.pos[j], goal);
      vel[j] := v;
      pos[j] := x;
    }

    method Move(dice: Dice, epoch: nat)
      requires Valid()
      modifies pos, vel
      ensures View() == Moved(old(View()), dice, epoch)
    {
      ghost var s := View();
      var iwt := Inertia(epoch);
      for j := 0 to pos.Length
        invariant vel[..j] == Moved(s, dice, epoch).vel[..j] && vel[j..] == s.vel[j..]
        invariant pos[..j] == Moved(s, dice, epoch).pos[..j] && pos[j..] == s.pos[j..]
      {
        MoveParticle(j, iwt, dice, epoch, Steered(s, j, dice, epoch));
      }
    }

    method RunEpoch(dice: Dice, epoch: nat)
      requires Valid()
      modifies this`gbest, this`gbestval, this`index, pos, vel, pbest, pbestval, netOut
      ensures View() == Epoch(old(View()), Err(), dice, epoch)
    {
      Remember();
      Select();
      Move(dice, epoch);
    }

    method RunEpochs(dice: Dice)
      requires Valid()
      modifies this`gbest, this`gbestval, this`index, pos, vel, pbest, pbestval, netOut
      ensures View() == Trained(old(View()), Err(), dice, maxEpoch)
    {
      ghost var s := View();
      Begin();
      for i := 0 to maxEpoch
        invariant View() == Trained(s, Err(), dice, i)
      {
        RunEpoch(dice, i);
      }
    }

    /** The training part of `rbfgrad_mark_probability`. */
    method Train(dice: Dice)
      requires Valid()
      modifies this, pos, vel, pbest, pbestval, netOut
      ensures View() == Trained(old(View()), Err(), dice, maxEpoch)
      ensures w == gbest && gbestval == Err()(w)
    {
      ghost var s := View();
      RunEpochs(dice);
      w := gbest;
      GlobalBest(s, Err(), dice, maxEpoch);
    }
  }
}
