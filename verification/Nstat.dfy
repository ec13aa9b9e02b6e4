/**
 The counter merge of misc/nstat.c: `update_db` walks the old list of counters and a freshly read one
 side by side, in a single pass over the fresh list.
 */
module Nstat {
  import opened Words

  /** Totals are 64-bit; the kernel's counters are words of `word` values. */
  const VAL := 0x1_0000_0000_0000_0000

  datatype Entry = Entry(id: string, val: nat, ival: nat)

  datatype Reading = Reading(id: string, ival: nat)

  // ----- one entry and its reading

  function Advanced(e: Entry, r: Reading, word: nat): Entry
    requires word > 0
  {
    Entry(e.id, Wrap(e.val + Increase(e.ival, r.ival, word), VAL), r.ival)
  }

  // ----- the pass over two lists

  /** The first reading with this name from `from` on; the length of the list if there is none. */
  function Find(h: seq<Reading>, id: string, from: nat): (k: nat)
    requires from <= |h|
    ensures from <= k <= |h| && (k < |h| ==> h[k].id == id)
    decreases |h| - from
  {
    if from == |h| || h[from].id == id then from else Find(h, id, from + 1)
  }

  lemma {:induction false} FindIsFirst(h: seq<Reading>, id: string, from: nat, k: nat)
    requires from <= k < |h| && h[k].id == id
    ensures Find(h, id, from) <= k
    decreases |h| - from
  {
    if h[from].id == id {
    } else {
      FindIsFirst(h, id, from + 1, k);
    }
  }

  /** Where the scan goes on after finding (or not finding) its reading at `k`. */
  function Resume(h: seq<Reading>, from: nat, k: nat): (next: nat)
    requires from <= k <= |h|
    ensures from <= next <= |h|
  {
    if k < |h| then k + 1 else from
  }

  function Merge(es: seq<Entry>, h: seq<Reading>, from: nat, word: nat): (r: seq<Entry>)
    requires from <= |h| && word > 0
    ensures |r| == |es|
  {
    if es == [] then []
    else
      var k := Find(h, es[0].id, from);
      [Counted(es[0], h, k, word)] + Merge(es[1..], h, Resume(h, from, k), word)
  }

  function Counted(e: Entry, h: seq<Reading>, k: nat, word: nat): Entry
    requires k <= |h| && word > 0
  {
    if k < |h| then Advanced(e, h[k], word) else e
  }

  class Counters {
    var kernDb: seq<Entry>

    constructor (db: seq<Entry>)
      ensures kernDb == db
    {
      kernDb := db;
    }

    /** `update_db` with the freshly read list `fresh` */
    method UpdateDb(readings: seq<Reading>, word: nat)
      requires word > 0
      modifies this
      ensures kernDb == Merge(old(kernDb), readings, 0, word)
    {
      ghost var all, done, rest := Merge(kernDb, readings, 0, word), [], kernDb;
      var n, h := 0, 0;
      while n < |kernDb|
        invariant 0 <= n <= |kernDb| && 0 <= h <= |readings|
        invariant kernDb == done + rest && |done| == n
        invariant all == done + Merge(rest, readings, h, word)
      {
        var h1 := Scan(readings, kernDb[n].id, h);
        MergeStep(done, rest, readings, h, word, h1);
        if h1 < |readings| {
          kernDb := kernDb[n := Advanced(kernDb[n], readings[h1], word)];
          h := h1 + 1;
        }
        done, rest := done + [kernDb[n]], rest[1..];
        n := n + 1;
      }
    }

    method Scan(readings: seq<Reading>, id: string, h: nat) returns (h1: nat)
      requires h <= |readings|
      ensures h1 == Find(readings, id, h)
    {
      h1 := h;
      while h1 < |readings| && readings[h1].id != id
        invariant h <= h1 <= |readings|
        invariant Find(readings, id, h) == Find(readings, id, h1)
      {
        h1 := h1 + 1;
      }
    }
  }

  lemma MergeStep(done: seq<Entry>, rest: seq<Entry>, h: seq<Reading>, from: nat, word: nat, k: nat)
    requires rest != [] && from <= |h| && word > 0 && k == Find(h, rest[0].id, from)
    ensures var e := Counted(rest[0], h, k, word);
            && done + Merge(rest, h, from, word) == (done + [e]) + Merge(rest[1..], h, Resume(h, from, k), word)
            && (done + rest)[|done| := e] == (done + [e]) + rest[1..]
  {
    var e, m := Counted(rest[0], h, k, word), Merge(rest[1..], h, Resume(h, from, k), word);
    assert Merge(rest, h, from, word) == [e] + m;
    assert done + ([e] + m) == (done + [e]) + m;
  }

  // ----- which reading each entry gets

  /** The reading that each entry is matched with; the length of the list for none. */
  function Matching(es: seq<Entry>, h: seq<Reading>, from: nat): (m: seq<nat>)
    requires from <= |h|
    ensures |m| == |es| && forall i | 0 <= i < |m| :: m[i] <= |h|
  {
    if es == [] then []
    else
      var k := Find(h, es[0].id, from);
      [k] + Matching(es[1..], h, Resume(h, from, k))
  }

  lemma {:induction false} MergeIsMatching(es: seq<Entry>, h: seq<Reading>, from: nat, word: nat, i: nat)
    requires from <= |h| && word > 0 && i < |es|
    ensures Merge(es, h, from, word)[i] == Counted(es[i], h, Matching(es, h, from)[i], word)
  {
    if i == 0 {
    } else {
      MergeIsMatching(es[1..], h, Resume(h, from, Find(h, es[0].id, from)), word, i - 1);
    }
  }

  predicate DistinctIds(h: seq<Reading>) {
    forall p, q | 0 <= p < q < |h| :: h[p].id != h[q].id
  }

  /** The names that both lists have come in the same relative order. */
  predicate SameOrder(es: seq<Entry>, h: seq<Reading>) {
    forall i, j, p, q | 0 <= i < j < |es| && 0 <= p < |h| && 0 <= q < |h| ::
      es[i].id == h[p].id && es[j].id == h[q].id ==> p < q
  }

  /** Every entry that has a reading of its own name is matched with it. */
  predicate AllMatched(es: seq<Entry>, h: seq<Reading>, m: seq<nat>)
    requires |m| == |es|
  {
    forall i, p | 0 <= i < |es| && 0 <= p < |h| :: es[i].id == h[p].id ==> m[i] == p
  }

  /** The readings of these entries' names all lie at `from` or later. */
  predicate Ahead(es: seq<Entry>, h: seq<Reading>, from: nat) {
    forall i, p | 0 <= i < |es| && 0 <= p < |h| :: es[i].id == h[p].id ==> p >= from
  }

  /** A match is with a reading of the same name, and the matches come in order. */
  lemma {:induction false} MatchingRises(es: seq<Entry>, h: seq<Reading>, from: nat, i: nat, j: nat)
    requires from <= |h| && i <= j < |es|
    ensures var m := Matching(es, h, from);
            && (m[i] < |h| ==> m[i] >= from && h[m[i]].id == es[i].id)
            && (i < j && m[i] < |h| && m[j] < |h| ==> m[i] < m[j])
  {
    var next := Resume(h, from, Find(h, es[0].id, from));
    if i > 0 {
      MatchingRises(es[1..], h, next, i - 1, j - 1);
    } else if j > 0 {
      MatchingRises(es[1..], h, next, j - 1, j - 1);
    }
  }

  /** With the order kept, one pass finds every reading. */
  lemma {:induction false} OrderMatches(es: seq<Entry>, h: seq<Reading>, from: nat)
    requires from <= |h| && DistinctIds(h) && SameOrder(es, h) && Ahead(es, h, from)
    ensures AllMatched(es, h, Matching(es, h, from))
  {
    if es == [] {
    } else {
      var k, rest := Find(h, es[0].id, from), es[1..];
      var next := Resume(h, from, k);
      FirstMatched(es, h, from);
      OrderMatches(rest, h, next);
      forall i, p | 0 <= i < |es| && 0 <= p < |h| && es[i].id == h[p].id
        ensures Matching(es, h, from)[i] == p
      {
        if i > 0 {
          assert rest[i - 1].id == h[p].id;
        }
      }
    }
  }

  lemma FirstMatched(es: seq<Entry>, h: seq<Reading>, from: nat)
    requires from <= |h| && DistinctIds(h) && SameOrder(es, h) && Ahead(es, h, from) && es != []
    ensures var k := Find(h, es[0].id, from);
            && (forall p | 0 <= p < |h| :: es[0].id == h[p].id ==> p == k)
            && SameOrder(es[1..], h) && Ahead(es[1..], h, Resume(h, from, k))
  {
    var k := Find(h, es[0].id, from);
    forall p | 0 <= p < |h| && es[0].id == h[p].id ensures p == k {
      FindIsFirst(h, es[0].id, from, p);
    }
    forall i, p | 0 <= i < |es[1..]| && 0 <= p < |h| && es[1..][i].id == h[p].id
      ensures p >= Resume(h, from, k)
    {
      assert es[i + 1].id == h[p].id;
    }
  }

  /** One pass matches every common name with its own reading exactly when both lists order them alike. */
  lemma MatchedIffSameOrder(es: seq<Entry>, h: seq<Reading>)
    requires DistinctIds(h)
    ensures AllMatched(es, h, Matching(es, h, 0)) <==> SameOrder(es, h)
  {
    if SameOrder(es, h) {
      OrderMatches(es, h, 0);
    }
    if AllMatched(es, h, Matching(es, h, 0)) {
      forall i, j, p, q | 0 <= i < j < |es| && 0 <= p < |h| && 0 <= q < |h|
        && es[i].id == h[p].id && es[j].id == h[q].id
        ensures p < q
      {
        MatchingRises(es, h, 0, i, j);
      }
    }
  }

  /** An entry whose name has no reading is never matched. */
  lemma UnreadUnmatched(es: seq<Entry>, h: seq<Reading>, i: nat)
    requires i < |es| && forall p | 0 <= p < |h| :: h[p].id != es[i].id
    ensures Matching(es, h, 0)[i] == |h|
  {
    MatchingRises(es, h, 0, i, i);
  }

  /** With the order kept, an entry with a reading is advanced by it and one without is left alone. */
  lemma UpdateExact(es: seq<Entry>, h: seq<Reading>, word: nat, i: nat)
    requires word > 0 && i < |es| && DistinctIds(h) && SameOrder(es, h)
    ensures forall p | 0 <= p < |h| :: h[p].id == es[i].id ==> Merge(es, h, 0, word)[i] == Advanced(es[i], h[p], word)
    ensures (forall p | 0 <= p < |h| :: h[p].id != es[i].id) ==> Merge(es, h, 0, word)[i] == es[i]
  {
    MatchedIffSameOrder(es, h);
    MergeIsMatching(es, h, 0, word, i);
    if forall p | 0 <= p < |h| :: h[p].id != es[i].id {
      UnreadUnmatched(es, h, i);
    }
  }

  // ----- totals over many updates

  /** What each counter really counted at each time. */
  type Truth = (string, nat) -> nat

  /** A reading at time `t` of every name, in the order of the entries. */
  predicate Reads(truth: Truth, t: nat, es: seq<Entry>, h: seq<Reading>, word: nat)
    requires word > 0
  {
    && DistinctIds(h) && SameOrder(es, h)
    && (forall p | 0 <= p < |h| :: h[p].ival == Wrap(truth(h[p].id, t), word))
    && (forall i | 0 <= i < |es| :: Has(h, es[i].id))
  }

  predicate Has(h: seq<Reading>, id: string) {
    exists p :: 0 <= p < |h| && h[p].id == id
  }

  function After(es: seq<Entry>, rounds: seq<seq<Reading>>, word: nat): (r: seq<Entry>)
    requires word > 0
    ensures |r| == |es|
  {
    if rounds == [] then es else Merge(After(es, rounds[..|rounds| - 1], word), rounds[|rounds| - 1], 0, word)
  }

  lemma {:induction false} MergeKeepsIds(es: seq<Entry>, h: seq<Reading>, from: nat, word: nat, i: nat)
    requires from <= |h| && word > 0 && i < |es|
    ensures Merge(es, h, from, word)[i].id == es[i].id
  {
    MergeIsMatching(es, h, from, word, i);
  }

  lemma {:induction false} AfterKeepsIds(es: seq<Entry>, rounds: seq<seq<Reading>>, word: nat, i: nat)
    requires word > 0 && i < |es|
    ensures After(es, rounds, word)[i].id == es[i].id
  {
    if rounds == [] {
    } else {
      var front := rounds[..|rounds| - 1];
      AfterKeepsIds(es, front, word, i);
      MergeKeepsIds(After(es, front, word), rounds[|rounds| - 1], 0, word, i);
    }
  }

  lemma OrderKept(es: seq<Entry>, fs: seq<Entry>, h: seq<Reading>)
    requires |es| == |fs| && (forall i | 0 <= i < |es| :: es[i].id == fs[i].id) && SameOrder(es, h)
    ensures SameOrder(fs, h)
  {
    forall i, j, p, q | 0 <= i < j < |fs| && 0 <= p < |h| && 0 <= q < |h|
      && fs[i].id == h[p].id && fs[j].id == h[q].id
      ensures p < q
    {
      assert es[i].id == h[p].id && es[j].id == h[q].id;
    }
  }

  /** Between updates a counter does not go back and grows by less than one word. */
  predicate Steady(truth: Truth, id: string, n: nat, word: nat) {
    forall t | 0 <= t < n :: truth(id, t) <= truth(id, t + 1) < truth(id, t) + word
  }

  /** The entry at time `t`, for one that stood at `e` at the start. */
  predicate Shows(truth: Truth, e: Entry, now: Entry, t: nat, word: nat)
    requires word > 0
  {
    && now.id == e.id
    && now.ival == Wrap(truth(e.id, t), word)
    && now.val == Wrap(e.val + (truth(e.id, t) - truth(e.id, 0)), 0x1_0000_0000_0000_0000)
  }

  lemma ShowsStep(truth: Truth, e: Entry, now: Entry, r: Reading, t: nat, word: nat)
    requires word > 0 && Shows(truth, e, now, t, word)
    requires r.id == e.id && r.ival == Wrap(truth(e.id, t + 1), word)
    requires truth(e.id, t) <= truth(e.id, t + 1) < truth(e.id, t) + word
    ensures Shows(truth, e, Advanced(now, r, word), t + 1, word)
  {
    var c, c' := truth(e.id, t), truth(e.id, t + 1);
    IncreaseIsTrue(c, c', word);
    WrapAdd(e.val + (c - truth(e.id, 0)), c' - c, VAL);
  }

  lemma UpdateShows(truth: Truth, es: seq<Entry>, now: seq<Entry>, h: seq<Reading>, t: nat, word: nat, i: nat)
    requires word > 0 && i < |es| == |now| && (forall j | 0 <= j < |es| :: now[j].id == es[j].id)
    requires Reads(truth, t + 1, es, h, word) && Shows(truth, es[i], now[i], t, word)
    requires truth(es[i].id, t) <= truth(es[i].id, t + 1) < truth(es[i].id, t) + word
    ensures Shows(truth, es[i], Merge(now, h, 0, word)[i], t + 1, word)
  {
    assert Has(h, es[i].id);
    var p :| 0 <= p < |h| && h[p].id == es[i].id;
    OrderKept(es, now, h);
    UpdateExact(now, h, word, i);
    ShowsStep(truth, es[i], now[i], h[p], t, word);
  }

  predicate AllRead(truth: Truth, es: seq<Entry>, rounds: seq<seq<Reading>>, word: nat)
    requires word > 0
  {
    forall t | 0 <= t < |rounds| :: Reads(truth, t + 1, es, rounds[t], word)
  }

  lemma FrontRead(truth: Truth, es: seq<Entry>, rounds: seq<seq<Reading>>, word: nat)
    requires word > 0 && rounds != [] && AllRead(truth, es, rounds, word)
    ensures var n := |rounds| - 1;
            AllRead(truth, es, rounds[..n], word) && Reads(truth, n + 1, es, rounds[n], word)
  {
  }

  /**
   After any number of updates each total has grown by what its counter really counted since the
   start, however often the counter word wrapped.
   */
  lemma {:induction false} TotalsAreTrue(
    truth: Truth, es: seq<Entry>, rounds: seq<seq<Reading>>, word: nat, i: nat)
    requires word > 0 && i < |es| && Shows(truth, es[i], es[i], 0, word)
    requires AllRead(truth, es, rounds, word)
    requires Steady(truth, es[i].id, |rounds|, word)
    ensures Shows(truth, es[i], After(es, rounds, word)[i], |rounds|, word)
    decreases |rounds|
  {
    if rounds == [] {
    } else {
      var n := |rounds| - 1;
      var front, h := rounds[..n], rounds[n];
      FrontRead(truth, es, rounds, word);
      TotalsAreTrue(truth, es, front, word, i);
      var now := After(es, front, word);
      forall j | 0 <= j < |es| ensures now[j].id == es[j].id {
        AfterKeepsIds(es, front, word, j);
      }
      UpdateShows(truth, es, now, h, n, word, i);
    }
  }
}
