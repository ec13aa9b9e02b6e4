/**
 Unsigned machine arithmetic: integers reduced to a word.
 */
module Words {
  /** `c` as a word of `word` values */
  function Wrap(c: int, word: nat): (r: nat)
    requires word > 0
    ensures r < word && (0 <= c < word ==> r == c)
    decreases if c < 0 then word - c else c
  {
    if c < 0 then Wrap(c + word, word) else if c < word then c else Wrap(c - word, word)
  }

  /** `after - before` in the arithmetic of the word */
  function Increase(before: nat, after: nat, word: nat): (d: nat)
    requires word > 0
    ensures d < word
  {
    Wrap(after - before, word)
  }

  lemma {:induction false} WrapAdd(c: int, d: int, word: nat)
    requires word > 0
    ensures Wrap(Wrap(c, word) + d, word) == Wrap(c + d, word)
    decreases if c < 0 then word - c else c
  {
    if 0 <= c < word {
    } else if c < 0 {
      assert Wrap(c, word) == Wrap(c + word, word);
      WrapAdd(c + word, d, word);
      WrapShift(c + d, word);
    } else {
      assert Wrap(c, word) == Wrap(c - word, word);
      WrapAdd(c - word, d, word);
      WrapShift(c - word + d, word);
    }
  }

  lemma WrapShift(c: int, word: nat)
    requires word > 0
    ensures Wrap(c + word, word) == Wrap(c, word)
  {
  }

  /** Values less than one word apart show their true distance, wrapped or not. */
  lemma {:induction false} IncreaseIsTrue(c0: nat, c1: nat, word: nat)
    requires word > 0 && c0 <= c1 < c0 + word
    ensures Increase(Wrap(c0, word), Wrap(c1, word), word) == c1 - c0
  {
    if c0 >= word {
      IncreaseIsTrue(c0 - word, c1 - word, word);
    } else if c1 >= word {
      assert Wrap(c1, word) == c1 - word;
    }
  }
}
