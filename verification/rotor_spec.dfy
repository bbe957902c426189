/**
 * The closed-form meaning of the PRT-7 mapping rotor: the fixed 27-symbol
 * alphabet, the rotation offset, and the character mapping as modular
 * arithmetic. The ring walked by RotorDeMapeo (module Rotor) is proved
 * equal to these definitions.
 */
module RotorSpec {

  /** The ring's contents, in ring order (RotorDeMapeo.cpp line 16). */
  const ALPHABET: string := "ABCDEFGHIJKLMNOPQRSTUVWXYZ "
  /** The number of ring nodes: 26 letters and the space. */
  const SIZE: nat := 27

  /** The symbol at ring position i, written out without the literal. */
  function Symbol(i: nat): char
    requires i < SIZE
  {
    if i < 26 then ('A' as int + i) as char else ' '
  }

  lemma AlphabetIsSymbols()
    ensures |ALPHABET| == SIZE
    ensures forall i | 0 <= i < SIZE :: ALPHABET[i] == Symbol(i)
  {
  }

  /** Membership in the ring, by character code: the letters 'A'..'Z' and the space. */
  predicate InAlphabet(c: char) {
    'A' <= c <= 'Z' || c == ' '
  }

  /** InAlphabet is exactly membership in the literal alphabet. */
  lemma InAlphabetIff(c: char)
    ensures c in ALPHABET <==> InAlphabet(c)
  {
    AlphabetIsSymbols();
    if 'A' <= c <= 'Z' {
      assert ALPHABET[c as int - 'A' as int] == c;
    } else if c == ' ' {
      assert ALPHABET[26] == c;
    }
  }

  /** The position of an alphabet symbol in the ring. */
  function IndexOf(c: char): (i: nat)
    requires InAlphabet(c)
    ensures i < SIZE && Symbol(i) == c
  {
    if c == ' ' then 26 else c as int - 'A' as int
  }

  /** An alphabet symbol sits at its index. */
  lemma SymbolOfIndex(c: char)
    ensures InAlphabet(c) ==> Symbol(IndexOf(c)) == c
  {
  }

  /** Every ring position holds an alphabet symbol whose index is that position. */
  lemma IndexOfSymbol(i: nat)
    requires i < SIZE
    ensures InAlphabet(Symbol(i)) && IndexOf(Symbol(i)) == i
  {
  }

  /** The alphabet has no repeated symbol. */
  lemma {:induction false} AlphabetDistinct()
    ensures forall i, j | 0 <= i < j < SIZE :: ALPHABET[i] != ALPHABET[j]
  {
    AlphabetIsSymbols();
    forall i, j | 0 <= i < j < SIZE
      ensures ALPHABET[i] != ALPHABET[j]
    {
      IndexOfSymbol(i);
      IndexOfSymbol(j);
    }
  }

  /** C++'s `a % b` for b > 0: the remainder truncates toward zero and takes the sign of a. */
  function CRem(a: int, b: int): (r: int)
    requires b > 0
    ensures -b < r < b
    ensures a >= 0 ==> 0 <= r
    ensures a < 0 ==> r <= 0
  {
    if a >= 0 then a % b else -((-a) % b)
  }

  /** The truncated remainder by SIZE is congruent to its dividend. */
  lemma CRemCongruent(a: int)
    ensures (a - CRem(a, SIZE)) % SIZE == 0
  {
    if a < 0 {
      var q := (-a) / SIZE;
      assert -a == q * SIZE + (-a) % SIZE;
      assert a - CRem(a, SIZE) == (-q) * SIZE;
    }
  }

  /** The offset after rotating by n from offset o, normalised into [0, SIZE). */
  function Rotated(o: int, n: int): (r: nat)
    ensures r < SIZE
    ensures (r - o - n) % SIZE == 0
  {
    (o + n) % SIZE
  }

  /**
   * The character that getMapeo returns when the head sits at ring position
   * `offset`: an alphabet symbol at distance d from the head decodes to the
   * symbol at distance d from 'A'; anything else is returned unchanged.
   */
  function MapChar(offset: int, c: char): (r: char)
    ensures InAlphabet(r) <==> InAlphabet(c)
    ensures !InAlphabet(c) ==> r == c
  {
    if InAlphabet(c) then Symbol((IndexOf(c) - offset) % SIZE) else c
  }

  // ---------------------------------------------------------------------------
  // Rotation arithmetic

  /** Rotations compose additively, whatever the signs and magnitudes. */
  lemma RotatedCompose(o: int, a: int, b: int)
    ensures Rotated(Rotated(o, a), b) == Rotated(o, a + b)
  {
    var r1 := Rotated(o, a);
    assert (r1 - o - a) % SIZE == 0;
    ModShift(r1 + b, o + a + b);
  }

  /** The ring position after k. */
  function Succ(k: nat): (r: nat)
    requires k < SIZE
    ensures r < SIZE
  {
    if k == SIZE - 1 then 0 else k + 1
  }

  /** The ring position before k. */
  function Pred(k: nat): (r: nat)
    requires k < SIZE
    ensures r < SIZE
  {
    if k == 0 then SIZE - 1 else k - 1
  }

  /** One step forward on the ring adds one modulo SIZE. */
  lemma SuccMod(x: int)
    ensures Succ(x % SIZE) == (x + 1) % SIZE
  {
    ModStep(x, 1);
  }

  /** One step backward on the ring subtracts one modulo SIZE. */
  lemma PredMod(x: int)
    ensures Pred(x % SIZE) == (x - 1) % SIZE
  {
    ModStep(x, -1);
  }

  /** Two integers congruent modulo SIZE have the same normalised remainder. */
  lemma ModShift(x: int, y: int)
    requires (x - y) % SIZE == 0
    ensures x % SIZE == y % SIZE
  {
    var k := (x - y) / SIZE;
    assert x == y + k * SIZE;
    ModMultiple(y, k);
  }

  /** Adding d after reducing modulo SIZE is adding d before. */
  lemma ModStep(x: int, d: int)
    ensures (x % SIZE + d) % SIZE == (x + d) % SIZE
  {
    ModShift(x % SIZE + d, x + d);
  }

  lemma ModMultiple(y: int, k: int)
    ensures (y + k * SIZE) % SIZE == y % SIZE
  {
  }

  /** Adding the truncated remainder of n turns a position as far as adding n itself. */
  lemma CRemRotated(o: int, n: int)
    ensures (o + CRem(n, SIZE)) % SIZE == Rotated(o, n)
  {
    var m := CRem(n, SIZE);
    CRemCongruent(n);
    var q := (n - m) / SIZE;
    assert n - m == q * SIZE;
    assert (o + m) - (o + n) == (-q) * SIZE;
    ModMultiple(0, -q);
    ModShift(o + m, o + n);
  }

  /** A rotation by a multiple of SIZE (0, 27, -27, ...) leaves a normalised offset where it is. */
  lemma RotatedFullTurn(o: int, n: int)
    requires 0 <= o < SIZE
    requires n % SIZE == 0
    ensures Rotated(o, n) == o
  {
    ModShift(o + n, o);
  }

  /** Rotating by n and then by -n returns a normalised offset to where it was. */
  lemma RotatedInverse(o: int, n: int)
    requires 0 <= o < SIZE
    ensures Rotated(Rotated(o, n), -n) == o
  {
    RotatedCompose(o, n, -n);
    RotatedFullTurn(o, 0);
  }

  // ---------------------------------------------------------------------------
  // Properties of the mapping

  /** Only the offset modulo SIZE matters to the mapping. */
  lemma MapCharPeriodic(o1: int, o2: int, c: char)
    requires (o1 - o2) % SIZE == 0
    ensures MapChar(o1, c) == MapChar(o2, c)
  {
    if InAlphabet(c) {
      var i := IndexOf(c);
      ModShift(i - o1, i - o2);
    }
  }

  /** At offset 0 the mapping is the identity. */
  lemma MapCharIdentity(c: char)
    ensures MapChar(0, c) == c
  {
  }

  /** Mapping at offset b and then at offset a is mapping at offset a + b. */
  lemma MapCharCompose(a: int, b: int, c: char)
    ensures MapChar(a, MapChar(b, c)) == MapChar(a + b, c)
  {
    if InAlphabet(c) {
      var j := (IndexOf(c) - b) % SIZE;
      IndexOfSymbol(j);
      assert IndexOf(MapChar(b, c)) == j;
      ModShift(j - a, IndexOf(c) - (a + b));
    }
  }

  /**
   * For every offset the mapping is a bijection of the alphabet: mapping at
   * -o undoes mapping at o, in both orders.
   */
  lemma MapCharInverse(o: int, c: char)
    ensures MapChar(-o, MapChar(o, c)) == c
    ensures MapChar(o, MapChar(-o, c)) == c
  {
    MapCharCompose(-o, o, c);
    MapCharCompose(o, -o, c);
    MapCharIdentity(c);
  }

  /** No two distinct characters map to the same result at one offset. */
  lemma MapCharInjective(o: int, c1: char, c2: char)
    requires MapChar(o, c1) == MapChar(o, c2)
    ensures c1 == c2
  {
    MapCharInverse(o, c1);
    MapCharInverse(o, c2);
  }

  /** Every alphabet symbol is the image of exactly one alphabet symbol. */
  lemma MapCharOnto(o: int, t: char)
    requires InAlphabet(t)
    ensures InAlphabet(MapChar(-o, t)) && MapChar(o, MapChar(-o, t)) == t
  {
    MapCharInverse(o, t);
  }

  /**
   * The worked example of the RotorDeMapeo.cpp doc-comment: with the head
   * two steps past 'A', 'A' is 25 steps from the head and decodes to 'Z'.
   */
  lemma WorkedExample()
    ensures MapChar(2, 'A') == 'Z'
    ensures MapChar(2, ' ') == 'Y'
    ensures MapChar(2, 'W') == 'U'
    ensures MapChar(2, 'C') == 'A'
  {
  }
}
