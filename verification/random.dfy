/**
 * Random values from SEAL's `UniformRandomGenerator`, which outputs 32-bit
 * values (src/random.cpp). The generator is a fixed stream of draws; only the
 * range, the bits taken from each draw and the rejection loops are modelled,
 * not the distribution.
 */
module Random {
  import opened Bits

  /**
   * A `UniformRandomGenerator`: `draws` are the values its calls of
   * `generate()` return, in order, and `position` counts the calls made so
   * far. The model makes only finitely many values available, so that every
   * rejection loop ends: once they are used up, a draw reports `None`.
   */
  class Generator {
    const draws: seq<u32>
    var position: nat

    ghost predicate Valid()
      reads this
    {
      position <= |draws|
    }

    constructor (draws: seq<u32>)
      ensures Valid() && this.draws == draws && position == 0
    {
      this.draws := draws;
      position := 0;
    }

    /** `generate()`: the next value of the stream. */
    method Generate() returns (r: Option<u32>)
      requires Valid()
      modifies this
      ensures Valid()
      ensures old(position) < |draws| ==> r == Some(draws[old(position)]) && position == old(position) + 1
      ensures old(position) == |draws| ==> r == None && position == old(position)
    {
      if position < |draws| {
        r := Some(draws[position]);
        position := position + 1;
      } else {
        r := None;
      }
    }
  }

  /** `word >> (64 - bits)`, with no bit kept when bits = 0. */
  function TopBits(word: nat, bits: nat): (r: nat)
    requires bits <= 64
    ensures r <= word
  {
    if bits == 0 then 0 else ShiftRight(word, 64 - bits)
  }

  /** Of a 64-bit word, `TopBits` keeps a value of `bits` bits. */
  lemma TopBitsBelow(word: nat, bits: nat)
    requires word < TWO_64 && bits <= 64
    ensures TopBits(word, bits) < Pow2(bits)
  {
    if bits > 0 {
      ShiftRightDiv(word, 64 - bits);
      TopBitsBound(word, bits);
    }
  }

  lemma TopBitsWord(word: nat, bits: nat)
    requires word < TWO_64 && bits <= 64
    ensures TopBits(word, bits) < TWO_64
  {
  }

  /**
   * `TopBits` keeps the top `bits` bits: the word lies between
   * r * 2^(64 - bits) and (r + 1) * 2^(64 - bits).
   */
  lemma TopBitsSpan(word: nat, bits: nat)
    requires word < TWO_64 && bits <= 64
    ensures var r := TopBits(word, bits);
      r * Pow2(64 - bits) <= word < (r + 1) * Pow2(64 - bits)
  {
    Pow2Constants();
    ShiftRightDiv(word, 64 - bits);
    DivBounds(word, Pow2(64 - bits));
  }

  lemma TopBitsBound(word: nat, bits: nat)
    requires word < TWO_64 && bits <= 64
    ensures word / Pow2(64 - bits) < Pow2(bits)
  {
    Pow2Constants();
    Pow2Add(bits, 64 - bits);
    DivBelow(word, Pow2(64 - bits), Pow2(bits));
  }

  lemma DivBounds(x: nat, d: nat)
    requires d > 0
    ensures (x / d) * d <= x < (x / d + 1) * d
  {
  }

  /**
   * `word >> (64 - bits)` as x86-64 executes it: the shift count is reduced
   * modulo 64, so with bits = 0 (a shift by 64, undefined in C++) the whole
   * word comes back instead of 0.
   */
  function TopBitsAsWritten(word: nat, bits: nat): (r: nat)
    requires bits <= 64
    ensures bits > 0 ==> r == TopBits(word, bits)
    ensures bits == 0 ==> r == word
  {
    ShiftRight(word, (64 - bits) % 64)
  }

  /**
   * The k the first loop of `random_integer` settles on, searching upwards
   * from `k`: the least exponent with limit <= 2^k, and 64 when the limit
   * exceeds 2^63 (see `LimitLoopAsWritten`).
   */
  function LeastBits(limit: u64, k: nat): (r: nat)
    requires k <= 64
    ensures k <= r <= 64
    decreases 64 - k
  {
    if k < 64 && limit > Pow2(k) then LeastBits(limit, k + 1) else k
  }

  /** Below 64, the exponent found is enough: limit <= 2^LeastBits(limit, k). */
  lemma {:induction false} LeastBitsEnough(limit: u64, k: nat)
    requires k <= 64
    ensures LeastBits(limit, k) < 64 ==> limit <= Pow2(LeastBits(limit, k))
    decreases 64 - k
  {
    if k < 64 && limit > Pow2(k) {
      LeastBitsEnough(limit, k + 1);
    }
  }

  /** No smaller exponent will do: below `LeastBits(limit, k)` every 2^j is under the limit. */
  lemma {:induction false} LeastBitsLeast(limit: u64, k: nat, j: nat)
    requires k <= 64 && k <= j < LeastBits(limit, k)
    ensures limit > Pow2(j)
    decreases 64 - k
  {
    if j > k {
      LeastBitsLeast(limit, k + 1, j);
    }
  }

  /** `1ULL << k` as x86-64 executes it: the shift count is reduced modulo 64. */
  function OneShiftedAsWritten(k: nat): (r: nat)
    ensures k < 64 ==> r == Pow2(k)
  {
    Pow2(k % 64)
  }

  /**
   * The loop `while (limit > (1ULL << k)) k++` as written: for a limit above
   * 2^63 its guard holds for every k, so it never exits.
   */
  lemma LimitLoopAsWritten(limit: u64, k: nat)
    requires limit > Pow2(63)
    ensures limit > OneShiftedAsWritten(k)
  {
    Pow2Monotone(k % 64, 63);
  }

  /**
   * `random_integer(1)` as written: k = 0 and `random_bits(random, 0)`
   * returns the whole word, so every draw but the all-zero word is rejected.
   */
  lemma RandomIntegerOfOneAsWritten(word: u64)
    requires word > 0
    ensures LeastBits(1, 0) == 0 && TopBitsAsWritten(word, LeastBits(1, 0)) >= 1
  {
    assert Pow2(0) == 1;
  }

  /** With the corrected `TopBits`, `random_integer(1)` accepts its first draw, 0. */
  lemma RandomIntegerOfOne(word: u64)
    ensures TopBits(word, LeastBits(1, 0)) == 0
  {
    assert Pow2(0) == 1;
  }

  /**
   * The value `random_bits(random, bits)` makes of the draws at p and p + 1:
   * the top bits of the word whose high half is the second draw.
   */
  function Draw(draws: seq<u32>, p: nat, bits: nat): nat
    requires p + 1 < |draws| && bits <= 64
  {
    TopBits(draws[p + 1] * TWO_32 + draws[p], bits)
  }

  /** A draw of `bits` bits is below 2^bits. */
  lemma DrawBelow(draws: seq<u32>, p: nat, bits: nat)
    requires p + 1 < |draws| && bits <= 64
    ensures Draw(draws, p, bits) < Pow2(bits)
  {
    WordDisjoint(draws[p], draws[p + 1]);
    TopBitsBelow(draws[p + 1] * TWO_32 + draws[p], bits);
  }

  /**
   * `random_bits(random, bits)`: two draws, the first the low half and the
   * second the high half of a word, of which the top `bits` bits are kept.
   */
  method RandomBits(g: Generator, bits: nat) returns (r: Option<u64>)
    requires g.Valid() && bits <= 64
    modifies g
    ensures g.Valid()
    ensures old(g.position) + 2 <= |g.draws| ==>
      g.position == old(g.position) + 2 &&
      r == Some(Draw(g.draws, old(g.position), bits))
    ensures old(g.position) + 2 > |g.draws| ==> r == None && g.position == |g.draws|
  {
    var lo := g.Generate();
    if lo.None? {
      return None;
    }
    var hi := g.Generate();
    if hi.None? {
      return None;
    }
    var word := Word(lo.value, hi.value);
    TopBitsWord(word, bits);
    r := Some(TopBits(word, bits));
  }

  /** The first loop of `random_integer`, stopped at 64: k = `LeastBits(limit, 0)`. */
  method BitsForLimit(limit: u64) returns (k: nat)
    ensures k == LeastBits(limit, 0)
  {
    k := 0;
    while k < 64 && limit > Pow2(k)
      invariant k <= 64 && LeastBits(limit, k) == LeastBits(limit, 0)
      decreases 64 - k
    {
      k := k + 1;
    }
  }

  /**
   * `random_integer(random, limit)`: draw `random_bits(random, k)` until the
   * value is below the limit. An accepted value is below the limit and is
   * the top k bits of the last two draws. With limit = 0 no value is ever
   * accepted.
   */
  method RandomInteger(g: Generator, limit: u64) returns (r: Option<u64>)
    requires g.Valid()
    modifies g
    ensures g.Valid() && old(g.position) <= g.position
    ensures r.Some? ==> r.value < limit
    ensures r.Some? ==> old(g.position) + 2 <= g.position
    ensures r.Some? ==> r.value == Draw(g.draws, g.position - 2, LeastBits(limit, 0))
    ensures r.None? ==> g.position == |g.draws|
  {
    var k := BitsForLimit(limit);
    ghost var last := g.position;
    r := RandomBits(g, k);
    while r.Some? && r.value >= limit
      invariant g.Valid() && old(g.position) <= last
      invariant r.Some? ==> last + 2 == g.position && r.value == Draw(g.draws, last, k)
      invariant r.None? ==> last <= g.position
      invariant r.None? ==> g.position == |g.draws|
      decreases |g.draws| - g.position, if r.Some? then 1 else 0
    {
      last := g.position;
      r := RandomBits(g, k);
    }
    if r.Some? {
      assert g.position - 2 == last;
    }
  }

  /**
   * `random_nonzero_integer(random, limit)`: draw `random_integer` until the
   * value is not 0, so an accepted value lies strictly between 0 and the limit.
   */
  method RandomNonzeroInteger(g: Generator, limit: u64) returns (r: Option<u64>)
    requires g.Valid()
    modifies g
    ensures g.Valid() && old(g.position) <= g.position
    ensures r.Some? ==> 0 < r.value < limit
    ensures r.Some? ==> 2 <= g.position && r.value == Draw(g.draws, g.position - 2, LeastBits(limit, 0))
    ensures r.None? ==> g.position == |g.draws|
  {
    r := RandomInteger(g, limit);
    while r.Some? && r.value == 0
      invariant g.Valid() && old(g.position) <= g.position
      invariant r.Some? ==> r.value < limit && 2 <= g.position && r.value == Draw(g.draws, g.position - 2, LeastBits(limit, 0))
      invariant r.None? ==> g.position == |g.draws|
      decreases |g.draws| - g.position, if r.Some? then 1 else 0
    {
      r := RandomInteger(g, limit);
    }
  }
}
