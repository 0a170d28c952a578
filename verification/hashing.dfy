/**
 * Hash-table placement (src/hashing.cpp): the AES-based hash functions,
 * cuckoo hashing into 2^m buckets of one slot, and "complete" hashing into
 * 2^m buckets of `capacity` slots each, followed by a shuffle inside every
 * bucket.
 *
 * AES-128 itself is not modelled: a `Cipher` stands for it, and
 * `aes(key, block)` is the low word of the encryption of the block (0, block)
 * under the key (0, key), which is all that `aes_hash` uses.
 */
module Hashing {
  import opened Bits
  import opened Random

  type Cipher = (u64, u64) -> u64

  /**
   * `aes_hash(aes, bits, value)`: the low `bits` bits of the encryption of
   * the value xor the value itself; the source asserts bits < 64.
   */
  function AesHash(aes: Cipher, key: u64, bits: nat, value: u64): (r: nat)
    requires bits < 64
    ensures r < Pow2(bits)
  {
    LowBitsBelow(Xor(aes(key, value), value), bits);
    LowBits(Xor(aes(key, value), value), bits)
  }

  /**
   * `loc_aes_hash(aes, m, value)`: the hash of the high bits of the value
   * (`value >> m`) xor its low m bits, a bucket index below 2^m.
   */
  function LocAesHash(aes: Cipher, key: u64, m: nat, value: u64): (r: nat)
    requires m < 64
    ensures r < Pow2(m)
  {
    var h := AesHash(aes, key, m, ShiftRight(value, m));
    LowBitsBelow(value, m);
    XorBound(h, LowBits(value, m), m);
    Xor(h, LowBits(value, m))
  }

  /**
   * Permutation-based hashing: the bucket index and the high bits give back
   * the whole value, so the low m bits need not be stored.
   */
  lemma LocAesHashRecovers(aes: Cipher, key: u64, m: nat, value: u64)
    requires m < 64
    ensures var high := ShiftRight(value, m);
      value == high * Pow2(m) + Xor(LocAesHash(aes, key, m, value), AesHash(aes, key, m, high))
  {
    var high, low := ShiftRight(value, m), LowBits(value, m);
    var h := AesHash(aes, key, m, high);
    XorComm(h, low);
    XorCancel(low, h);
    SplitBits(value, m);
  }

  /** Hence two values with the same high bits and the same key meet in one bucket only if equal. */
  lemma LocAesHashInjective(aes: Cipher, key: u64, m: nat, v: u64, w: u64)
    requires m < 64 && ShiftRight(v, m) == ShiftRight(w, m)
    requires LocAesHash(aes, key, m, v) == LocAesHash(aes, key, m, w)
    ensures v == w
  {
    LocAesHashRecovers(aes, key, m, v);
    LocAesHashRecovers(aes, key, m, w);
  }

  /** A `bucket_slot`: an input and the index of the seed that placed it. */
  datatype Slot = Slot(value: u64, hashIndex: u64)

  const BUCKET_EMPTY: Slot := Slot(0xFFFF_FFFF_FFFF_FFFF, 0xFFFF_FFFF)

  /** Slot s belongs in bucket `loc`: its seed index is valid and sends its value there. */
  predicate AtHome(aes: Cipher, seeds: seq<u64>, m: nat, loc: nat, s: Slot)
    requires m < 64
  {
    s.hashIndex < |seeds| && LocAesHash(aes, seeds[s.hashIndex], m, s.value) == loc
  }

  /** The inputs a slot holds: none for `BUCKET_EMPTY`. */
  function Item(s: Slot): multiset<u64>
  {
    if s == BUCKET_EMPTY then multiset{} else multiset{s.value}
  }

  /** The inputs held by a table of one-slot buckets. */
  function Contents(b: seq<Slot>): (r: multiset<u64>)
    ensures |r| <= |b|
  {
    if b == [] then multiset{} else Contents(b[..|b| - 1]) + Item(b[|b| - 1])
  }

  /** Replacing bucket i by x trades the item of b[i] for the item of x. */
  lemma ContentsUpdate(b: seq<Slot>, i: nat, x: Slot)
    requires i < |b|
    ensures Contents(b[i := x]) + Item(b[i]) == Contents(b) + Item(x)
  {
    forall v
      ensures (Contents(b[i := x]) + Item(b[i]))[v] == (Contents(b) + Item(x))[v]
    {
      CountUpdate(b, i, x, v);
      ContentsCount(b[i := x], v);
      ContentsCount(b, v);
    }
  }

  /** How many buckets hold the input v. */
  function Count(b: seq<Slot>, v: u64): nat
  {
    if b == [] then 0 else Count(b[..|b| - 1], v) + Item(b[|b| - 1])[v]
  }

  lemma {:induction false} ContentsCount(b: seq<Slot>, v: u64)
    ensures Contents(b)[v] == Count(b, v)
  {
    if b != [] {
      ContentsCount(b[..|b| - 1], v);
    }
  }

  lemma {:induction false} CountUpdate(b: seq<Slot>, i: nat, x: Slot, v: u64)
    requires i < |b|
    ensures Count(b[i := x], v) + Item(b[i])[v] == Count(b, v) + Item(x)[v]
  {
    var n := |b| - 1;
    if i < n {
      assert b[i := x][..n] == b[..n][i := x];
      CountUpdate(b[..n], i, x, v);
    } else {
      assert b[i := x][..n] == b[..n];
    }
  }

  /** A table of empty buckets holds nothing. */
  lemma {:induction false} ContentsEmpty(b: seq<Slot>)
    requires forall k :: 0 <= k < |b| ==> b[k] == BUCKET_EMPTY
    ensures Contents(b) == multiset{}
  {
    if b != [] {
      ContentsEmpty(b[..|b| - 1]);
    }
  }

  lemma PrefixSnoc(s: seq<u64>, j: nat)
    requires j < |s|
    ensures multiset(s[..j + 1]) == multiset(s[..j]) + multiset{s[j]}
  {
    assert s[..j + 1] == s[..j] + [s[j]];
  }

  /** Every occupied bucket holds a slot that belongs there. */
  predicate Placed(aes: Cipher, seeds: seq<u64>, m: nat, b: seq<Slot>)
    requires m < 64
  {
    forall k :: 0 <= k < |b| && b[k] != BUCKET_EMPTY ==> AtHome(aes, seeds, m, k, b[k])
  }

  /** Storing a slot in its own bucket keeps every bucket's slot at home. */
  lemma PlacedUpdate(aes: Cipher, seeds: seq<u64>, m: nat, b: seq<Slot>, loc: nat, x: Slot)
    requires m < 64 && loc < |b| && Placed(aes, seeds, m, b) && AtHome(aes, seeds, m, loc, x)
    ensures Placed(aes, seeds, m, b[loc := x])
  {
  }

  /**
   * The inner loop of `cuckoo_hash`: draw `random_integer(random,
   * seeds.size())` until it differs from the displaced item's old index.
   * With one seed no other index exists and no draw is ever accepted.
   */
  method Rehash(g: Generator, count: u64, previous: u64) returns (r: Option<u64>)
    requires g.Valid()
    modifies g
    ensures g.Valid()
    ensures r.Some? ==> r.value != previous && r.value < count && old(g.position) < g.position
    ensures r.None? ==> g.position == |g.draws|
  {
    r := Some(previous);
    while r.Some? && r.value == previous
      invariant g.Valid() && old(g.position) <= g.position
      invariant r.Some? ==> r.value == previous || (r.value < count && old(g.position) < g.position)
      invariant r.None? ==> g.position == |g.draws|
      decreases |g.draws| - g.position, if r.Some? then 1 else 0
    {
      r := RandomInteger(g, count);
    }
  }

  /**
   * The `while (!resolved)` loop of `cuckoo_hash`: swap the item in flight
   * into its bucket; whatever was there is now in flight under a new seed
   * index, until an empty bucket is reached.
   */
  method Insert(g: Generator, aes: Cipher, m: nat, buckets: array<Slot>, seeds: seq<u64>, item: Slot)
    returns (ok: bool)
    requires g.Valid() && m <= 30 && buckets.Length == Pow2(m) && |seeds| < 0xFFFF_FFFF
    requires item.hashIndex < |seeds|
    requires Placed(aes, seeds, m, buckets[..])
    modifies g, buckets
    ensures g.Valid() && Placed(aes, seeds, m, buckets[..])
    ensures ok ==> Contents(buckets[..]) == old(Contents(buckets[..])) + multiset{item.value}
    ensures !ok ==> g.position == |g.draws|
  {
    var current := item;
    var resolved := false;
    while !resolved
      invariant g.Valid() && Placed(aes, seeds, m, buckets[..])
      invariant !resolved ==> current.hashIndex < |seeds|
      invariant !resolved ==>
        Contents(buckets[..]) + multiset{current.value} == old(Contents(buckets[..])) + multiset{item.value}
      invariant resolved ==> Contents(buckets[..]) == old(Contents(buckets[..])) + multiset{item.value}
      decreases |g.draws| - g.position, if resolved then 0 else 1
    {
      var loc := LocAesHash(aes, seeds[current.hashIndex], m, current.value);
      ContentsUpdate(buckets[..], loc, current);
      PlacedUpdate(aes, seeds, m, buckets[..], loc, current);
      ghost var updated := buckets[..][loc := current];
      current, buckets[loc] := buckets[loc], current;
      assert buckets[..] == updated;
      if current == BUCKET_EMPTY {
        resolved := true;
      } else {
        var h := Rehash(g, |seeds|, current.hashIndex);
        if h.None? {
          return false;
        }
        current := current.(hashIndex := h.value);
      }
    }
    return true;
  }

  /** One pass of the `for (uint64_t s : inputs)` loop of `cuckoo_hash`: s under a random seed index. */
  method InsertInput(g: Generator, aes: Cipher, m: nat, buckets: array<Slot>, seeds: seq<u64>, s: u64)
    returns (ok: bool)
    requires g.Valid() && m <= 30 && buckets.Length == Pow2(m) && |seeds| < 0xFFFF_FFFF
    requires Placed(aes, seeds, m, buckets[..])
    modifies g, buckets
    ensures g.Valid() && Placed(aes, seeds, m, buckets[..])
    ensures ok ==> Contents(buckets[..]) == old(Contents(buckets[..])) + multiset{s}
    ensures !ok ==> g.position == |g.draws|
  {
    var index := RandomInteger(g, |seeds|);
    if index.None? {
      return false;
    }
    ok := Insert(g, aes, m, buckets, seeds, Slot(s, index.value));
  }

  /**
   * `cuckoo_hash`: every input is inserted under a random seed index. The
   * buckets, which start empty, then hold every input exactly once, each in
   * the bucket its seed sends it to.
   */
  method CuckooHash(g: Generator, aes: Cipher, inputs: seq<u64>, m: nat, buckets: array<Slot>, seeds: seq<u64>)
    returns (ok: bool)
    requires g.Valid() && m <= 30 && buckets.Length == Pow2(m) && |seeds| < 0xFFFF_FFFF
    requires forall k :: 0 <= k < buckets.Length ==> buckets[k] == BUCKET_EMPTY
    modifies g, buckets
    ensures g.Valid() && Placed(aes, seeds, m, buckets[..])
    ensures ok ==> Contents(buckets[..]) == multiset(inputs)
    ensures !ok ==> g.position == |g.draws|
  {
    ContentsEmpty(buckets[..]);
    for j := 0 to |inputs|
      invariant g.Valid() && Placed(aes, seeds, m, buckets[..])
      invariant Contents(buckets[..]) == multiset(inputs[..j])
    {
      ok := InsertInput(g, aes, m, buckets, seeds, inputs[j]);
      if !ok {
        return;
      }
      PrefixSnoc(inputs, j);
    }
    assert inputs[..|inputs|] == inputs;
    return true;
  }

  /** Input s under each of the seed indices 0, ..., k - 1, in that order. */
  function Row(s: u64, k: u64): (r: seq<Slot>)
    ensures |r| == k
  {
    if k == 0 then [] else Row(s, k - 1) + [Slot(s, k - 1)]
  }

  /**
   * The slots `complete_hash` places, in the order it places them: every
   * input, in order, under every seed index.
   */
  function Pairs(xs: seq<u64>, k: u64): (r: seq<Slot>)
    ensures |r| == |xs| * k
  {
    if xs == [] then [] else Pairs(xs[..|xs| - 1], k) + Row(xs[|xs| - 1], k)
  }

  /** `Row(s, k)` holds (s, i) once for each i < k and nothing else. */
  lemma {:induction false} RowCount(s: u64, k: u64, x: Slot)
    ensures multiset(Row(s, k))[x] == if x.value == s && x.hashIndex < k then 1 else 0
  {
    if k > 0 {
      RowCount(s, k - 1, x);
      assert multiset(Row(s, k)) == multiset(Row(s, k - 1)) + multiset{Slot(s, k - 1)};
    }
  }

  /** Each input is placed once for each seed index: as often as it occurs among the inputs. */
  lemma {:induction false} PairsCount(xs: seq<u64>, k: u64, x: Slot)
    ensures multiset(Pairs(xs, k))[x] == if x.hashIndex < k then multiset(xs)[x.value] else 0
  {
    if xs != [] {
      var n := |xs| - 1;
      PairsCount(xs[..n], k, x);
      RowCount(xs[n], k, x);
      LastCount(xs, x.value);
    }
  }

  /** Splitting off the last element of xs splits its count of v. */
  lemma LastCount(xs: seq<u64>, v: u64)
    requires xs != []
    ensures multiset(xs)[v] == multiset(xs[..|xs| - 1])[v] + if xs[|xs| - 1] == v then 1 else 0
  {
    assert xs == xs[..|xs| - 1] + [xs[|xs| - 1]];
  }

  /** The slots of `ps` that belong in bucket `loc`, in order. */
  function InBucket(aes: Cipher, seeds: seq<u64>, m: nat, ps: seq<Slot>, loc: nat): (r: seq<Slot>)
    requires m < 64
    ensures |r| <= |ps|
  {
    if ps == [] then []
    else
      var last := ps[|ps| - 1];
      InBucket(aes, seeds, m, ps[..|ps| - 1], loc) + if AtHome(aes, seeds, m, loc, last) then [last] else []
  }

  /** Bucket `loc` receives exactly the slots of `ps` whose home it is, each as often as it occurs. */
  lemma {:induction false} InBucketCount(aes: Cipher, seeds: seq<u64>, m: nat, ps: seq<Slot>, loc: nat, x: Slot)
    requires m < 64
    ensures multiset(InBucket(aes, seeds, m, ps, loc))[x] ==
      if AtHome(aes, seeds, m, loc, x) then multiset(ps)[x] else 0
  {
    if ps != [] {
      var n := |ps| - 1;
      InBucketCount(aes, seeds, m, ps[..n], loc, x);
      assert ps == ps[..n] + [ps[n]];
    }
  }

  /** A longer run of placements puts at least as much into every bucket. */
  lemma {:induction false} InBucketPrefix(aes: Cipher, seeds: seq<u64>, m: nat, p: seq<Slot>, q: seq<Slot>, loc: nat)
    requires m < 64 && p <= q
    ensures |InBucket(aes, seeds, m, p, loc)| <= |InBucket(aes, seeds, m, q, loc)|
    decreases |q|
  {
    if |p| < |q| {
      assert p <= q[..|q| - 1];
      InBucketPrefix(aes, seeds, m, p, q[..|q| - 1], loc);
    } else {
      assert p == q;
    }
  }

  lemma InBucketSnoc(aes: Cipher, seeds: seq<u64>, m: nat, p: seq<Slot>, x: Slot, loc: nat)
    requires m < 64
    ensures InBucket(aes, seeds, m, p + [x], loc) ==
      InBucket(aes, seeds, m, p, loc) + if AtHome(aes, seeds, m, loc, x) then [x] else []
  {
    assert (p + [x])[..|p|] == p;
  }

  /** Every bucket has room for all the slots that belong in it. */
  predicate Fits(aes: Cipher, seeds: seq<u64>, m: nat, c: nat, ps: seq<Slot>)
    requires m < 64
  {
    forall loc :: 0 <= loc < Pow2(m) ==> |InBucket(aes, seeds, m, ps, loc)| <= c
  }

  /** Bucket l of a table of c-slot buckets: slots c * l to c * l + c - 1. */
  function Bucket(b: seq<Slot>, c: nat, l: nat): (r: seq<Slot>)
  {
    if c * l + c <= |b| then b[c * l .. c * l + c] else []
  }

  lemma RegionFits(c: nat, l: nat, n: nat)
    requires l < n
    ensures c * l + c <= c * n
  {
    assert c * n == c * l + c * (n - l);
    if c > 0 {
      MulAtLeast(c, n - l);
    }
  }

  /** Writing position p, slot k of bucket `loc`, changes that bucket alone. */
  lemma BucketUpdate(b: seq<Slot>, c: nat, n: nat, loc: nat, k: nat, p: nat, x: Slot, l: nat)
    requires |b| == c * n && loc < n && k < c && l < n && p == c * loc + k && p < |b|
    ensures |Bucket(b, c, l)| == c
    ensures Bucket(b[p := x], c, l) == if l == loc then Bucket(b, c, l)[k := x] else Bucket(b, c, l)
  {
    RegionFits(c, loc, n);
    BucketIs(b, c, n, l);
    BucketIs(b[p := x], c, n, l);
    var base := c * l;
    if l == loc {
      SliceUpdate(b, base, c, p, x);
    } else {
      if l < loc {
        RegionFits(c, l, loc);
      } else {
        RegionFits(c, loc, l);
      }
      SliceOutside(b, base, c, p, x);
    }
  }

  /** Inside the table, bucket l is the region of c slots from c * l. */
  lemma BucketIs(b: seq<Slot>, c: nat, n: nat, l: nat)
    requires |b| == c * n && l < n
    ensures c * l + c <= |b| && Bucket(b, c, l) == b[c * l .. c * l + c]
  {
    RegionFits(c, l, n);
  }

  /** Writing a position outside a region leaves the region as it was. */
  lemma SliceOutside(a: seq<Slot>, base: nat, c: nat, i: nat, v: Slot)
    requires base + c <= |a| && i < |a| && (i < base || base + c <= i)
    ensures a[i := v][base..base + c] == a[base..base + c]
  {
  }

  /**
   * The layout of bucket l after placing the slots `ps`: it starts with the
   * slots of `ps` that belong there, `used` of them and at most c, followed
   * by what the table held at those positions before.
   */
  predicate BucketLayout(aes: Cipher, seeds: seq<u64>, m: nat, c: nat, b: seq<Slot>, b0: seq<Slot>, used: nat,
                         ps: seq<Slot>, l: nat)
    requires m < 64
  {
    used == |InBucket(aes, seeds, m, ps, l)| && used <= c && |Bucket(b0, c, l)| == c &&
    Bucket(b, c, l) == InBucket(aes, seeds, m, ps, l) + Bucket(b0, c, l)[used..]
  }

  /** The layout of the whole table, with `used[l]` the fill of bucket l. */
  predicate Layout(aes: Cipher, seeds: seq<u64>, m: nat, c: nat, b: seq<Slot>, b0: seq<Slot>, used: seq<nat>, ps: seq<Slot>)
    requires m < 64
  {
    |b| == c * Pow2(m) && |b0| == c * Pow2(m) && |used| == Pow2(m) &&
    forall l :: 0 <= l < Pow2(m) ==> BucketLayout(aes, seeds, m, c, b, b0, used[l], ps, l)
  }

  /** Placing x at position p, slot `fill` of its home bucket `loc`, appends x to that bucket's placed slots. */
  lemma PlaceHome(aes: Cipher, seeds: seq<u64>, m: nat, c: nat, n: nat, b: seq<Slot>, b0: seq<Slot>,
                  ps: seq<Slot>, x: Slot, loc: nat, fill: nat, p: nat)
    requires m < 64 && |b| == c * n && loc < n && fill < c && p == c * loc + fill && p < |b|
    requires BucketLayout(aes, seeds, m, c, b, b0, fill, ps, loc)
    requires AtHome(aes, seeds, m, loc, x)
    ensures BucketLayout(aes, seeds, m, c, b[p := x], b0, fill + 1, ps + [x], loc)
  {
    var a := InBucket(aes, seeds, m, ps, loc);
    BucketUpdate(b, c, n, loc, fill, p, x, loc);
    InBucketSnoc(aes, seeds, m, ps, x, loc);
    SetAfter(Bucket(b, c, loc), a, Bucket(b0, c, loc), x, fill);
  }

  /** A bucket holding a and then the old slots from `fill` on, with slot `fill` overwritten by x. */
  lemma SetAfter(bucket: seq<Slot>, a: seq<Slot>, old0: seq<Slot>, x: Slot, fill: nat)
    requires |a| == fill < |old0| && bucket == a + old0[fill..]
    ensures bucket[fill := x] == (a + [x]) + old0[fill + 1..]
  {
  }

  /** Placing x in bucket `loc` leaves the layout of every other bucket l as it was. */
  lemma PlaceOther(aes: Cipher, seeds: seq<u64>, m: nat, c: nat, n: nat, b: seq<Slot>, b0: seq<Slot>,
                   ps: seq<Slot>, x: Slot, loc: nat, fill: nat, p: nat, l: nat, used: nat)
    requires m < 64 && |b| == c * n && loc < n && l < n && l != loc && fill < c && p == c * loc + fill && p < |b|
    requires BucketLayout(aes, seeds, m, c, b, b0, used, ps, l)
    requires AtHome(aes, seeds, m, loc, x)
    ensures BucketLayout(aes, seeds, m, c, b[p := x], b0, used, ps + [x], l)
  {
    BucketUpdate(b, c, n, loc, fill, p, x, l);
    InBucketSnoc(aes, seeds, m, ps, x, l);
  }

  /** Placing x at position p, the next free slot of its bucket `loc`, extends the layout by x. */
  lemma PlaceStep(aes: Cipher, seeds: seq<u64>, m: nat, c: nat, b: seq<Slot>, b0: seq<Slot>, used: seq<nat>,
                  ps: seq<Slot>, x: Slot, loc: nat, p: nat)
    requires m < 64 && Layout(aes, seeds, m, c, b, b0, used, ps)
    requires loc < |used| && AtHome(aes, seeds, m, loc, x)
    requires used[loc] < c && p == c * loc + used[loc] && p < |b|
    ensures Layout(aes, seeds, m, c, b[p := x], b0, used[loc := used[loc] + 1], ps + [x])
  {
    var n := Pow2(m);
    var used' := used[loc := used[loc] + 1];
    assert BucketLayout(aes, seeds, m, c, b, b0, used[loc], ps, loc);
    forall l | 0 <= l < n
      ensures BucketLayout(aes, seeds, m, c, b[p := x], b0, used'[l], ps + [x], l)
    {
      if l == loc {
        PlaceHome(aes, seeds, m, c, n, b, b0, ps, x, loc, used[loc], p);
      } else {
        PlaceOther(aes, seeds, m, c, n, b, b0, ps, x, loc, used[loc], p, l, used[l]);
      }
    }
  }

  /** Slot k of bucket l lies inside a table of n buckets. */
  lemma SlotFits(c: nat, n: nat, l: nat, k: nat)
    requires l < n && k < c
    ensures 0 <= c * l + k < c * n
  {
    RegionFits(c, l, n);
  }

  /** Row(s, i) is the start of Row(s, k) for i <= k. */
  lemma {:induction false} RowPrefix(s: u64, i: u64, k: u64)
    requires i <= k
    ensures Row(s, i) <= Row(s, k)
    decreases k
  {
    if i < k {
      RowPrefix(s, i, k - 1);
    }
  }

  /** The placements for the first j inputs are the start of those for all of them. */
  lemma {:induction false} PairsPrefix(xs: seq<u64>, j: nat, k: u64)
    requires j <= |xs|
    ensures Pairs(xs[..j], k) <= Pairs(xs, k)
    decreases |xs|
  {
    if j < |xs| {
      var n := |xs| - 1;
      assert xs[..n][..j] == xs[..j];
      PairsPrefix(xs[..n], j, k);
    } else {
      assert xs[..j] == xs;
    }
  }

  /** If a run of placements overflows a bucket, so does any longer run. */
  lemma OverflowExtends(aes: Cipher, seeds: seq<u64>, m: nat, c: nat, p: seq<Slot>, q: seq<Slot>)
    requires m < 64 && p <= q && !Fits(aes, seeds, m, c, p)
    ensures !Fits(aes, seeds, m, c, q)
  {
    var loc :| 0 <= loc < Pow2(m) && |InBucket(aes, seeds, m, p, loc)| > c;
    InBucketPrefix(aes, seeds, m, p, q, loc);
  }

  /** Bucket `loc` already holds c slots of p: placing one more there means q does not fit. */
  lemma Overflow(aes: Cipher, seeds: seq<u64>, m: nat, c: nat, p: seq<Slot>, x: Slot, loc: nat, q: seq<Slot>)
    requires m < 64 && loc < Pow2(m) && |InBucket(aes, seeds, m, p, loc)| == c
    requires AtHome(aes, seeds, m, loc, x) && p + [x] <= q
    ensures !Fits(aes, seeds, m, c, q)
  {
    InBucketSnoc(aes, seeds, m, p, x, loc);
    InBucketPrefix(aes, seeds, m, p + [x], q, loc);
  }

  /** Before any placement, every bucket is as the table held it. */
  lemma InitialLayout(aes: Cipher, seeds: seq<u64>, m: nat, c: nat, b0: seq<Slot>, used: seq<nat>)
    requires m < 64 && |b0| == c * Pow2(m) && |used| == Pow2(m)
    requires forall l :: 0 <= l < |used| ==> used[l] == 0
    ensures Layout(aes, seeds, m, c, b0, b0, used, [])
  {
    forall l | 0 <= l < Pow2(m)
      ensures BucketLayout(aes, seeds, m, c, b0, b0, used[l], [], l)
    {
      BucketIs(b0, c, Pow2(m), l);
      var rest := Bucket(b0, c, l);
      assert InBucket(aes, seeds, m, [], l) == [];
      assert rest == [] + rest[0..];
    }
  }

  /** Once all slots are placed, the fill counters are the bucket loads and can be dropped. */
  predicate PlacedLayout(aes: Cipher, seeds: seq<u64>, m: nat, c: nat, b: seq<Slot>, b0: seq<Slot>, ps: seq<Slot>)
    requires m < 64
  {
    forall l :: 0 <= l < Pow2(m) ==>
      BucketLayout(aes, seeds, m, c, b, b0, |InBucket(aes, seeds, m, ps, l)|, ps, l)
  }

  /** A layout whose fill counters stay within the capacity: everything fits. */
  lemma LayoutDone(aes: Cipher, seeds: seq<u64>, m: nat, c: nat, b: seq<Slot>, b0: seq<Slot>, used: seq<nat>, ps: seq<Slot>)
    requires m < 64 && Layout(aes, seeds, m, c, b, b0, used, ps)
    ensures Fits(aes, seeds, m, c, ps) && PlacedLayout(aes, seeds, m, c, b, b0, ps)
  {
    forall l | 0 <= l < Pow2(m)
      ensures |InBucket(aes, seeds, m, ps, l)| <= c
      ensures BucketLayout(aes, seeds, m, c, b, b0, |InBucket(aes, seeds, m, ps, l)|, ps, l)
    {
      assert BucketLayout(aes, seeds, m, c, b, b0, used[l], ps, l);
    }
  }

  /**
   * One placement: x goes to the next free slot of its bucket `loc`, unless
   * that bucket already holds c slots.
   */
  method PlaceSlot(aes: Cipher, seeds: seq<u64>, m: nat, c: nat, buckets: array<Slot>, used: array<nat>,
                   x: Slot, loc: nat, ghost b0: seq<Slot>, ghost ps: seq<Slot>)
    returns (ok: bool)
    requires m <= 30 && loc < used.Length && AtHome(aes, seeds, m, loc, x)
    requires Layout(aes, seeds, m, c, buckets[..], b0, used[..], ps)
    modifies buckets, used
    ensures ok ==> Layout(aes, seeds, m, c, buckets[..], b0, used[..], ps + [x])
    ensures !ok ==> |InBucket(aes, seeds, m, ps, loc)| == c
  {
    ghost var b, u := buckets[..], used[..];
    assert BucketLayout(aes, seeds, m, c, b, b0, u[loc], ps, loc);
    var fill := used[loc];
    if fill == c {
      return false;
    }
    SlotFits(c, used.Length, loc, fill);
    var p: nat := c * loc + fill;
    PlaceStep(aes, seeds, m, c, b, b0, u, ps, x, loc, p);
    Write(buckets, used, p, loc, x);
    return true;
  }

  /** Slot p of the table receives x, and the fill of bucket `loc` goes up by one. */
  method Write(buckets: array<Slot>, used: array<nat>, p: nat, loc: nat, x: Slot)
    requires p < buckets.Length && loc < used.Length
    modifies buckets, used
    ensures buckets[..] == old(buckets[..])[p := x]
    ensures used[..] == old(used[..])[loc := old(used[loc]) + 1]
  {
    buckets[p] := x;
    used[loc] := used[loc] + 1;
  }

  /**
   * The inner loop of the placement phase of `complete_hash`: input s under
   * each seed index in turn, at the next free slot of its bucket, failing at
   * the first bucket that is full.
   */
  method PlaceInput(aes: Cipher, seeds: seq<u64>, m: nat, c: nat, buckets: array<Slot>, used: array<nat>,
                    s: u64, ghost b0: seq<Slot>, ghost ps: seq<Slot>)
    returns (ok: bool)
    requires m <= 30 && |seeds| < TWO_64
    requires Layout(aes, seeds, m, c, buckets[..], b0, used[..], ps)
    modifies buckets, used
    ensures ok ==> Layout(aes, seeds, m, c, buckets[..], b0, used[..], ps + Row(s, |seeds|))
    ensures !ok ==> !Fits(aes, seeds, m, c, ps + Row(s, |seeds|))
  {
    assert ps + Row(s, 0) == ps;
    for i := 0 to |seeds|
      invariant Layout(aes, seeds, m, c, buckets[..], b0, used[..], ps + Row(s, i))
    {
      var loc := LocAesHash(aes, seeds[i], m, s);
      var x := Slot(s, i);
      ghost var placed := ps + Row(s, i);
      assert ps + Row(s, i + 1) == placed + [x];
      ok := PlaceSlot(aes, seeds, m, c, buckets, used, x, loc, b0, placed);
      if !ok {
        RowPrefix(s, i + 1, |seeds|);
        Overflow(aes, seeds, m, c, placed, x, loc, ps + Row(s, |seeds|));
        return false;
      }
    }
    return true;
  }

  /**
   * The placement phase of `complete_hash`: every input under every seed
   * index goes to the next free slot of its bucket. It succeeds exactly when
   * every bucket has room for all the slots that belong in it.
   */
  method PlaceAll(aes: Cipher, inputs: seq<u64>, m: nat, c: nat, buckets: array<Slot>, seeds: seq<u64>)
    returns (ok: bool)
    requires m <= 30 && buckets.Length == c * Pow2(m) && |seeds| < TWO_64
    modifies buckets
    ensures ok <==> Fits(aes, seeds, m, c, Pairs(inputs, |seeds|))
    ensures ok ==> PlacedLayout(aes, seeds, m, c, buckets[..], old(buckets[..]), Pairs(inputs, |seeds|))
  {
    var n := Pow2(m);
    var used := new nat[n](_ => 0);
    ghost var b0 := buckets[..];
    ghost var k: u64 := |seeds|;
    InitialLayout(aes, seeds, m, c, b0, used[..]);
    for j := 0 to |inputs|
      invariant Layout(aes, seeds, m, c, buckets[..], b0, used[..], Pairs(inputs[..j], k))
    {
      assert inputs[..j + 1][..j] == inputs[..j];
      ok := PlaceInput(aes, seeds, m, c, buckets, used, inputs[j], b0, Pairs(inputs[..j], k));
      if !ok {
        PairsPrefix(inputs, j + 1, k);
        OverflowExtends(aes, seeds, m, c, Pairs(inputs[..j + 1], k), Pairs(inputs, k));
        return false;
      }
    }
    assert inputs[..|inputs|] == inputs;
    LayoutDone(aes, seeds, m, c, buckets[..], b0, used[..], Pairs(inputs, k));
    return true;
  }

  /** Swapping two slots of a bucket keeps the slots it holds. */
  lemma SwapSlots(s: seq<Slot>, i: nat, j: nat)
    requires i < |s| && j < |s|
    ensures multiset(s[i := s[j]][j := s[i]]) == multiset(s)
  {
  }

  /** Writing position i of a region changes slot i - base of that region. */
  lemma SliceUpdate(a: seq<Slot>, base: nat, c: nat, i: nat, v: Slot)
    requires base <= i < base + c <= |a|
    ensures a[i := v][base..base + c] == a[base..base + c][i - base := v]
  {
  }

  /** Changing only positions inside bucket l leaves every other bucket as it was. */
  lemma OtherBucket(b: seq<Slot>, b': seq<Slot>, c: nat, n: nat, l: nat, l': nat)
    requires |b| == c * n && |b'| == |b| && l < n && l' < n && l != l'
    requires forall i :: 0 <= i < |b| && !(c * l <= i < c * l + c) ==> b'[i] == b[i]
    ensures Bucket(b', c, l') == Bucket(b, c, l')
  {
    RegionFits(c, l', n);
    if l' < l {
      RegionFits(c, l', l);
    } else {
      RegionFits(c, l, l');
    }
  }

  /** Swaps slots i and j of the region of c slots from `base`; nothing outside the region changes. */
  method SwapInRegion(buckets: array<Slot>, base: nat, c: nat, i: nat, j: nat)
    requires i < c && j < c && base + c <= buckets.Length
    modifies buckets
    ensures multiset(buckets[base..base + c]) == multiset(old(buckets[base..base + c]))
    ensures forall k :: 0 <= k < buckets.Length && !(base <= k < base + c) ==> buckets[k] == old(buckets[k])
  {
    ghost var before := buckets[..];
    ghost var region := buckets[base..base + c];
    var first, second := buckets[base + i], buckets[base + j];
    SwapSlots(region, i, j);
    SliceUpdate(before, base, c, base + i, second);
    buckets[base + i] := second;
    ghost var mid := buckets[..];
    assert mid == before[base + i := second];
    SliceUpdate(mid, base, c, base + j, first);
    buckets[base + j] := first;
    assert buckets[..] == mid[base + j := first];
    assert buckets[base..base + c] == region[i := region[j]][j := region[i]];
  }

  /**
   * The shuffle of bucket l in `complete_hash`: each slot from 1 on is
   * swapped with a slot drawn at random among it and those before it. The
   * bucket keeps its slots, every other bucket is untouched.
   */
  method ShuffleBucket(g: Generator, buckets: array<Slot>, c: nat, n: nat, l: nat) returns (ok: bool)
    requires g.Valid() && c < TWO_64 && buckets.Length == c * n && l < n
    modifies g, buckets
    ensures g.Valid() && old(g.position) <= g.position
    ensures multiset(Bucket(buckets[..], c, l)) == multiset(Bucket(old(buckets[..]), c, l))
    ensures forall l' :: 0 <= l' < n && l' != l ==> Bucket(buckets[..], c, l') == Bucket(old(buckets[..]), c, l')
    ensures !ok ==> g.position == |g.draws|
  {
    RegionFits(c, l, n);
    var base := c * l;
    ghost var b := buckets[..];
    assert Bucket(b, c, l) == b[base..base + c];
    var slot := 1;
    while slot < c
      invariant g.Valid() && old(g.position) <= g.position
      invariant multiset(buckets[base..base + c]) == multiset(b[base..base + c])
      invariant forall i :: 0 <= i < buckets.Length && !(base <= i < base + c) ==> buckets[i] == b[i]
    {
      var prev := RandomInteger(g, slot + 1);
      if prev.None? {
        ok := false;
        break;
      }
      SwapInRegion(buckets, base, c, slot, prev.value);
      slot := slot + 1;
    }
    if slot >= c {
      ok := true;
    }
    assert Bucket(buckets[..], c, l) == buckets[base..base + c];
    forall l' | 0 <= l' < n && l' != l
      ensures Bucket(buckets[..], c, l') == Bucket(b, c, l')
    {
      OtherBucket(b, buckets[..], c, n, l, l');
    }
  }

  /** The shuffle phase of `complete_hash`: every bucket in turn. Each bucket keeps its slots. */
  method ShuffleBuckets(g: Generator, buckets: array<Slot>, c: nat, n: nat) returns (ok: bool)
    requires g.Valid() && c < TWO_64 && buckets.Length == c * n
    modifies g, buckets
    ensures g.Valid() && old(g.position) <= g.position
    ensures forall l :: 0 <= l < n ==> multiset(Bucket(buckets[..], c, l)) == multiset(Bucket(old(buckets[..]), c, l))
    ensures !ok ==> g.position == |g.draws|
  {
    ghost var b := buckets[..];
    for bucket := 0 to n
      invariant g.Valid() && old(g.position) <= g.position
      invariant forall l :: 0 <= l < bucket ==> multiset(Bucket(buckets[..], c, l)) == multiset(Bucket(b, c, l))
      invariant forall l :: bucket <= l < n ==> Bucket(buckets[..], c, l) == Bucket(b, c, l)
    {
      ok := ShuffleBucket(g, buckets, c, n, bucket);
      if !ok {
        return;
      }
    }
    return true;
  }

  /**
   * `complete_hash`: place every input under every seed index, then shuffle
   * each bucket. It fails, leaving the generator untouched, exactly when some
   * bucket would receive more than c slots; otherwise each bucket holds the
   * slots that belong there, in some order, together with what the table
   * held in the rest of the bucket. `None` means the generator ran out
   * during the shuffle.
   */
  method CompleteHash(g: Generator, aes: Cipher, inputs: seq<u64>, m: nat, c: nat, buckets: array<Slot>,
                      seeds: seq<u64>)
    returns (r: Option<bool>)
    requires g.Valid() && m <= 30 && c < TWO_64 && buckets.Length == c * Pow2(m) && |seeds| < TWO_64
    modifies g, buckets
    ensures g.Valid()
    ensures r == Some(false) <==> !Fits(aes, seeds, m, c, Pairs(inputs, |seeds|))
    ensures r == Some(false) ==> g.position == old(g.position)
    ensures r == Some(true) ==> forall l :: 0 <= l < Pow2(m) ==>
      multiset(Bucket(buckets[..], c, l)) == multiset(Filled(aes, seeds, m, c, old(buckets[..]), Pairs(inputs, |seeds|), l))
    ensures r.None? ==> g.position == |g.draws|
  {
    ghost var b0 := buckets[..];
    ghost var ps := Pairs(inputs, |seeds|);
    var ok := PlaceAll(aes, inputs, m, c, buckets, seeds);
    if !ok {
      return Some(false);
    }
    LayoutFilled(aes, seeds, m, c, buckets[..], b0, ps);
    ok := ShuffleBuckets(g, buckets, c, Pow2(m));
    if !ok {
      return None;
    }
    return Some(true);
  }

  /**
   * Bucket l once the slots `ps` are placed into the table `b0`: the slots
   * that belong there, then what `b0` held in the rest of the bucket.
   */
  function Filled(aes: Cipher, seeds: seq<u64>, m: nat, c: nat, b0: seq<Slot>, ps: seq<Slot>, l: nat): (r: seq<Slot>)
    requires m < 64
    ensures |Bucket(b0, c, l)| == c && |InBucket(aes, seeds, m, ps, l)| <= c ==> |r| == c
  {
    var placed := InBucket(aes, seeds, m, ps, l);
    var rest := Bucket(b0, c, l);
    if |placed| <= |rest| then placed + rest[|placed|..] else placed
  }

  /** After the placement phase every bucket is exactly as `Filled` describes it. */
  lemma LayoutFilled(aes: Cipher, seeds: seq<u64>, m: nat, c: nat, b: seq<Slot>, b0: seq<Slot>, ps: seq<Slot>)
    requires m < 64 && PlacedLayout(aes, seeds, m, c, b, b0, ps)
    ensures forall l :: 0 <= l < Pow2(m) ==> Bucket(b, c, l) == Filled(aes, seeds, m, c, b0, ps, l)
  {
    forall l | 0 <= l < Pow2(m)
      ensures Bucket(b, c, l) == Filled(aes, seeds, m, c, b0, ps, l)
    {
      assert BucketLayout(aes, seeds, m, c, b, b0, |InBucket(aes, seeds, m, ps, l)|, ps, l);
    }
  }

  /**
   * What a bucket receives from `complete_hash`: the pair (s, i) as often as
   * s occurs among the inputs when seed i sends s to that bucket, and
   * nothing else.
   */
  lemma PlacedCount(aes: Cipher, seeds: seq<u64>, m: nat, inputs: seq<u64>, l: nat, x: Slot)
    requires m < 64 && |seeds| < TWO_64
    ensures multiset(InBucket(aes, seeds, m, Pairs(inputs, |seeds|), l))[x] ==
      if AtHome(aes, seeds, m, l, x) then multiset(inputs)[x.value] else 0
  {
    InBucketCount(aes, seeds, m, Pairs(inputs, |seeds|), l, x);
    PairsCount(inputs, |seeds|, x);
  }
}
