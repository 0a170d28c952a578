/**
 * The generators of random test sets (src/test_utils.cpp): a sender set of
 * distinct values, labels, and a receiver set of distinct values of which a
 * given percentage is drawn from the sender set, shuffled in place. The
 * `vector<uint64_t>` arguments are arrays whose slots the methods overwrite.
 *
 * Every method reports `false` when the generator's draws run out, which a
 * real generator never does; the contracts say what holds when it did not.
 */
module TestUtils {
  import opened Bits
  import opened Random

  /** No value occurs twice. */
  predicate Distinct(s: seq<u64>)
  {
    forall i, j :: 0 <= i < j < |s| ==> s[i] != s[j]
  }

  /** `(inputs.size() * match_prob_percent) / 100`, the product wrapping at 2^64. */
  function Matches(n: u64, percent: u64): u64
  {
    (n * percent) % TWO_64 / 100
  }

  /** Without wrap-around, `matches` is the percentage of n rounded down. */
  lemma MatchesExact(n: u64, percent: u64)
    requires n * percent < TWO_64
    ensures Matches(n, percent) * 100 <= n * percent < (Matches(n, percent) + 1) * 100
  {
    var p := n * percent;
    assert p % TWO_64 == p;
    DivBounds(p, 100);
  }

  /** A percentage of at most 100 asks for at most n matches. */
  lemma MatchesAtMost(n: u64, percent: u64)
    requires percent <= 100 && n * 100 < TWO_64
    ensures Matches(n, percent) <= n
  {
    assert n * percent <= n * 100;
    MatchesExact(n, percent);
  }

  /** The values occurring in s. */
  function Values(s: seq<u64>): (r: set<u64>)
    ensures forall x :: x in r <==> x in s
  {
    set x | x in s
  }

  /** The values occurring in both s and t. */
  function Shared(s: seq<u64>, t: seq<u64>): (r: set<u64>)
    ensures forall x :: x in r <==> x in s && x in t
  {
    set x | x in s && x in t
  }

  /** A sequence of distinct values has as many distinct values as entries. */
  lemma {:induction false} DistinctCard(s: seq<u64>)
    requires Distinct(s)
    ensures |Values(s)| == |s|
  {
    if s != [] {
      var t := s[..|s| - 1];
      var last := s[|s| - 1];
      assert s == t + [last];
      assert Distinct(t);
      DistinctCard(t);
      var a, b := Values(t), Values(s);
      assert b == a + {last};
      assert last !in a;
    }
  }

  lemma {:induction false} SubsetCard(a: set<u64>, b: set<u64>)
    requires a <= b
    ensures |a| <= |b|
    decreases a
  {
    if a != {} {
      var x :| x in a;
      SubsetCard(a - {x}, b - {x});
    }
  }

  /** Appending a value not yet present keeps the values distinct. */
  lemma AppendDistinct(s: seq<u64>, v: u64)
    requires Distinct(s) && v !in s
    ensures Distinct(s + [v])
  {
  }

  /**
   * `generate_random_sender_set`: each slot in turn is filled with the first
   * draw of `random_bits(random, bits)` not already seen, so the entries are
   * distinct and each has `bits` bits.
   */
  method GenerateRandomSenderSet(g: Generator, inputs: array<u64>, bits: nat) returns (ok: bool)
    requires g.Valid() && bits <= 64
    modifies g, inputs
    ensures g.Valid()
    ensures ok ==> Distinct(inputs[..])
    ensures ok ==> forall i :: 0 <= i < inputs.Length ==> inputs[i] < Pow2(bits)
    ensures !ok ==> g.position == |g.draws|
  {
    var seen: set<u64> := {};
    for j := 0 to inputs.Length
      invariant g.Valid()
      invariant forall x :: x in seen <==> x in inputs[..j]
      invariant Distinct(inputs[..j])
      invariant forall i :: 0 <= i < j ==> inputs[i] < Pow2(bits)
    {
      var v := FreshBits(g, bits, seen);
      if v.None? {
        return false;
      }
      ghost var prefix := inputs[..j];
      assert v.value !in prefix;
      AppendDistinct(prefix, v.value);
      inputs[j] := v.value;
      assert inputs[..j + 1] == prefix + [v.value];
      seen := seen + {v.value};
    }
    assert inputs[..] == inputs[..inputs.Length];
    return true;
  }

  /**
   * The do-while loop of `generate_random_sender_set`: draw
   * `random_bits(random, bits)` until the value is not in `seen`.
   */
  method FreshBits(g: Generator, bits: nat, seen: set<u64>) returns (v: Option<u64>)
    requires g.Valid() && bits <= 64
    modifies g
    ensures g.Valid()
    ensures v.Some? ==> v.value !in seen && v.value < Pow2(bits)
    ensures v.None? ==> g.position == |g.draws|
  {
    v := BitsBelow(g, bits);
    while v.Some? && v.value in seen
      invariant g.Valid()
      invariant v.Some? ==> v.value < Pow2(bits)
      invariant v.None? ==> g.position == |g.draws|
      decreases |g.draws| - g.position, if v.Some? then 1 else 0
    {
      v := BitsBelow(g, bits);
    }
  }

  /** `random_bits(random, bits)` together with the bound on what it returns. */
  method BitsBelow(g: Generator, bits: nat) returns (v: Option<u64>)
    requires g.Valid() && bits <= 64
    modifies g
    ensures g.Valid()
    ensures v.Some? ==> old(g.position) + 2 == g.position && v.value < Pow2(bits)
    ensures v.None? ==> g.position == |g.draws|
  {
    ghost var p := g.position;
    v := RandomBits(g, bits);
    if v.Some? {
      DrawBelow(g.draws, p, bits);
    }
  }

  /**
   * `generate_random_labels`: slot j receives `random_bits(random, bits)`,
   * made of the draws 2j and 2j + 1 after the starting position.
   */
  method GenerateRandomLabels(g: Generator, labels: array<u64>, bits: nat) returns (ok: bool)
    requires g.Valid() && bits <= 64
    modifies g, labels
    ensures g.Valid()
    ensures ok ==> g.position == old(g.position) + 2 * labels.Length
    ensures ok ==> forall i :: 0 <= i < labels.Length ==>
      old(g.position) + 2 * i + 1 < |g.draws| &&
      labels[i] == Draw(g.draws, old(g.position) + 2 * i, bits) && labels[i] < Pow2(bits)
    ensures !ok ==> g.position == |g.draws|
  {
    ghost var start := g.position;
    for j := 0 to labels.Length
      invariant g.Valid() && g.position == start + 2 * j
      invariant forall i :: 0 <= i < j ==>
        start + 2 * i + 1 < |g.draws| && labels[i] == Draw(g.draws, start + 2 * i, bits)
    {
      var v := RandomBits(g, bits);
      if v.None? {
        return false;
      }
      labels[j] := v.value;
    }
    forall i | 0 <= i < labels.Length
      ensures labels[i] < Pow2(bits)
    {
      DrawBelow(g.draws, start + 2 * i, bits);
    }
    return true;
  }

  /**
   * One candidate of `generate_random_receiver_set`: a sender input at
   * `random_integer(random, sender_inputs.size())` for the first `matches`
   * slots, `random_bits(random, bits)` for the others.
   */
  method Candidate(g: Generator, sender: array<u64>, bits: nat, fromSender: bool) returns (v: Option<u64>)
    requires g.Valid() && bits <= 64 && sender.Length < TWO_64
    modifies g
    ensures g.Valid() && old(g.position) <= g.position
    ensures v.Some? ==> old(g.position) < g.position
    ensures v.Some? && fromSender ==> v.value in sender[..]
    ensures v.Some? && !fromSender ==> v.value < Pow2(bits)
    ensures v.None? ==> g.position == |g.draws|
  {
    if fromSender {
      var k := RandomInteger(g, sender.Length);
      if k.None? {
        return None;
      }
      v := Some(sender[k.value]);
    } else {
      v := BitsBelow(g, bits);
    }
  }

  /** The do-while loop of `generate_random_receiver_set`: candidates until one is not in `seen`. */
  method FreshCandidate(g: Generator, sender: array<u64>, bits: nat, fromSender: bool, seen: set<u64>)
    returns (v: Option<u64>)
    requires g.Valid() && bits <= 64 && sender.Length < TWO_64
    modifies g
    ensures g.Valid()
    ensures v.Some? ==> v.value !in seen
    ensures v.Some? && fromSender ==> v.value in sender[..]
    ensures v.Some? && !fromSender ==> v.value < Pow2(bits)
    ensures v.None? ==> g.position == |g.draws|
  {
    v := Candidate(g, sender, bits, fromSender);
    while v.Some? && v.value in seen
      invariant g.Valid()
      invariant v.Some? && fromSender ==> v.value in sender[..]
      invariant v.Some? && !fromSender ==> v.value < Pow2(bits)
      invariant v.None? ==> g.position == |g.draws|
      decreases |g.draws| - g.position, if v.Some? then 1 else 0
    {
      v := Candidate(g, sender, bits, fromSender);
    }
  }

  /**
   * The first loop of `generate_random_receiver_set`: distinct entries, the
   * first `matches` of them sender inputs and the rest values of `bits` bits.
   */
  method FillReceiverSet(g: Generator, inputs: array<u64>, sender: array<u64>, bits: nat, matches: nat)
    returns (ok: bool)
    requires g.Valid() && bits <= 64 && sender.Length < TWO_64 && inputs != sender
    modifies g, inputs
    ensures g.Valid()
    ensures ok ==> Distinct(inputs[..])
    ensures ok ==> forall i :: 0 <= i < inputs.Length && i < matches ==> inputs[i] in sender[..]
    ensures ok ==> forall i :: matches <= i < inputs.Length ==> inputs[i] < Pow2(bits)
    ensures !ok ==> g.position == |g.draws|
  {
    var seen: set<u64> := {};
    for j := 0 to inputs.Length
      invariant g.Valid()
      invariant forall x :: x in seen <==> x in inputs[..j]
      invariant Distinct(inputs[..j])
      invariant forall i :: 0 <= i < j && i < matches ==> inputs[i] in sender[..]
      invariant forall i :: matches <= i < j ==> inputs[i] < Pow2(bits)
    {
      var v := FreshCandidate(g, sender, bits, j < matches, seen);
      if v.None? {
        return false;
      }
      ghost var prefix := inputs[..j];
      assert v.value !in prefix;
      AppendDistinct(prefix, v.value);
      inputs[j] := v.value;
      assert inputs[..j + 1] == prefix + [v.value];
      seen := seen + {v.value};
    }
    assert inputs[..] == inputs[..inputs.Length];
    return true;
  }

  /**
   * The closing loop of `generate_random_receiver_set`: for j = 1, 2, ...,
   * swap slot j with slot `random_integer(random, j + 1)`. Swaps only
   * permute the entries, even when the draws run out part-way.
   */
  method Shuffle(g: Generator, inputs: array<u64>) returns (ok: bool)
    requires g.Valid() && inputs.Length < TWO_64
    modifies g, inputs
    ensures g.Valid()
    ensures multiset(inputs[..]) == multiset(old(inputs[..]))
    ensures Distinct(old(inputs[..])) ==> Distinct(inputs[..])
    ensures !ok ==> g.position == |g.draws|
  {
    ok := true;
    if inputs.Length == 0 {
      return;
    }
    for j := 1 to inputs.Length
      invariant g.Valid()
      invariant multiset(inputs[..]) == multiset(old(inputs[..]))
      invariant Distinct(old(inputs[..])) ==> Distinct(inputs[..])
    {
      var k := RandomInteger(g, j + 1);
      if k.None? {
        return false;
      }
      SwapPermutes(inputs[..], j, k.value);
      inputs[j], inputs[k.value] := inputs[k.value], inputs[j];
    }
  }

  /** Swapping two entries keeps the multiset of values and their distinctness. */
  lemma SwapPermutes(s: seq<u64>, i: nat, k: nat)
    requires i < |s| && k < |s|
    ensures multiset(s[i := s[k]][k := s[i]]) == multiset(s)
    ensures Distinct(s) ==> Distinct(s[i := s[k]][k := s[i]])
  {
    var t := s[i := s[k]][k := s[i]];
    if Distinct(s) {
      forall a, b | 0 <= a < b < |t|
        ensures t[a] != t[b]
      {
        var a' := if a == i then k else if a == k then i else a;
        var b' := if b == i then k else if b == k then i else b;
        assert t[a] == s[a'] && t[b] == s[b'] && a' != b';
      }
    }
  }

  /**
   * `generate_random_receiver_set`: the entries are distinct, each is a
   * sender input or a value of `bits` bits, and at least min(matches,
   * |inputs|) of the values are sender inputs, wherever the shuffle moved them.
   */
  method GenerateRandomReceiverSet(g: Generator, inputs: array<u64>, sender: array<u64>, bits: nat, percent: u64)
    returns (ok: bool)
    requires g.Valid() && bits <= 64 && inputs.Length < TWO_64 && sender.Length < TWO_64
    requires inputs != sender
    modifies g, inputs
    ensures g.Valid()
    ensures ok ==> Distinct(inputs[..])
    ensures ok ==> |Shared(inputs[..], sender[..])| >= Min(Matches(inputs.Length, percent), inputs.Length)
    ensures ok ==> forall k :: 0 <= k < inputs.Length ==> inputs[k] in sender[..] || inputs[k] < Pow2(bits)
    ensures !ok ==> g.position == |g.draws|
  {
    var matches := Matches(inputs.Length, percent);
    ok := FillReceiverSet(g, inputs, sender, bits, matches);
    if !ok {
      return;
    }
    ghost var before := inputs[..];
    ghost var m := Min(matches, inputs.Length);
    ok := Shuffle(g, inputs);
    if !ok {
      return;
    }
    MatchedValues(before, inputs[..], sender[..], m);
    PermutedOrigins(before, inputs[..], sender[..], bits);
  }

  /** A permutation keeps every entry a sender input or a value of `bits` bits. */
  lemma PermutedOrigins(before: seq<u64>, after: seq<u64>, sender: seq<u64>, bits: nat)
    requires multiset(after) == multiset(before)
    requires forall j :: 0 <= j < |before| ==> before[j] in sender || before[j] < Pow2(bits)
    ensures forall k :: 0 <= k < |after| ==> after[k] in sender || after[k] < Pow2(bits)
  {
    forall k | 0 <= k < |after|
      ensures after[k] in sender || after[k] < Pow2(bits)
    {
      assert after[k] in multiset(after);
      assert after[k] in before;
      var j :| 0 <= j < |before| && before[j] == after[k];
    }
  }

  function Min(a: nat, b: nat): (r: nat)
    ensures r <= a && r <= b && (r == a || r == b)
  {
    if a <= b then a else b
  }

  /**
   * If the first m entries of a distinct sequence lie in `sender`, any
   * permutation of it holds at least m values of `sender`.
   */
  lemma MatchedValues(before: seq<u64>, after: seq<u64>, sender: seq<u64>, m: nat)
    requires m <= |before| && Distinct(before)
    requires forall i :: 0 <= i < m ==> before[i] in sender
    requires multiset(after) == multiset(before)
    ensures |Shared(after, sender)| >= m
  {
    var prefix := before[..m];
    assert Distinct(prefix);
    DistinctCard(prefix);
    forall x | x in prefix
      ensures x in after && x in sender
    {
      assert x in multiset(before);
    }
    var a := Values(prefix);
    var b := Shared(after, sender);
    forall x | x in a
      ensures x in b
    {
      var i :| 0 <= i < m && prefix[i] == x;
      assert before[i] == x && x in multiset(before);
    }
    SubsetCard(a, b);
  }
}
