/**
 * The windowing optimisation of src/windowing.cpp. To let a receiver obtain
 * y, y^2, ..., y^max_power with few homomorphic multiplications, the sender
 * sends y^(2^(l*i) * j) for every window i < window_count and every digit
 * 1 <= j <= 2^l - 1; the receiver then assembles every power by multiplying
 * a window entry with a power it already holds.
 *
 * SEAL is abstracted away. In `Prepare` a ciphertext is the plaintext vector
 * it encrypts (encoding and encryption are the identity). In
 * `ComputePowers` a ciphertext is the exponent of y it encrypts, so a
 * homomorphic multiplication adds exponents and relinearisation does nothing.
 */
module WindowingScheme {
  import opened Bits
  import opened Polynomials

  /** 2^(l*i), the weight of window i (`1ull << (l * i)`), as i factors 2^l; see `WindowBasePow2`. */
  function WindowBase(l: nat, i: nat): (r: nat)
    ensures r >= 1
  {
    if i == 0 then 1 else Pow2(l) * WindowBase(l, i - 1)
  }

  /**
   * A vector congruent, entry by entry, to y^e modulo m. Stated by recursion
   * so that the verifier unfolds it only where `HoldsAll` or `HoldsIntro` is
   * called.
   */
  ghost predicate Holds(y: seq<int>, v: seq<int>, e: nat, m: int)
    requires m > 0
    decreases |y|
  {
    |v| == |y| && (|y| == 0 || (v[0] % m == Pow(y[0], e) % m && Holds(y[1..], v[1..], e, m)))
  }

  lemma {:induction false} HoldsAll(y: seq<int>, v: seq<int>, e: nat, m: int)
    requires m > 0 && Holds(y, v, e, m)
    ensures |v| == |y| && forall k :: 0 <= k < |y| ==> v[k] % m == Pow(y[k], e) % m
    decreases |y|
  {
    if |y| > 0 {
      HoldsAll(y[1..], v[1..], e, m);
      forall k | 1 <= k < |y|
        ensures v[k] % m == Pow(y[k], e) % m
      {
        assert v[k] == v[1..][k - 1] && y[k] == y[1..][k - 1];
      }
    }
  }

  lemma {:induction false} HoldsIntro(y: seq<int>, v: seq<int>, e: nat, m: int)
    requires m > 0 && |v| == |y| && forall k :: 0 <= k < |y| ==> v[k] % m == Pow(y[k], e) % m
    ensures Holds(y, v, e, m)
    decreases |y|
  {
    if |y| > 0 {
      forall k | 0 <= k < |y| - 1
        ensures v[1..][k] % m == Pow(y[1..][k], e) % m
      {
        assert v[1..][k] == v[k + 1] && y[1..][k] == y[k + 1];
      }
      HoldsIntro(y[1..], v[1..], e, m);
    }
  }

  /** The exponent of y that `prepare` stores in slot s: slot i*w + j - 1 holds 2^(l*i) * j. */
  function WindowExponent(l: nat, w: nat, s: nat): (r: nat)
    requires w > 0
    ensures r >= 1
  {
    WindowBase(l, s / w) * (s % w + 1)
  }

  /** The windows hold exactly the exponents `prepare` lays out. */
  ghost predicate Layout(l: nat, w: nat, windows: seq<nat>)
  {
    w > 0 && forall s :: 0 <= s < |windows| ==> windows[s] == WindowExponent(l, w, s)
  }

  /** k has the leading digit 1..b in window i: it is j * 2^(l*i) + low with 1 <= j <= b, low < 2^(l*i). */
  ghost predicate InLevel(l: nat, i: nat, b: nat, k: nat)
  {
    1 <= k / WindowBase(l, i) <= b
  }

  /**
   * The indices the windowed branch of `compute_powers` writes when its
   * digit loop runs j = 1..b: the directly copied 1..w, and every index
   * whose leading digit in a window 1 <= i < c is at most b.
   */
  ghost predicate Covered(l: nat, w: nat, c: nat, b: nat, k: nat)
  {
    (1 <= k <= w) || exists i :: 1 <= i < c && InLevel(l, i, b, k)
  }

  class Windowing {
    var windowSize: nat
    var maxPower: nat
    var windowWidth: nat
    var windowCount: nat

    /** What the constructor establishes (and no method changes). */
    ghost predicate Valid()
      reads this
    {
      if windowSize > 0 then
        windowSize < 64 && windowWidth == Pow2(windowSize) - 1 &&
        1 <= windowCount && windowCount * windowSize <= 63
      else
        windowWidth == 0 && windowCount == 0
    }

    /**
     * `Windowing(window_size, max_power)`: the window width is 2^l - 1 and
     * the window count is the least c >= 1 with 2^(c*l) > max_power. The
     * precondition keeps every shift below 64 bits. With l = 0 the C++
     * constructor leaves width and count uninitialised; here they are 0.
     */
    constructor (windowSize: u64, maxPower: u64)
      requires windowSize > 0 ==> windowSize < 64 && maxPower < WindowBase(windowSize, 63 / windowSize)
      ensures Valid()
      ensures this.windowSize == windowSize && this.maxPower == maxPower
      ensures windowSize > 0 ==> windowWidth == Pow2(windowSize) - 1
      ensures windowSize > 0 ==> maxPower < WindowBase(windowSize, windowCount)
      ensures windowSize > 0 ==> forall c :: 1 <= c < windowCount ==> WindowBase(windowSize, c) <= maxPower
    {
      this.windowSize := windowSize;
      this.maxPower := maxPower;
      windowWidth := 0;
      windowCount := 0;
      new;
      if windowSize > 0 {
        var l := windowSize;
        var top := 63 / l;
        CountBound(l);
        windowWidth := Pow2(l) - 1;
        windowCount := 1;
        while WindowBase(l, windowCount) <= maxPower
          invariant this.windowSize == l && this.maxPower == maxPower
          invariant windowWidth == Pow2(l) - 1
          invariant 1 <= windowCount <= top
          invariant forall c :: 1 <= c < windowCount ==> WindowBase(l, c) <= maxPower
          decreases top - windowCount
        {
          if windowCount == top {
            assert false;
          }
          windowCount := windowCount + 1;
        }
        CountFits(l, windowCount, top);
      }
    }

    /**
     * `prepare(input, windows, modulus, ...)`: with l = 0 a single window
     * holding the input. Otherwise width * count windows, slot i*width + j - 1
     * holding y^(2^(l*i) * j) modulo `modulus` elementwise, where y is the
     * original input; the input itself ends as y^(2^(l*(count-1))).
     */
    method Prepare(input: array<u64>, modulus: u64) returns (windows: seq<seq<u64>>)
      requires Valid()
      requires modulus == 0 ==> windowSize == 0 || input.Length == 0 || (windowWidth == 1 && windowCount == 1)
      modifies input
      ensures windowSize == 0 ==> windows == [old(input[..])] && input[..] == old(input[..])
      ensures windowSize > 0 ==> |windows| == windowWidth * windowCount
      ensures windowSize > 0 ==> forall s :: 0 <= s < |windows| ==> |windows[s]| == input.Length
      ensures windowSize > 0 && 0 < modulus <= TWO_32 && (forall k :: 0 <= k < input.Length ==> old(input[k]) < TWO_32) ==>
        forall s, k :: 0 <= s < |windows| && 0 <= k < input.Length ==>
          windows[s][k] % modulus == Pow(old(input[k]), WindowExponent(windowSize, windowWidth, s)) % modulus
      ensures windowSize > 0 && 0 < modulus <= TWO_32 && (forall k :: 0 <= k < input.Length ==> old(input[k]) < TWO_32) ==>
        forall k :: 0 <= k < input.Length ==>
          input[k] % modulus == Pow(old(input[k]), WindowBase(windowSize, windowCount - 1)) % modulus
    {
      if windowSize == 0 {
        windows := [input[..]];
        return;
      }
      windows := PrepareWindowed(input, modulus, windowSize, windowWidth, windowCount);
    }

    /**
     * `compute_powers(windows, powers, ...)` as written. powers[0] is never
     * written. With l = 0 (one window holding y) every powers[k], k >= 1,
     * becomes y^k. With l > 0 the first min(width, |powers| - 1) powers are
     * the windows copied over, and the digit loop runs j = 1..l, so only the
     * indices `Covered` with digit bound l are written; the rest keep their
     * old contents. When l = 1 the digit bound equals the width, and from
     * the windows `Prepare` lays out every power below 2^count is computed.
     */
    method ComputePowers(windows: seq<nat>, powers: array<nat>)
      requires Valid()
      requires windowSize == 0 ==> |windows| == 1 && powers.Length >= 2
      requires windowSize > 0 ==> |windows| == windowWidth * windowCount
      modifies powers
      ensures powers.Length > 0 ==> powers[0] == old(powers[0])
      ensures windowSize == 0 ==> forall k :: 1 <= k < powers.Length ==> powers[k] == k * windows[0]
      ensures windowSize > 0 ==> forall k :: 1 <= k <= windowWidth && k <= |windows| && k < powers.Length ==> powers[k] == windows[k - 1]
      ensures windowSize > 0 ==> forall k :: 0 <= k < powers.Length && !Covered(windowSize, windowWidth, windowCount, windowSize, k) ==>
        powers[k] == old(powers[k])
      ensures windowSize == 1 && Layout(windowSize, windowWidth, windows) ==>
        forall k :: 1 <= k < powers.Length && k < WindowBase(windowSize, windowCount) ==> powers[k] == k
    {
      if windowSize == 0 {
        PowersFromSingleWindow(windows[0], powers);
      } else {
        SizeBelowWidth(windowSize);
        assert windowSize == 1 ==> windowWidth == 1;
        FillWindowPowers(windows, powers, windowSize);
      }
    }

    /**
     * `compute_powers` with its digit loop running up to the window width,
     * as the layout of `prepare` requires: from the windows `Prepare` lays
     * out, every power k with 1 <= k < min(|powers|, 2^(l*count)) becomes y^k.
     */
    method ComputePowersCorrected(windows: seq<nat>, powers: array<nat>)
      requires Valid()
      requires windowSize == 0 ==> |windows| == 1 && powers.Length >= 2
      requires windowSize > 0 ==> |windows| == windowWidth * windowCount
      modifies powers
      ensures powers.Length > 0 ==> powers[0] == old(powers[0])
      ensures windowSize == 0 ==> forall k :: 1 <= k < powers.Length ==> powers[k] == k * windows[0]
      ensures windowSize > 0 ==> forall k :: 1 <= k <= windowWidth && k <= |windows| && k < powers.Length ==> powers[k] == windows[k - 1]
      ensures windowSize > 0 && Layout(windowSize, windowWidth, windows) ==>
        forall k :: 1 <= k < powers.Length && k < WindowBase(windowSize, windowCount) ==> powers[k] == k
    {
      if windowSize == 0 {
        PowersFromSingleWindow(windows[0], powers);
      } else {
        FillWindowPowers(windows, powers, windowWidth);
      }
    }

    /**
     * The windowed branch of `compute_powers`, with the digit loop running
     * j = 1..b: copies the first width windows, then for every window
     * 1 <= i < count and digit j writes powers[j * 2^(l*i)] from the window
     * and powers[j * 2^(l*i) | low] as the product of powers[low] and
     * powers[j * 2^(l*i)], stopping at the end of `powers`.
     */
    method FillWindowPowers(windows: seq<nat>, powers: array<nat>, b: nat)
      requires Valid() && windowSize > 0
      requires |windows| == windowWidth * windowCount && 1 <= b <= windowWidth
      modifies powers
      ensures powers.Length > 0 ==> powers[0] == old(powers[0])
      ensures forall k :: 1 <= k <= windowWidth && k <= |windows| && k < powers.Length ==> powers[k] == windows[k - 1]
      ensures forall k :: 0 <= k < powers.Length && !Covered(windowSize, windowWidth, windowCount, b, k) ==>
        powers[k] == old(powers[k])
      ensures b == windowWidth && Layout(windowSize, windowWidth, windows) ==>
        forall k :: 1 <= k < powers.Length && k < WindowBase(windowSize, windowCount) ==> powers[k] == k
    {
      var l, w, c := windowSize, windowWidth, windowCount;
      ghost var good := b == w && Layout(l, w, windows);
      MulMonotone(w, 1, c);
      var i := 1;
      while i <= w
        invariant 1 <= i <= w + 1 && (i == 1 || i <= powers.Length)
        invariant forall k :: 1 <= k < i ==> powers[k] == windows[k - 1]
        invariant forall k :: 0 <= k < powers.Length && !(1 <= k < i) ==> powers[k] == old(powers[k])
      {
        if i >= powers.Length {
          DirectCopies(l, w, c, windows, powers[..], powers.Length);
          return;
        }
        powers[i] := windows[i - 1];
        i := i + 1;
      }
      DirectCopies(l, w, c, windows, powers[..], w + 1);
      assert WindowBase(l, 1) == w + 1;
      i := 1;
      while i < c
        invariant 1 <= i <= c
        invariant forall k :: 1 <= k <= w && k < powers.Length ==> powers[k] == windows[k - 1]
        invariant forall k :: 0 <= k < powers.Length && !Covered(l, w, c, b, k) ==> powers[k] == old(powers[k])
        invariant good ==> forall k :: 1 <= k < powers.Length && k < WindowBase(l, i) ==> powers[k] == k
      {
        HighAboveWidth(l, w, i, 1);
        FillLevel(windows, powers, l, w, c, b, i, good);
        i := i + 1;
      }
    }
  }

  /**
   * Window i of the windowed branch of `compute_powers`: the digits
   * j = 1..b, stopping at the first whose power lies past the end of `powers`.
   */
  method FillLevel(windows: seq<nat>, powers: array<nat>, l: nat, w: nat, c: nat, b: nat, i: nat,
                   ghost good: bool)
    requires w == Pow2(l) - 1 && |windows| == w * c && 1 <= i < c && 1 <= b <= w
    requires good ==> b == w && Layout(l, w, windows)
    requires good ==> forall k :: 1 <= k < powers.Length && k < WindowBase(l, i) ==> powers[k] == k
    modifies powers
    ensures forall k :: 0 <= k < powers.Length && !InLevel(l, i, b, k) ==> powers[k] == old(powers[k])
    ensures forall k :: 0 <= k < powers.Length && k < WindowBase(l, i) ==> powers[k] == old(powers[k])
    ensures good ==> forall k :: 1 <= k < powers.Length && k < WindowBase(l, i + 1) ==> powers[k] == k
  {
    var base := WindowBase(l, i);
    ghost var reach := base;
    var j := 1;
    while j <= b
      invariant 1 <= j <= b + 1 && reach == j * base && base <= reach
      invariant forall k :: 0 <= k < powers.Length && !(base <= k < reach) ==> powers[k] == old(powers[k])
      invariant good ==> forall k :: 1 <= k < powers.Length && k < reach ==> powers[k] == k
    {
      var high := j * base;
      assert high == reach;
      if high >= powers.Length {
        break;
      }
      SlotInRange(i, j, w, c);
      FillDigit(windows, powers, l, w, b, i, j, base, high, i * w + j - 1, good);
      MulPlusOne(base, j);
      reach := reach + base;
      j := j + 1;
    }
    forall k | 0 <= k < powers.Length && !InLevel(l, i, b, k)
      ensures powers[k] == old(powers[k])
    {
      if base <= k < reach {
        OutsideLevel(l, i, b, j, reach, k);
      }
    }
    if good && j == b + 1 {
      LevelEnd(l, w, i, j, reach);
    }
  }

  /**
   * One digit j of window i in the windowed branch of `compute_powers`:
   * powers[high], high = j * 2^(l*i), is taken from slot i*w + j - 1, then
   * every powers[high | low], 1 <= low < 2^(l*i), is the product of
   * powers[low] and powers[high], until the end of `powers`.
   */
  method FillDigit(windows: seq<nat>, powers: array<nat>, l: nat, w: nat, b: nat, i: nat, j: nat,
                   base: nat, high: nat, slot: nat, ghost good: bool)
    requires w == Pow2(l) - 1 && 1 <= i && 1 <= j <= b <= w
    requires base == WindowBase(l, i) && high == j * base && slot == i * w + j - 1 && slot < |windows|
    requires high < powers.Length
    requires good ==> b == w && Layout(l, w, windows)
    requires good ==> forall k :: 1 <= k < powers.Length && k < high ==> powers[k] == k
    modifies powers
    ensures forall k :: 0 <= k < powers.Length && !(high <= k < high + base) ==> powers[k] == old(powers[k])
    ensures good ==> forall k :: 1 <= k < powers.Length && k < high + base ==> powers[k] == k
  {
    WindowBasePow2(l, i);
    SlotExponent(l, w, i, j);
    powers[high] := windows[slot];
    var low := 1;
    while low < base
      invariant 1 <= low <= base
      invariant forall k :: 0 <= k < powers.Length && !(high <= k < high + low) ==> powers[k] == old(powers[k])
      invariant good ==> forall k :: 1 <= k < powers.Length && k < high + low ==> powers[k] == k
    {
      OrDisjoint(j, low, l * i);
      var newPower := Or(high, low);
      if newPower >= powers.Length {
        break;
      }
      powers[newPower] := powers[low] + powers[high];
      low := low + 1;
    }
  }

  /**
   * The windowed branch of `prepare` with l = `l`, width `w` and count `c`:
   * level by level, fill the w windows of the level from the current input,
   * then raise the input to the power 2^l for the next level.
   */
  method PrepareWindowed(input: array<u64>, modulus: u64, l: nat, w: nat, c: nat) returns (windows: seq<seq<u64>>)
    requires 0 < l < 64 && w == Pow2(l) - 1 && 1 <= c
    requires modulus == 0 ==> input.Length == 0 || (w == 1 && c == 1)
    modifies input
    ensures |windows| == w * c
    ensures forall s :: 0 <= s < |windows| ==> |windows[s]| == input.Length
    ensures 0 < modulus <= TWO_32 && (forall k :: 0 <= k < input.Length ==> old(input[k]) < TWO_32) ==>
      forall s, k :: 0 <= s < |windows| && 0 <= k < input.Length ==>
        windows[s][k] % modulus == Pow(old(input[k]), WindowExponent(l, w, s)) % modulus
    ensures 0 < modulus <= TWO_32 && (forall k :: 0 <= k < input.Length ==> old(input[k]) < TWO_32) ==>
      forall k :: 0 <= k < input.Length ==>
        input[k] % modulus == Pow(old(input[k]), WindowBase(l, c - 1)) % modulus
  {
    ghost var y := input[..];
    ghost var exact := 0 < modulus <= TWO_32 && forall k :: 0 <= k < input.Length ==> y[k] < TWO_32;
    var n := input.Length;
    windows := seq(w * c, _ => []);
    if exact {
      HoldsInitially(y, l, modulus);
    }
    var done := 0;
    for i := 0 to c
      invariant done == i * w && |windows| == w * c && input.Length == n
      invariant forall s :: 0 <= s < done ==> |windows[s]| == n
      invariant exact ==> forall s :: 0 <= s < done ==> Holds(y, windows[s], WindowExponent(l, w, s), modulus)
      invariant exact ==> forall k :: 0 <= k < n ==> input[k] < TWO_32
      invariant exact ==> Holds(y, input[..], WindowBase(l, if i < c then i else c - 1), modulus)
    {
      SlotInRange(i, w, w, c);
      windows := PrepareLevel(input, windows, modulus, l, w, c, i, done, y, exact);
      MulPlusOne(w, i);
      done := done + w;
    }
    assert done == |windows| by {
      assert c * w == w * c;
    }
    if exact {
      AllWindowsHold(y, windows, l, w, modulus);
      HoldsAll(y, input[..], WindowBase(l, c - 1), modulus);
    }
  }

  lemma AllWindowsHold(y: seq<nat>, windows: seq<seq<u64>>, l: nat, w: nat, m: nat)
    requires m > 0 && w > 0
    requires forall s :: 0 <= s < |windows| ==> |windows[s]| == |y|
    requires forall s :: 0 <= s < |windows| ==> Holds(y, windows[s], WindowExponent(l, w, s), m)
    ensures forall s, k :: 0 <= s < |windows| && 0 <= k < |y| ==>
      windows[s][k] % m == Pow(y[k], WindowExponent(l, w, s)) % m
  {
    forall s | 0 <= s < |windows|
      ensures forall k :: 0 <= k < |y| ==> windows[s][k] % m == Pow(y[k], WindowExponent(l, w, s)) % m
    {
      HoldsAll(y, windows[s], WindowExponent(l, w, s), m);
    }
  }

  /**
   * Level i of `prepare`: the windows i*w .. i*w + w - 1 are filled from the
   * current input, and unless i is the last level the input is raised to
   * the power 2^l.
   */
  method PrepareLevel(input: array<u64>, windows: seq<seq<u64>>, modulus: u64, l: nat, w: nat, c: nat, i: nat,
                      first: nat, ghost y: seq<nat>, ghost exact: bool) returns (windows': seq<seq<u64>>)
    requires 0 < l < 64 && w == Pow2(l) - 1 && i < c
    requires first == i * w && first + w <= |windows| && input.Length == |y|
    requires modulus == 0 ==> input.Length == 0 || (w == 1 && c == 1)
    requires exact ==> 0 < modulus <= TWO_32 && Holds(y, input[..], WindowBase(l, i), modulus)
    requires exact ==> forall k :: 0 <= k < input.Length ==> input[k] < TWO_32
    requires forall s :: 0 <= s < first ==> |windows[s]| == input.Length
    requires exact ==> forall s :: 0 <= s < first ==> Holds(y, windows[s], WindowExponent(l, w, s), modulus)
    modifies input
    ensures |windows'| == |windows|
    ensures forall s :: 0 <= s < first + w ==> |windows'[s]| == input.Length
    ensures exact ==> forall s :: 0 <= s < first + w ==> Holds(y, windows'[s], WindowExponent(l, w, s), modulus)
    ensures exact ==> forall k :: 0 <= k < input.Length ==> input[k] < TWO_32
    ensures exact ==> Holds(y, input[..], WindowBase(l, if i + 1 < c then i + 1 else c - 1), modulus)
  {
    Pow2Strict(l, 64);
    Pow2Constants();
    windows' := FillWindow(windows, input[..], modulus, l, w, i, first, y, exact);
    if i < c - 1 {
      ghost var before := input[..];
      RaiseElementwise(input, Pow2(l), modulus);
      if exact {
        RaiseAll(before, input[..], y, l, i, modulus);
      }
    }
  }

  /**
   * Window i of `prepare`: slots i*w .. i*w + w - 1 receive the input
   * raised to the powers 1..w, each product reduced by `MUL_MOD`; when the
   * input is y^(2^(l*i)), slot s receives y^WindowExponent(s).
   */
  method FillWindow(windows: seq<seq<u64>>, input: seq<u64>, modulus: u64, l: nat, w: nat, i: nat, first: nat,
                    ghost y: seq<nat>, ghost exact: bool) returns (windows': seq<seq<u64>>)
    requires 1 <= w && first == i * w && first + w <= |windows| && |input| == |y|
    requires |input| > 0 && w > 1 ==> modulus > 0
    requires exact ==> modulus > 0 && Holds(y, input, WindowBase(l, i), modulus)
    ensures |windows'| == |windows|
    ensures forall s :: 0 <= s < |windows| && !(first <= s < first + w) ==> windows'[s] == windows[s]
    ensures forall s :: first <= s < first + w ==> |windows'[s]| == |input|
    ensures exact ==> forall s :: first <= s < first + w ==> Holds(y, windows'[s], WindowExponent(l, w, s), modulus)
  {
    windows' := windows;
    var inputMul := input;
    for j := 1 to w + 1
      invariant |inputMul| == |input| && |windows'| == |windows|
      invariant forall s :: 0 <= s < |windows| && !(first <= s < first + j - 1) ==> windows'[s] == windows[s]
      invariant forall s :: first <= s < first + j - 1 ==> |windows'[s]| == |input|
      invariant exact ==> forall s :: first <= s < first + j - 1 ==> Holds(y, windows'[s], WindowExponent(l, w, s), modulus)
      invariant exact && j <= w ==> Holds(y, inputMul, WindowBase(l, i) * j, modulus)
    {
      SlotExponent(l, w, i, j);
      windows' := windows'[i * w + j - 1 := inputMul];
      if j <= w - 1 {
        ghost var before := inputMul;
        inputMul := MultiplyElementwise(inputMul, input, modulus);
        if exact {
          MulPowAll(before, input, inputMul, y, WindowBase(l, i), j, modulus);
        }
      }
    }
  }

  /**
   * The unwindowed branch of `compute_powers`: powers[1] is y and every later
   * powers[i] is powers[i - 1] times y. The squaring branch is unreachable,
   * because its condition parses as `i & (2 == 0)`, which is `i & 0`.
   */
  method PowersFromSingleWindow(y: nat, powers: array<nat>)
    requires powers.Length >= 2
    modifies powers
    ensures powers[0] == old(powers[0])
    ensures forall k :: 1 <= k < powers.Length ==> powers[k] == k * y
  {
    powers[1] := y;
    for i := 2 to powers.Length
      invariant powers[0] == old(powers[0])
      invariant forall k :: 1 <= k < i ==> powers[k] == k * y
    {
      var squareBranch := (i % 2) * (if 2 == 0 then 1 else 0) != 0;
      if squareBranch {
        assert false;
      } else {
        powers[i] := powers[i - 1] + powers[1];
      }
    }
  }

  /** The elementwise `MUL_MOD` loop of `prepare`. */
  method MultiplyElementwise(a: seq<u64>, x: seq<u64>, modulus: u64) returns (r: seq<u64>)
    requires |a| == |x| && (|a| > 0 ==> modulus > 0)
    ensures |r| == |a|
    ensures forall k :: 0 <= k < |r| ==> r[k] == (a[k] * x[k]) % modulus
  {
    r := a;
    for k := 0 to |a|
      invariant |r| == |a|
      invariant forall t :: 0 <= t < k ==> r[t] == (a[t] * x[t]) % modulus
      invariant forall t :: k <= t < |a| ==> r[t] == a[t]
    {
      r := r[k := (r[k] * x[k]) % modulus];
    }
  }

  /** The elementwise `modexp` loop of `prepare`. */
  method RaiseElementwise(input: array<u64>, e: u64, modulus: u64)
    requires e > 0 && (input.Length > 0 ==> modulus > 0)
    modifies input
    ensures forall k :: 0 <= k < input.Length ==> input[k] < modulus
    ensures modulus <= TWO_32 ==> forall k :: 0 <= k < input.Length && old(input[k]) < TWO_32 ==>
      input[k] == Pow(old(input[k]), e) % modulus
  {
    for k := 0 to input.Length
      invariant forall t :: 0 <= t < k ==> input[t] < modulus
      invariant modulus <= TWO_32 ==> forall t :: 0 <= t < k && old(input[t]) < TWO_32 ==>
        input[t] == Pow(old(input[t]), e) % modulus
      invariant forall t :: k <= t < input.Length ==> input[t] == old(input[t])
    {
      input[k] := ModExp(input[k], e, modulus);
    }
  }

  /** The input is y^1. */
  lemma HoldsInitially(y: seq<int>, l: nat, m: int)
    requires m > 0
    ensures Holds(y, y, WindowBase(l, 0), m)
  {
    forall k | 0 <= k < |y|
      ensures y[k] % m == Pow(y[k], 1) % m
    {
      assert Pow(y[k], 1) == y[k] * Pow(y[k], 0);
    }
    HoldsIntro(y, y, 1, m);
  }

  /** The elementwise product of y^(E*j) and y^E is y^(E*(j+1)). */
  lemma MulPowAll(a: seq<int>, x: seq<int>, r: seq<int>, y: seq<int>, E: nat, j: nat, m: int)
    requires m > 0 && |a| == |x| == |r| == |y|
    requires forall k :: 0 <= k < |r| ==> r[k] == (a[k] * x[k]) % m
    requires Holds(y, a, E * j, m) && Holds(y, x, E, m)
    ensures Holds(y, r, E * (j + 1), m)
  {
    HoldsAll(y, a, E * j, m);
    HoldsAll(y, x, E, m);
    forall k | 0 <= k < |y|
      ensures r[k] % m == Pow(y[k], E * (j + 1)) % m
    {
      MulPowStep(a[k], x[k], y[k], E, j, m);
      SmallMod(r[k], m);
    }
    HoldsIntro(y, r, E * (j + 1), m);
  }

  /** Raising y^(2^(l*i)) elementwise to the power 2^l gives y^(2^(l*(i+1))). */
  lemma RaiseAll(before: seq<int>, after: seq<int>, y: seq<int>, l: nat, i: nat, m: int)
    requires 0 < m && |before| == |after| == |y|
    requires forall k :: 0 <= k < |after| ==> 0 <= after[k] < m
    requires forall k :: 0 <= k < |after| ==> after[k] == Pow(before[k], Pow2(l)) % m
    requires Holds(y, before, WindowBase(l, i), m)
    ensures Holds(y, after, WindowBase(l, i + 1), m)
  {
    HoldsAll(y, before, WindowBase(l, i), m);
    forall k | 0 <= k < |y|
      ensures after[k] % m == Pow(y[k], WindowBase(l, i + 1)) % m
    {
      SmallMod(after[k], m);
      RaiseStep(before[k], y[k], WindowBase(l, i), l, m);
    }
    HoldsIntro(y, after, WindowBase(l, i + 1), m);
  }

  /** Multiplying y^(E*j) by y^E modulo m gives y^(E*(j+1)). */
  lemma MulPowStep(a: int, x: int, y: int, E: nat, j: nat, m: int)
    requires m > 0 && a % m == Pow(y, E * j) % m && x % m == Pow(y, E) % m
    ensures (a * x) % m == Pow(y, E * (j + 1)) % m
  {
    MulMod(a, x, m);
    MulMod(Pow(y, E * j), Pow(y, E), m);
    PowAdd(y, E * j, E);
    assert E * (j + 1) == E * j + E;
  }

  /** Raising y^E to the power 2^l modulo m gives y^(2^l * E). */
  lemma RaiseStep(x: int, y: int, E: nat, l: nat, m: int)
    requires m > 0 && x % m == Pow(y, E) % m
    ensures Pow(x, Pow2(l)) % m == Pow(y, Pow2(l) * E) % m
  {
    PowMod(x, Pow2(l), m);
    PowMod(Pow(y, E), Pow2(l), m);
    PowMul(y, E, Pow2(l));
    assert E * Pow2(l) == Pow2(l) * E;
  }

  // ---------------------------------------------------------------------------
  // Index arithmetic
  // ---------------------------------------------------------------------------

  /** `WindowBase` is the shift `1 << (l * i)`. */
  lemma {:induction false} WindowBasePow2(l: nat, i: nat)
    ensures WindowBase(l, i) == Pow2(l * i)
  {
    if i > 0 {
      WindowBasePow2(l, i - 1);
      ShiftStep(l, i - 1);
    }
  }

  lemma ShiftStep(l: nat, i: nat)
    ensures Pow2(l * (i + 1)) == Pow2(l) * Pow2(l * i)
  {
    MulPlusOne(l, i);
    Pow2Add(l * i, l);
  }

  lemma MulPlusOne(l: nat, i: nat)
    ensures l * (i + 1) == l * i + l && (i + 1) * l == i * l + l
  {
  }

  /** 63 / l windows of l bits fit in 63 bits. */
  lemma CountBound(l: nat)
    requires 1 <= l < 64
    ensures 1 <= 63 / l && l * (63 / l) <= 63
  {
  }

  lemma CountFits(l: nat, c: nat, top: nat)
    requires c <= top && l * top <= 63
    ensures c * l <= 63
  {
    MulMonotone(l, c, top);
  }

  lemma {:induction false} SizeBelowWidth(l: nat)
    ensures l <= Pow2(l) - 1
  {
    if l > 1 {
      SizeBelowWidth(l - 1);
    }
  }

  /** Slot i*w + j - 1 lies inside the w*c windows. */
  lemma SlotInRange(i: nat, j: nat, w: nat, c: nat)
    requires i < c && 1 <= j <= w
    ensures i * w + j - 1 < w * c
  {
    MulMonotone(w, i + 1, c);
    assert i * w + w == w * (i + 1);
  }

  /** Slot i*w + j - 1 holds exponent 2^(l*i) * j. */
  lemma SlotExponent(l: nat, w: nat, i: nat, j: nat)
    requires 1 <= j <= w
    ensures WindowExponent(l, w, i * w + j - 1) == WindowBase(l, i) * j
  {
    ModUnique(i, j - 1, w);
    assert w * i + (j - 1) == i * w + j - 1;
  }

  /** j * 2^(l*i) + low with low < 2^(l*i) has leading digit j in window i. */
  lemma LevelOf(l: nat, i: nat, b: nat, j: nat, low: nat)
    requires low < WindowBase(l, i)
    ensures (j * WindowBase(l, i) + low) / WindowBase(l, i) == j
    ensures 1 <= j <= b ==> InLevel(l, i, b, j * WindowBase(l, i) + low)
  {
    ModUnique(j, low, WindowBase(l, i));
  }

  /** Indices written from window i >= 1 lie above the directly copied ones. */
  lemma HighAboveWidth(l: nat, w: nat, i: nat, j: nat)
    requires w == Pow2(l) - 1 && i >= 1 && j >= 1
    ensures j * WindowBase(l, i) > w
  {
    MulMonotone(Pow2(l), 1, WindowBase(l, i - 1));
    MulMonotone(WindowBase(l, i), 1, j);
  }

  /** An index that the digits j' < j of window i did not reach, if it is not covered, is outside them. */
  lemma OutsideLevel(l: nat, i: nat, b: nat, j: nat, reach: nat, k: nat)
    requires 1 <= j <= b + 1 && i >= 1 && reach == j * WindowBase(l, i)
    requires WindowBase(l, i) <= k < reach
    ensures InLevel(l, i, b, k)
  {
    var base := WindowBase(l, i);
    DivBelow(k, base, j);
    DivAtLeastOne(k, base);
  }

  /** After all w digits of level i the reach is the base of level i + 1. */
  lemma LevelEnd(l: nat, w: nat, i: nat, j: nat, reach: nat)
    requires w == Pow2(l) - 1 && j == w + 1 && reach == j * WindowBase(l, i)
    ensures reach == WindowBase(l, i + 1)
  {
  }

  lemma DivAtLeastOne(k: nat, d: nat)
    requires 0 < d <= k
    ensures k / d >= 1
  {
  }

  /** From the layout, the directly copied powers 1..top-1 hold their own exponents. */
  lemma DirectCopies(l: nat, w: nat, c: nat, windows: seq<nat>, powers: seq<nat>, top: nat)
    requires |windows| == w * c && 1 <= c && w > 0
    requires top <= w + 1 && top <= |powers|
    requires forall k :: 1 <= k < top ==> powers[k] == windows[k - 1]
    ensures Layout(l, w, windows) ==> forall k :: 1 <= k < top ==> powers[k] == k
  {
    if Layout(l, w, windows) {
      forall k | 1 <= k < top
        ensures powers[k] == k
      {
        SlotExponent(l, w, 0, k);
        MulMonotone(w, 1, c);
      }
    }
  }

  /**
   * With l = 2 the width is 3 and the as-written digit loop stops at j = 2,
   * so with two windows the power 12 = 3 * 2^2 is never computed although it
   * lies below 2^(2*2); running the digits up to the width covers it.
   */
  lemma AsWrittenSkipsPower()
    ensures 12 < WindowBase(2, 2) && 2 * Pow2(2) <= 15 && 15 < WindowBase(2, 2)
    ensures !Covered(2, 3, 2, 2, 12)
    ensures Covered(2, 3, 2, 3, 12)
  {
    assert WindowBase(2, 1) == 4 && WindowBase(2, 2) == 16;
    assert InLevel(2, 1, 3, 12);
  }
}
