/**
 * The wire format of the `Networking` class (src/networking.cpp). The socket
 * is two byte sequences: `incoming`, what the peer has sent and this side has
 * not read yet (a read consumes its front), and `outgoing`, everything written
 * so far (a write appends). SEAL's `save` and `load` are left opaque: a
 * ciphertext, public key or relinearization keys travel as the bytes `save`
 * produced, a `Blob`. Reading a frame the source would reject with an
 * `assert` gives an `Err`.
 */
module Net {
  import opened Bits

  const NET_MAGIC_HELLO: u64 := 0x5052495643415453             // 'PRIVCATS'
  const NET_MAGIC_VECTOR_UINT64: u32 := 0x76756938              // 'vui8'
  const NET_MAGIC_CIPHERTEXT: u32 := 0x63697074                 // 'cipt'
  const NET_MAGIC_VECTOR_CIPHERTEXT: u32 := 0x76636970          // 'vcip'
  const NET_MAGIC_VECTOR_VECTOR_CIPHERTEXT: u32 := 0x76766369   // 'vvci'
  const NET_MAGIC_PUBLIC_KEY: u32 := 0x706b6579                 // 'pkey'
  const NET_MAGIC_RELIN_KEYS: u32 := 0x72656c6e                 // 'reln'

  /** What SEAL's `save` wrote for one object. */
  type Blob = seq<u8>

  /**
   * Why a read fails: the stream ends first, a frame starts with another
   * magic, or a SEAL object arrives before a SEAL context was set.
   */
  datatype NetError = ShortRead | BadMagic | NoContext

  datatype Result<T> = Ok(value: T) | Err(error: NetError) {
    predicate IsFailure() {
      Err?
    }

    function PropagateFailure<U>(): Result<U>
      requires Err?
    {
      Err(error)
    }

    function Extract(): T
      requires Ok?
    {
      value
    }
  }

  /** A value read from the front of a stream, and what is left of the stream. */
  datatype Parsed<T> = Parsed(value: T, rest: seq<u8>)

  /** The result of a read as its caller sees it: the value without the rest of the stream. */
  function Drop<T>(r: Result<Parsed<T>>): Result<T> {
    if r.Err? then Err(r.error) else Ok(r.value.value)
  }

  // ---------------------------------------------------------------------------
  // Encoding

  /** `write_uint32`: the four bytes of v, most significant first. */
  function EncodeU32(v: u32): (r: seq<u8>)
    ensures |r| == 4
  {
    [v / 0x100_0000, v / 0x1_0000 % 0x100, v / 0x100 % 0x100, v % 0x100]
  }

  /** `write_uint64`: the high 32-bit half, then the low one. */
  function EncodeU64(v: u64): (r: seq<u8>)
    ensures |r| == 8
  {
    EncodeU32(v / TWO_32) + EncodeU32(v % TWO_32)
  }

  /** The elements of xs one after the other, each as e encodes it. */
  function EncodeMany<T>(xs: seq<T>, e: T -> seq<u8>): seq<u8> {
    if xs == [] then [] else e(xs[0]) + EncodeMany(xs[1..], e)
  }

  /**
   * A SEAL object framed as `write_ciphertext`, `write_public_key` and
   * `write_relin_keys` frame it when the write buffer starts out empty: the
   * magic, the byte length truncated to 32 bits, then the bytes.
   */
  function Frame(magic: u32, blob: Blob): (r: seq<u8>)
    ensures |r| == 8 + |blob|
  {
    EncodeU32(magic) + EncodeU32(|blob| % TWO_32) + blob
  }

  function CiphertextFrame(blob: Blob): seq<u8> {
    Frame(NET_MAGIC_CIPHERTEXT, blob)
  }

  /** A vector frame: the magic, the count truncated to 32 bits, then each element as e encodes it. */
  function EncodeVector<T>(magic: u32, xs: seq<T>, e: T -> seq<u8>): seq<u8> {
    EncodeU32(magic) + EncodeU32(|xs| % TWO_32) + EncodeMany(xs, e)
  }

  /** `write_uint64s`: magic `vui8`, the count, then each value. */
  function EncodeU64s(vs: seq<u64>): seq<u8> {
    EncodeVector(NET_MAGIC_VECTOR_UINT64, vs, EncodeU64)
  }

  /** `write_ciphertexts`: magic `vcip`, the count, then each ciphertext as a `cipt` frame. */
  function EncodeCiphertexts(cts: seq<Blob>): seq<u8> {
    EncodeVector(NET_MAGIC_VECTOR_CIPHERTEXT, cts, CiphertextFrame)
  }

  /** `write_ciphertexts_2d`: magic `vvci`, the count, then each row as a whole `vcip` frame. */
  function EncodeCiphertexts2D(rows: seq<seq<Blob>>): seq<u8> {
    EncodeVector(NET_MAGIC_VECTOR_VECTOR_CIPHERTEXT, rows, EncodeCiphertexts)
  }

  // ---------------------------------------------------------------------------
  // Decoding

  /** The big-endian value of the bytes b0 b1 b2 b3, in arrival order. */
  function DecodeU32(b0: u8, b1: u8, b2: u8, b3: u8): u32 {
    b0 * 0x100_0000 + b1 * 0x1_0000 + b2 * 0x100 + b3
  }

  /**
   * `read_uint32` combines the bytes as `b3 | b2 << 8 | b1 << 16 | b0 << 24`;
   * the three ors join bytes with no bit in common, so they add up to the
   * big-endian value.
   */
  lemma DecodeDisjoint(b0: u8, b1: u8, b2: u8, b3: u8)
    ensures Or(Or(Or(b3, b2 * 0x100), b1 * 0x1_0000), b0 * 0x100_0000) ==
      b0 * 0x100_0000 + b1 * 0x1_0000 + b2 * 0x100 + b3
  {
    Pow2Constants();
    Pow2Add(16, 8);
    OrComm(b3, b2 * 0x100);
    OrDisjoint(b2, b3, 8);
    var x := b2 * 0x100 + b3;
    OrComm(x, b1 * 0x1_0000);
    OrDisjoint(b1, x, 16);
    var y := b1 * 0x1_0000 + x;
    OrComm(y, b0 * 0x100_0000);
    OrDisjoint(b0, y, 24);
  }

  /** `read_uint32`: four bytes, or `ShortRead` when the stream holds fewer. */
  function ParseU32(s: seq<u8>): (r: Result<Parsed<u32>>)
    ensures r.Ok? <==> |s| >= 4
    ensures r.Ok? ==> r.value.rest == s[4..]
  {
    if |s| < 4 then Err(ShortRead) else Ok(Parsed(DecodeU32(s[0], s[1], s[2], s[3]), s[4..]))
  }

  /** `read_uint64`: the high 32-bit half, then the low one; the value is high * 2^32 + low. */
  function ParseU64(s: seq<u8>): (r: Result<Parsed<u64>>)
    ensures r.Ok? <==> |s| >= 8
    ensures r.Ok? ==> r.value.rest == s[8..]
  {
    var high :- ParseU32(s);
    var low :- ParseU32(high.rest);
    WordDisjoint(low.value, high.value);
    Ok(Parsed(high.value * TWO_32 + low.value, low.rest))
  }

  /** `read_hello`: a uint64 that must be the hello magic. */
  function ParseHello(s: seq<u8>): (r: Result<Parsed<()>>)
    ensures r.Ok? ==> |s| >= 8 && r.value.rest == s[8..]
  {
    var word :- ParseU64(s);
    if word.value != NET_MAGIC_HELLO then Err(BadMagic) else Ok(Parsed((), word.rest))
  }

  /**
   * n values, each as p reads it, one after the other; `hasContext` says
   * whether the reader has a SEAL context, which some elements need.
   */
  function ParseMany<T>(n: nat, p: (bool, seq<u8>) -> Result<Parsed<T>>, hasContext: bool, s: seq<u8>): (r: Result<Parsed<seq<T>>>)
    ensures r.Ok? ==> |r.value.value| == n
  {
    if n == 0 then Ok(Parsed([], s))
    else
      var first :- p(hasContext, s);
      var others :- ParseMany(n - 1, p, hasContext, first.rest);
      Ok(Parsed([first.value] + others.value, others.rest))
  }

  /** The head of a vector frame: the magic, then the count. */
  function ParseHeader(magic: u32, s: seq<u8>): (r: Result<Parsed<u32>>)
    ensures r.Ok? ==> |s| >= 8 && r.value.rest == s[8..]
  {
    var m :- ParseU32(s);
    if m.value != magic then Err(BadMagic) else ParseU32(m.rest)
  }

  /** A vector frame: the magic, a count, then that many elements, each as p reads it. */
  function ParseVector<T>(magic: u32, p: (bool, seq<u8>) -> Result<Parsed<T>>, hasContext: bool, s: seq<u8>): Result<Parsed<seq<T>>> {
    var length :- ParseHeader(magic, s);
    ParseMany(length.value, p, hasContext, length.rest)
  }

  /** One element of a `vui8` frame: a uint64, whatever the context. */
  function U64Item(hasContext: bool, s: seq<u8>): Result<Parsed<u64>> {
    ParseU64(s)
  }

  /** `read_uint64s`: magic `vui8`, a count, then that many uint64s. */
  function ParseU64s(s: seq<u8>): Result<Parsed<seq<u64>>> {
    ParseVector(NET_MAGIC_VECTOR_UINT64, U64Item, false, s)
  }

  /**
   * `read_ciphertext`, `read_public_key` and `read_relin_keys`: with a SEAL
   * context set, the magic, a byte length, then exactly that many bytes,
   * which are what SEAL's `load` gets.
   */
  function ParseBlob(hasContext: bool, magic: u32, s: seq<u8>): (r: Result<Parsed<Blob>>)
    ensures !hasContext ==> r == Err(NoContext)
  {
    if !hasContext then Err(NoContext)
    else
      var m :- ParseU32(s);
      if m.value != magic then Err(BadMagic)
      else
        var length :- ParseU32(m.rest);
        if |length.rest| < length.value then Err(ShortRead)
        else Ok(Parsed(length.rest[..length.value], length.rest[length.value..]))
  }

  /** One element of a `vcip` frame: a `cipt` frame. */
  function CiphertextItem(hasContext: bool, s: seq<u8>): Result<Parsed<Blob>> {
    ParseBlob(hasContext, NET_MAGIC_CIPHERTEXT, s)
  }

  /** `read_ciphertexts`: magic `vcip`, a count, then that many `cipt` frames. */
  function ParseCiphertexts(hasContext: bool, s: seq<u8>): Result<Parsed<seq<Blob>>> {
    ParseVector(NET_MAGIC_VECTOR_CIPHERTEXT, CiphertextItem, hasContext, s)
  }

  /** `read_ciphertexts_2d`: magic `vvci`, a count, then that many `vcip` frames. */
  function ParseCiphertexts2D(hasContext: bool, s: seq<u8>): Result<Parsed<seq<seq<Blob>>>> {
    ParseVector(NET_MAGIC_VECTOR_VECTOR_CIPHERTEXT, ParseCiphertexts, hasContext, s)
  }

  // ---------------------------------------------------------------------------
  // Round trips

  /** `read_uint32` gives back what `write_uint32` sent, and consumes exactly its four bytes. */
  lemma U32RoundTrip(v: u32, rest: seq<u8>)
    ensures ParseU32(EncodeU32(v) + rest) == Ok(Parsed(v, rest))
  {
    var e := EncodeU32(v);
    assert (e + rest)[4..] == rest;
    // v, v >> 8 and v >> 16, each split into its low byte and the rest
    var w := v / 0x100;
    var x := w / 0x100;
    assert v == 0x100 * w + v % 0x100;
    assert w == 0x100 * x + w % 0x100;
    assert x == 0x100 * (x / 0x100) + x % 0x100;
    ModUnique(x, w % 0x100 * 0x100 + v % 0x100, 0x1_0000);
    ModUnique(x / 0x100, x % 0x100 * 0x1_0000 + w % 0x100 * 0x100 + v % 0x100, 0x100_0000);
    assert e == [x / 0x100, x % 0x100, w % 0x100, v % 0x100];
  }

  /** Every four bytes are the encoding of the value they decode to: the encoding is onto. */
  lemma U32Onto(b0: u8, b1: u8, b2: u8, b3: u8)
    ensures EncodeU32(DecodeU32(b0, b1, b2, b3)) == [b0, b1, b2, b3]
  {
    var v := DecodeU32(b0, b1, b2, b3);
    ModUnique(b0, b1 * 0x1_0000 + b2 * 0x100 + b3, 0x100_0000);
    ModUnique(b0 * 0x100 + b1, b2 * 0x100 + b3, 0x1_0000);
    ModUnique(b0, b1, 0x100);
    ModUnique(b0 * 0x1_0000 + b1 * 0x100 + b2, b3, 0x100);
    ModUnique(b0 * 0x100 + b1, b2, 0x100);
  }

  /** `read_uint64` gives back what `write_uint64` sent. */
  lemma U64RoundTrip(v: u64, rest: seq<u8>)
    ensures ParseU64(EncodeU64(v) + rest) == Ok(Parsed(v, rest))
  {
    var high, low := v / TWO_32, v % TWO_32;
    assert EncodeU64(v) + rest == EncodeU32(high) + (EncodeU32(low) + rest);
    U32RoundTrip(high, EncodeU32(low) + rest);
    U32RoundTrip(low, rest);
  }

  /** `read_hello` accepts what `write_hello` sends. */
  lemma HelloRoundTrip(rest: seq<u8>)
    ensures ParseHello(EncodeU64(NET_MAGIC_HELLO) + rest) == Ok(Parsed((), rest))
  {
    U64RoundTrip(NET_MAGIC_HELLO, rest);
  }

  /** `read_hello` rejects any other uint64. */
  lemma HelloRejects(v: u64, rest: seq<u8>)
    requires v != NET_MAGIC_HELLO
    ensures ParseHello(EncodeU64(v) + rest) == Err(BadMagic)
  {
    U64RoundTrip(v, rest);
  }

  /**
   * Reading the values of xs from index j on, encoded one after the other,
   * gives them back, if each element reads back on its own.
   */
  lemma {:induction false} ManyRoundTrip<T>(xs: seq<T>, j: nat, e: T -> seq<u8>, p: (bool, seq<u8>) -> Result<Parsed<T>>, hasContext: bool, rest: seq<u8>)
    requires j <= |xs|
    requires forall i, r :: 0 <= i < |xs| ==> p(hasContext, e(xs[i]) + r) == Ok(Parsed(xs[i], r))
    ensures ParseMany(|xs| - j, p, hasContext, EncodeMany(xs[j..], e) + rest) == Ok(Parsed(xs[j..], rest))
    decreases |xs| - j
  {
    if j == |xs| {
      assert EncodeMany(xs[j..], e) + rest == rest;
    } else {
      ManyRoundTrip(xs, j + 1, e, p, hasContext, rest);
      var s1 := EncodeMany(xs[j + 1..], e) + rest;
      assert xs[j..][1..] == xs[j + 1..];
      assert EncodeMany(xs[j..], e) + rest == e(xs[j]) + s1;
      assert p(hasContext, e(xs[j]) + s1) == Ok(Parsed(xs[j], s1));
      assert xs[j..] == [xs[j]] + xs[j + 1..];
    }
  }

  /** A vector frame is read back whole when its count fits in 32 bits and each element reads back. */
  lemma VectorRoundTrip<T>(magic: u32, xs: seq<T>, e: T -> seq<u8>, p: (bool, seq<u8>) -> Result<Parsed<T>>, hasContext: bool, rest: seq<u8>)
    requires |xs| < TWO_32
    requires forall i, r :: 0 <= i < |xs| ==> p(hasContext, e(xs[i]) + r) == Ok(Parsed(xs[i], r))
    ensures ParseVector(magic, p, hasContext, EncodeVector(magic, xs, e) + rest) == Ok(Parsed(xs, rest))
  {
    ManyRoundTrip(xs, 0, e, p, hasContext, rest);
    assert xs[0..] == xs;
    var body := EncodeMany(xs, e) + rest;
    assert |xs| % TWO_32 == |xs|;
    var a, b := EncodeU32(magic), EncodeU32(|xs|);
    assert EncodeVector(magic, xs, e) == a + b + EncodeMany(xs, e);
    assert a + b + EncodeMany(xs, e) + rest == a + (b + body);
    U32RoundTrip(magic, EncodeU32(|xs|) + body);
    U32RoundTrip(|xs|, body);
  }

  /** `read_uint64s` gives back what `write_uint64s` sent, when the count fits in 32 bits. */
  lemma U64sRoundTrip(vs: seq<u64>, rest: seq<u8>)
    requires |vs| < TWO_32
    ensures ParseU64s(EncodeU64s(vs) + rest) == Ok(Parsed(vs, rest))
  {
    forall i, r | 0 <= i < |vs|
      ensures U64Item(false, EncodeU64(vs[i]) + r) == Ok(Parsed(vs[i], r))
    {
      U64RoundTrip(vs[i], r);
    }
    VectorRoundTrip(NET_MAGIC_VECTOR_UINT64, vs, EncodeU64, U64Item, false, rest);
  }

  /**
   * A frame is read back with the same magic and a context set, and its
   * reading consumes exactly the frame.
   */
  lemma BlobRoundTrip(magic: u32, blob: Blob, rest: seq<u8>)
    requires |blob| < TWO_32
    ensures ParseBlob(true, magic, Frame(magic, blob) + rest) == Ok(Parsed(blob, rest))
  {
    var body := blob + rest;
    assert Frame(magic, blob) + rest == EncodeU32(magic) + (EncodeU32(|blob|) + body);
    U32RoundTrip(magic, EncodeU32(|blob|) + body);
    U32RoundTrip(|blob|, body);
    assert body[..|blob|] == blob && body[|blob|..] == rest;
  }

  /** A frame is not read as a frame of another kind. */
  lemma BlobOtherMagic(magic: u32, expected: u32, blob: Blob, rest: seq<u8>)
    requires magic != expected
    ensures ParseBlob(true, expected, Frame(magic, blob) + rest) == Err(BadMagic)
  {
    var body := EncodeU32(|blob| % TWO_32) + blob + rest;
    assert Frame(magic, blob) + rest == EncodeU32(magic) + body;
    U32RoundTrip(magic, body);
  }

  /** Frames whose length fits in 32 bits. */
  predicate Small(cts: seq<Blob>) {
    forall i :: 0 <= i < |cts| ==> |cts[i]| < TWO_32
  }

  /** `read_ciphertexts` gives back what `write_ciphertexts` sent. */
  lemma CiphertextsRoundTrip(cts: seq<Blob>, rest: seq<u8>)
    requires |cts| < TWO_32 && Small(cts)
    ensures ParseCiphertexts(true, EncodeCiphertexts(cts) + rest) == Ok(Parsed(cts, rest))
  {
    forall i, r | 0 <= i < |cts|
      ensures CiphertextItem(true, CiphertextFrame(cts[i]) + r) == Ok(Parsed(cts[i], r))
    {
      BlobRoundTrip(NET_MAGIC_CIPHERTEXT, cts[i], r);
    }
    VectorRoundTrip(NET_MAGIC_VECTOR_CIPHERTEXT, cts, CiphertextFrame, CiphertextItem, true, rest);
  }

  /** Rows that each fit the `vcip` framing. */
  predicate SmallRows(rows: seq<seq<Blob>>) {
    forall i :: 0 <= i < |rows| ==> |rows[i]| < TWO_32 && Small(rows[i])
  }

  /** `read_ciphertexts_2d` gives back what `write_ciphertexts_2d` sent. */
  lemma Ciphertexts2DRoundTrip(rows: seq<seq<Blob>>, rest: seq<u8>)
    requires |rows| < TWO_32 && SmallRows(rows)
    ensures ParseCiphertexts2D(true, EncodeCiphertexts2D(rows) + rest) == Ok(Parsed(rows, rest))
  {
    forall i, r | 0 <= i < |rows|
      ensures ParseCiphertexts(true, EncodeCiphertexts(rows[i]) + r) == Ok(Parsed(rows[i], r))
    {
      CiphertextsRoundTrip(rows[i], r);
    }
    VectorRoundTrip(NET_MAGIC_VECTOR_VECTOR_CIPHERTEXT, rows, EncodeCiphertexts, ParseCiphertexts, true, rest);
  }

  // ---------------------------------------------------------------------------
  // Helpers for the loops of the class

  /** Values already read, put in front of what a further read yields. */
  function Prepend<T>(vs: seq<T>, r: Result<Parsed<seq<T>>>): Result<Parsed<seq<T>>> {
    if r.Err? then r else Ok(Parsed(vs + r.value.value, r.value.rest))
  }

  /**
   * A run as the loops of the class read it, front to back: `vs` already
   * read, then k more elements. It is the run `ParseMany` reads (`ManyFromIsMany`).
   */
  function ParseManyFrom<T>(vs: seq<T>, k: nat, p: (bool, seq<u8>) -> Result<Parsed<T>>, hasContext: bool, s: seq<u8>): Result<Parsed<seq<T>>>
    decreases k
  {
    if k == 0 then Ok(Parsed(vs, s))
    else
      var first :- p(hasContext, s);
      ParseManyFrom(vs + [first.value], k - 1, p, hasContext, first.rest)
  }

  lemma {:induction false} ManyFromIsMany<T>(vs: seq<T>, k: nat, p: (bool, seq<u8>) -> Result<Parsed<T>>, hasContext: bool, s: seq<u8>)
    ensures ParseManyFrom(vs, k, p, hasContext, s) == Prepend(vs, ParseMany(k, p, hasContext, s))
    decreases k
  {
    if k == 0 {
      assert vs + [] == vs;
    } else {
      var first := p(hasContext, s);
      if first.Ok? {
        var x, rest := first.value.value, first.value.rest;
        ManyFromIsMany(vs + [x], k - 1, p, hasContext, rest);
        var others := ParseMany(k - 1, p, hasContext, rest);
        if others.Ok? {
          assert vs + ([x] + others.value.value) == (vs + [x]) + others.value.value;
        }
      }
    }
  }

  lemma ManyFromDone<T>(vs: seq<T>, p: (bool, seq<u8>) -> Result<Parsed<T>>, hasContext: bool, s: seq<u8>)
    ensures ParseManyFrom(vs, 0, p, hasContext, s) == Ok(Parsed(vs, s))
  {
  }

  lemma PrependNothing<T>(r: Result<Parsed<seq<T>>>)
    ensures Prepend([], r) == r
  {
    if r.Ok? {
      assert [] + r.value.value == r.value.value;
    }
  }

  /** Encoding the first i + 1 elements adds the encoding of element i. */
  lemma {:induction false} EncodeManySnoc<T>(xs: seq<T>, i: nat, e: T -> seq<u8>)
    requires i < |xs|
    ensures EncodeMany(xs[..i + 1], e) == EncodeMany(xs[..i], e) + e(xs[i])
    decreases i
  {
    if i > 0 {
      EncodeManySnoc(xs[1..], i - 1, e);
      assert xs[1..][..i] == xs[..i + 1][1..];
      assert xs[1..][..i - 1] == xs[..i][1..];
    }
  }

  // ---------------------------------------------------------------------------
  // The connection

  /**
   * A `Networking` object: the socket's two directions, the write buffer
   * that SEAL's `save` writes into, and whether a SEAL context is set.
   */
  class Networking {
    var incoming: seq<u8>
    var outgoing: seq<u8>
    var writeBuffer: seq<u8>
    var hasContext: bool

    constructor (incoming: seq<u8>)
      ensures this.incoming == incoming && outgoing == [] && writeBuffer == [] && !hasContext
    {
      this.incoming := incoming;
      outgoing := [];
      writeBuffer := [];
      hasContext := false;
    }

    /** `set_seal_context`; `present` is false for a null context. */
    method SetSealContext(present: bool)
      modifies this
      ensures hasContext == present
      ensures incoming == old(incoming) && outgoing == old(outgoing) && writeBuffer == old(writeBuffer)
    {
      hasContext := present;
    }

    method ReadU32() returns (r: Result<u32>)
      modifies this
      ensures r == Drop(ParseU32(old(incoming)))
      ensures r.Ok? ==> incoming == ParseU32(old(incoming)).value.rest
      ensures outgoing == old(outgoing) && writeBuffer == old(writeBuffer) && hasContext == old(hasContext)
    {
      if |incoming| < 4 {
        return Err(ShortRead);
      }
      var b0: nat, b1: nat, b2: nat, b3: nat := incoming[0], incoming[1], incoming[2], incoming[3];
      incoming := incoming[4..];
      DecodeDisjoint(b0, b1, b2, b3);
      return Ok(Or(Or(Or(b3, b2 * 0x100), b1 * 0x1_0000), b0 * 0x100_0000));
    }

    method WriteU32(v: u32)
      modifies this
      ensures outgoing == old(outgoing) + EncodeU32(v)
      ensures incoming == old(incoming) && writeBuffer == old(writeBuffer) && hasContext == old(hasContext)
    {
      outgoing := outgoing + EncodeU32(v);
    }

    method ReadU64() returns (r: Result<u64>)
      modifies this
      ensures r == Drop(ParseU64(old(incoming)))
      ensures r.Ok? ==> incoming == ParseU64(old(incoming)).value.rest
      ensures outgoing == old(outgoing) && writeBuffer == old(writeBuffer) && hasContext == old(hasContext)
    {
      var high :- ReadU32();
      var low :- ReadU32();
      return Ok(Word(low, high));
    }

    method WriteU64(v: u64)
      modifies this
      ensures outgoing == old(outgoing) + EncodeU64(v)
      ensures incoming == old(incoming) && writeBuffer == old(writeBuffer) && hasContext == old(hasContext)
    {
      WriteU32(v / TWO_32);
      WriteU32(v % TWO_32);
    }

    method ReadHello() returns (r: Result<()>)
      modifies this
      ensures r == Drop(ParseHello(old(incoming)))
      ensures r.Ok? ==> incoming == ParseHello(old(incoming)).value.rest
      ensures outgoing == old(outgoing) && writeBuffer == old(writeBuffer) && hasContext == old(hasContext)
    {
      var word :- ReadU64();
      if word != NET_MAGIC_HELLO {
        return Err(BadMagic);
      }
      return Ok(());
    }

    method WriteHello()
      modifies this
      ensures outgoing == old(outgoing) + EncodeU64(NET_MAGIC_HELLO)
      ensures incoming == old(incoming) && writeBuffer == old(writeBuffer) && hasContext == old(hasContext)
    {
      WriteU64(NET_MAGIC_HELLO);
    }

    /** `read_uint64s`: the header, then the elements. */
    method ReadU64s() returns (r: Result<seq<u64>>)
      modifies this
      ensures r == Drop(ParseU64s(old(incoming)))
      ensures r.Ok? ==> incoming == ParseU64s(old(incoming)).value.rest
      ensures outgoing == old(outgoing) && writeBuffer == old(writeBuffer) && hasContext == old(hasContext)
    {
      var length :- ReadHeader(NET_MAGIC_VECTOR_UINT64);
      ManyFromIsMany([], length, U64Item, false, incoming);
      PrependNothing(ParseMany(length, U64Item, false, incoming));
      r := ReadU64Run(length);
    }

    /** The loop of `read_uint64s`: n elements, one after the other. */
    method ReadU64Run(n: nat) returns (r: Result<seq<u64>>)
      modifies this
      ensures r == Drop(ParseManyFrom([], n, U64Item, false, old(incoming)))
      ensures r.Ok? ==> incoming == ParseManyFrom([], n, U64Item, false, old(incoming)).value.rest
      ensures outgoing == old(outgoing) && writeBuffer == old(writeBuffer) && hasContext == old(hasContext)
    {
      ghost var whole := ParseManyFrom([], n, U64Item, false, incoming);
      var values: seq<u64> := [];
      var k := n;
      while k > 0
        invariant ParseManyFrom(values, k, U64Item, false, incoming) == whole
        invariant outgoing == old(outgoing) && writeBuffer == old(writeBuffer) && hasContext == old(hasContext)
      {
        var ok, next, error := ReadU64Step(values, k, whole);
        if !ok {
          return Err(error);
        }
        values, k := next, k - 1;
      }
      ManyFromDone(values, U64Item, false, incoming);
      return Ok(values);
    }

    /** One pass of that loop: the next element joins those read so far, or its failure is the run's. */
    method ReadU64Step(acc: seq<u64>, k: nat, ghost whole: Result<Parsed<seq<u64>>>) returns (ok: bool, next: seq<u64>, error: NetError)
      requires k > 0 && ParseManyFrom(acc, k, U64Item, false, incoming) == whole
      modifies this
      ensures ok ==> ParseManyFrom(next, k - 1, U64Item, false, incoming) == whole
      ensures !ok ==> whole == Err(error)
      ensures outgoing == old(outgoing) && writeBuffer == old(writeBuffer) && hasContext == old(hasContext)
    {
      var r := ReadU64();
      match r {
        case Err(e) =>
          return false, acc, e;
        case Ok(v) =>
          return true, acc + [v], ShortRead;
      }
    }

    method WriteU64s(values: seq<u64>)
      modifies this
      ensures outgoing == old(outgoing) + EncodeU64s(values)
      ensures incoming == old(incoming) && writeBuffer == old(writeBuffer) && hasContext == old(hasContext)
    {
      WriteU32(NET_MAGIC_VECTOR_UINT64);
      WriteU32(|values| % TWO_32);
      ghost var start := outgoing;
      for i := 0 to |values|
        invariant outgoing == start + EncodeMany(values[..i], EncodeU64)
        invariant incoming == old(incoming) && writeBuffer == old(writeBuffer) && hasContext == old(hasContext)
      {
        EncodeManySnoc(values, i, EncodeU64);
        WriteU64(values[i]);
      }
      assert values[..|values|] == values;
    }

    /** The magic and the count that open `read_uint64s`, `read_ciphertexts` and `read_ciphertexts_2d`. */
    method ReadHeader(magic: u32) returns (r: Result<u32>)
      modifies this
      ensures r == Drop(ParseHeader(magic, old(incoming)))
      ensures r.Ok? ==> incoming == ParseHeader(magic, old(incoming)).value.rest
      ensures outgoing == old(outgoing) && writeBuffer == old(writeBuffer) && hasContext == old(hasContext)
    {
      var m :- ReadU32();
      if m != magic {
        return Err(BadMagic);
      }
      r := ReadU32();
    }

    /** The shared body of the three SEAL-object readers. */
    method ReadBlob(magic: u32) returns (r: Result<Blob>)
      modifies this
      ensures r == Drop(ParseBlob(old(hasContext), magic, old(incoming)))
      ensures r.Ok? ==> incoming == ParseBlob(old(hasContext), magic, old(incoming)).value.rest
      ensures outgoing == old(outgoing) && writeBuffer == old(writeBuffer) && hasContext == old(hasContext)
    {
      if !hasContext {
        return Err(NoContext);
      }
      var m :- ReadU32();
      if m != magic {
        return Err(BadMagic);
      }
      var length :- ReadU32();
      if |incoming| < length {
        return Err(ShortRead);
      }
      var blob := incoming[..length];
      incoming := incoming[length..];
      return Ok(blob);
    }

    /**
     * The shared body of the three SEAL-object writers: the magic goes out,
     * `save` appends the object to the write buffer, and as many bytes of
     * the buffer as its size truncated to 32 bits go out after that size.
     * Writing from a streambuf consumes the bytes sent, and the explicit
     * `consume(length)` that follows drops up to `length` more, so a buffer
     * of 2^32 bytes or more loses 2 * length bytes (all of it if shorter).
     */
    method WriteBlob(magic: u32, blob: Blob)
      modifies this
      ensures var buffer := old(writeBuffer) + blob;
        var length := |buffer| % TWO_32;
        outgoing == old(outgoing) + EncodeU32(magic) + EncodeU32(length) + buffer[..length] &&
        writeBuffer == buffer[if 2 * length <= |buffer| then 2 * length else |buffer|..]
      ensures old(writeBuffer) == [] && |blob| < TWO_32 ==>
        outgoing == old(outgoing) + Frame(magic, blob) && writeBuffer == []
      ensures incoming == old(incoming) && hasContext == old(hasContext)
    {
      WriteU32(magic);
      writeBuffer := writeBuffer + blob;
      var length := |writeBuffer| % TWO_32;
      WriteU32(length);
      outgoing := outgoing + writeBuffer[..length];
      writeBuffer := writeBuffer[length..];
      writeBuffer := writeBuffer[if length <= |writeBuffer| then length else |writeBuffer|..];
    }

    method ReadCiphertext() returns (r: Result<Blob>)
      modifies this
      ensures r == Drop(ParseBlob(old(hasContext), NET_MAGIC_CIPHERTEXT, old(incoming)))
      ensures r.Ok? ==> incoming == ParseBlob(old(hasContext), NET_MAGIC_CIPHERTEXT, old(incoming)).value.rest
      ensures outgoing == old(outgoing) && writeBuffer == old(writeBuffer) && hasContext == old(hasContext)
    {
      r := ReadBlob(NET_MAGIC_CIPHERTEXT);
    }

    method WriteCiphertext(blob: Blob)
      modifies this
      ensures old(writeBuffer) == [] && |blob| < TWO_32 ==>
        outgoing == old(outgoing) + CiphertextFrame(blob) && writeBuffer == []
      ensures incoming == old(incoming) && hasContext == old(hasContext)
    {
      WriteBlob(NET_MAGIC_CIPHERTEXT, blob);
    }

    method ReadPublicKey() returns (r: Result<Blob>)
      modifies this
      ensures r == Drop(ParseBlob(old(hasContext), NET_MAGIC_PUBLIC_KEY, old(incoming)))
      ensures r.Ok? ==> incoming == ParseBlob(old(hasContext), NET_MAGIC_PUBLIC_KEY, old(incoming)).value.rest
      ensures outgoing == old(outgoing) && writeBuffer == old(writeBuffer) && hasContext == old(hasContext)
    {
      r := ReadBlob(NET_MAGIC_PUBLIC_KEY);
    }

    method WritePublicKey(blob: Blob)
      modifies this
      ensures old(writeBuffer) == [] && |blob| < TWO_32 ==>
        outgoing == old(outgoing) + Frame(NET_MAGIC_PUBLIC_KEY, blob) && writeBuffer == []
      ensures incoming == old(incoming) && hasContext == old(hasContext)
    {
      WriteBlob(NET_MAGIC_PUBLIC_KEY, blob);
    }

    method ReadRelinKeys() returns (r: Result<Blob>)
      modifies this
      ensures r == Drop(ParseBlob(old(hasContext), NET_MAGIC_RELIN_KEYS, old(incoming)))
      ensures r.Ok? ==> incoming == ParseBlob(old(hasContext), NET_MAGIC_RELIN_KEYS, old(incoming)).value.rest
      ensures outgoing == old(outgoing) && writeBuffer == old(writeBuffer) && hasContext == old(hasContext)
    {
      r := ReadBlob(NET_MAGIC_RELIN_KEYS);
    }

    method WriteRelinKeys(blob: Blob)
      modifies this
      ensures old(writeBuffer) == [] && |blob| < TWO_32 ==>
        outgoing == old(outgoing) + Frame(NET_MAGIC_RELIN_KEYS, blob) && writeBuffer == []
      ensures incoming == old(incoming) && hasContext == old(hasContext)
    {
      WriteBlob(NET_MAGIC_RELIN_KEYS, blob);
    }

    /** `read_ciphertexts`: the header, then the elements. */
    method ReadCiphertexts() returns (r: Result<seq<Blob>>)
      modifies this
      ensures r == Drop(ParseCiphertexts(old(hasContext), old(incoming)))
      ensures r.Ok? ==> incoming == ParseCiphertexts(old(hasContext), old(incoming)).value.rest
      ensures outgoing == old(outgoing) && writeBuffer == old(writeBuffer) && hasContext == old(hasContext)
    {
      var length :- ReadHeader(NET_MAGIC_VECTOR_CIPHERTEXT);
      ManyFromIsMany([], length, CiphertextItem, hasContext, incoming);
      PrependNothing(ParseMany(length, CiphertextItem, hasContext, incoming));
      r := ReadCiphertextRun(length);
    }

    /** The loop of `read_ciphertexts`: n elements, one after the other. */
    method ReadCiphertextRun(n: nat) returns (r: Result<seq<Blob>>)
      modifies this
      ensures r == Drop(ParseManyFrom([], n, CiphertextItem, old(hasContext), old(incoming)))
      ensures r.Ok? ==> incoming == ParseManyFrom([], n, CiphertextItem, old(hasContext), old(incoming)).value.rest
      ensures outgoing == old(outgoing) && writeBuffer == old(writeBuffer) && hasContext == old(hasContext)
    {
      ghost var whole := ParseManyFrom([], n, CiphertextItem, hasContext, incoming);
      var cts: seq<Blob> := [];
      var k := n;
      while k > 0
        invariant ParseManyFrom(cts, k, CiphertextItem, hasContext, incoming) == whole
        invariant outgoing == old(outgoing) && writeBuffer == old(writeBuffer) && hasContext == old(hasContext)
      {
        var ok, next, error := ReadCiphertextStep(cts, k, whole);
        if !ok {
          return Err(error);
        }
        cts, k := next, k - 1;
      }
      ManyFromDone(cts, CiphertextItem, hasContext, incoming);
      return Ok(cts);
    }

    /** One pass of that loop: the next element joins those read so far, or its failure is the run's. */
    method ReadCiphertextStep(acc: seq<Blob>, k: nat, ghost whole: Result<Parsed<seq<Blob>>>) returns (ok: bool, next: seq<Blob>, error: NetError)
      requires k > 0 && ParseManyFrom(acc, k, CiphertextItem, hasContext, incoming) == whole
      modifies this
      ensures ok ==> ParseManyFrom(next, k - 1, CiphertextItem, hasContext, incoming) == whole
      ensures !ok ==> whole == Err(error)
      ensures outgoing == old(outgoing) && writeBuffer == old(writeBuffer) && hasContext == old(hasContext)
    {
      var r := ReadCiphertext();
      match r {
        case Err(e) =>
          return false, acc, e;
        case Ok(ct) =>
          return true, acc + [ct], ShortRead;
      }
    }

    method WriteCiphertexts(cts: seq<Blob>)
      modifies this
      ensures old(writeBuffer) == [] && Small(cts) ==>
        outgoing == old(outgoing) + EncodeCiphertexts(cts) && writeBuffer == []
      ensures incoming == old(incoming) && hasContext == old(hasContext)
    {
      ghost var clean := writeBuffer == [] && Small(cts);
      WriteU32(NET_MAGIC_VECTOR_CIPHERTEXT);
      WriteU32(|cts| % TWO_32);
      ghost var start := outgoing;
      for i := 0 to |cts|
        invariant clean ==> writeBuffer == [] && outgoing == start + EncodeMany(cts[..i], CiphertextFrame)
        invariant incoming == old(incoming) && hasContext == old(hasContext)
      {
        EncodeManySnoc(cts, i, CiphertextFrame);
        WriteCiphertext(cts[i]);
      }
      assert cts[..|cts|] == cts;
    }

    /** `read_ciphertexts_2d`: the header, then the elements. */
    method ReadCiphertexts2D() returns (r: Result<seq<seq<Blob>>>)
      modifies this
      ensures r == Drop(ParseCiphertexts2D(old(hasContext), old(incoming)))
      ensures r.Ok? ==> incoming == ParseCiphertexts2D(old(hasContext), old(incoming)).value.rest
      ensures outgoing == old(outgoing) && writeBuffer == old(writeBuffer) && hasContext == old(hasContext)
    {
      var length :- ReadHeader(NET_MAGIC_VECTOR_VECTOR_CIPHERTEXT);
      ManyFromIsMany([], length, ParseCiphertexts, hasContext, incoming);
      PrependNothing(ParseMany(length, ParseCiphertexts, hasContext, incoming));
      r := ReadRowRun(length);
    }

    /** The loop of `read_ciphertexts_2d`: n elements, one after the other. */
    method ReadRowRun(n: nat) returns (r: Result<seq<seq<Blob>>>)
      modifies this
      ensures r == Drop(ParseManyFrom([], n, ParseCiphertexts, old(hasContext), old(incoming)))
      ensures r.Ok? ==> incoming == ParseManyFrom([], n, ParseCiphertexts, old(hasContext), old(incoming)).value.rest
      ensures outgoing == old(outgoing) && writeBuffer == old(writeBuffer) && hasContext == old(hasContext)
    {
      ghost var whole := ParseManyFrom([], n, ParseCiphertexts, hasContext, incoming);
      var rows: seq<seq<Blob>> := [];
      var k := n;
      while k > 0
        invariant ParseManyFrom(rows, k, ParseCiphertexts, hasContext, incoming) == whole
        invariant outgoing == old(outgoing) && writeBuffer == old(writeBuffer) && hasContext == old(hasContext)
      {
        var ok, next, error := ReadRowStep(rows, k, whole);
        if !ok {
          return Err(error);
        }
        rows, k := next, k - 1;
      }
      ManyFromDone(rows, ParseCiphertexts, hasContext, incoming);
      return Ok(rows);
    }

    /** One pass of that loop: the next element joins those read so far, or its failure is the run's. */
    method ReadRowStep(acc: seq<seq<Blob>>, k: nat, ghost whole: Result<Parsed<seq<seq<Blob>>>>) returns (ok: bool, next: seq<seq<Blob>>, error: NetError)
      requires k > 0 && ParseManyFrom(acc, k, ParseCiphertexts, hasContext, incoming) == whole
      modifies this
      ensures ok ==> ParseManyFrom(next, k - 1, ParseCiphertexts, hasContext, incoming) == whole
      ensures !ok ==> whole == Err(error)
      ensures outgoing == old(outgoing) && writeBuffer == old(writeBuffer) && hasContext == old(hasContext)
    {
      var r := ReadCiphertexts();
      match r {
        case Err(e) =>
          return false, acc, e;
        case Ok(row) =>
          return true, acc + [row], ShortRead;
      }
    }

    method WriteCiphertexts2D(rows: seq<seq<Blob>>)
      modifies this
      ensures old(writeBuffer) == [] && SmallRows(rows) ==>
        outgoing == old(outgoing) + EncodeCiphertexts2D(rows) && writeBuffer == []
      ensures incoming == old(incoming) && hasContext == old(hasContext)
    {
      ghost var clean := writeBuffer == [] && SmallRows(rows);
      WriteU32(NET_MAGIC_VECTOR_VECTOR_CIPHERTEXT);
      WriteU32(|rows| % TWO_32);
      ghost var start := outgoing;
      for i := 0 to |rows|
        invariant clean ==> writeBuffer == [] && outgoing == start + EncodeMany(rows[..i], EncodeCiphertexts)
        invariant incoming == old(incoming) && hasContext == old(hasContext)
      {
        WriteRow(rows, i, start, clean);
      }
      assert rows[..|rows|] == rows;
    }

    /** One pass of the loop of `write_ciphertexts_2d`: row i follows the rows before it. */
    method WriteRow(rows: seq<seq<Blob>>, i: nat, ghost start: seq<u8>, ghost clean: bool)
      requires i < |rows|
      requires clean ==> SmallRows(rows) && writeBuffer == [] && outgoing == start + EncodeMany(rows[..i], EncodeCiphertexts)
      modifies this
      ensures clean ==> writeBuffer == [] && outgoing == start + EncodeMany(rows[..i + 1], EncodeCiphertexts)
      ensures incoming == old(incoming) && hasContext == old(hasContext)
    {
      EncodeManySnoc(rows, i, EncodeCiphertexts);
      WriteCiphertexts(rows[i]);
    }
  }
}
