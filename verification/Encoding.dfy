/** Byte strings: identifiers as scalars in either byte order, and the encoded commitment list. */
module Encoding {
  import opened PrimeField
  import opened Group
  import opened Types

  type Byte = x: nat | x < 256
  type Bytes = seq<Byte>

  /** The parts of a ciphersuite the protocol uses. The hash functions are arbitrary. */
  datatype SuiteRecord = SuiteRecord(
    bigEndian: bool,
    scalarLen: nat,
    elementLen: nat,
    ElementBytes: Element -> Bytes,
    H1: Bytes -> Scalar,
    H2: Bytes -> Scalar,
    H4: Bytes -> Bytes,
    H5: Bytes -> Bytes,
    HDKG: Bytes -> Scalar)

  type Suite = s: SuiteRecord | s.scalarLen >= 4
    witness SuiteRecord(false, 4, 0, _ => [], _ => 0, _ => 0, _ => [], _ => [], _ => 0)

  /** Element encodings have one width and determine the element. */
  ghost predicate FaithfulElements(suite: Suite) {
    (forall e :: |suite.ElementBytes(e)| == suite.elementLen) &&
    (forall e, f :: suite.ElementBytes(e) == suite.ElementBytes(f) ==> e == f)
  }

  function Zeros(n: nat): (z: Bytes)
    ensures |z| == n && forall i :: 0 <= i < n ==> z[i] == 0
  {
    seq(n, _ => 0)
  }

  /** byte(id >> 8j) */
  function ShiftedByte(id: Identifier, j: nat): Byte {
    if j == 0 then id % 256
    else if j == 1 then id / 0x100 % 256
    else if j == 2 then id / 0x1_0000 % 256
    else if j == 3 then id / 0x100_0000 % 256
    else 0
  }

  ghost predicate ByteIs(id: Identifier, j: nat, b: Byte) { b == ShiftedByte(id, j) }

  type ByteFunction = f: (Identifier, nat) -> Byte | forall id, j {:trigger ByteIs(id, j, f(id, j))} ::
    ByteIs(id, j, f(id, j))
    witness ShiftedByte

  /** ShiftedByte, known through ByteIs only: proofs that do not read the bytes need no division. */
  const BYTES: ByteFunction

  /** The byte of id at position j from the low end. */
  function ByteAt(id: Identifier, j: nat): Byte {
    BYTES(id, j)
  }

  function IdentifierBytes(suite: Suite, id: Identifier): (bs: Bytes)
    ensures |bs| == suite.scalarLen
  {
    if suite.bigEndian then Zeros(suite.scalarLen - 4) + [ByteAt(id, 3), ByteAt(id, 2), ByteAt(id, 1), ByteAt(id, 0)]
    else [ByteAt(id, 0), ByteAt(id, 1), ByteAt(id, 2), ByteAt(id, 3)] + Zeros(suite.scalarLen - 4)
  }

  /** Writes the four bytes of the identifier into a zeroed buffer, in the byte order of the group. */
  method EncodeIdentifier(suite: Suite, id: Identifier) returns (bytes: array<Byte>)
    ensures fresh(bytes) && bytes[..] == IdentifierBytes(suite, id)
  {
    bytes := new Byte[suite.scalarLen](_ => 0);
    if suite.bigEndian {
      bytes[suite.scalarLen - 1] := ByteAt(id, 0);
      bytes[suite.scalarLen - 2] := ByteAt(id, 1);
      bytes[suite.scalarLen - 3] := ByteAt(id, 2);
      bytes[suite.scalarLen - 4] := ByteAt(id, 3);
    } else {
      for j := 0 to 4
        invariant forall k :: 0 <= k < bytes.Length ==> bytes[k] == if k < j then ByteAt(id, k) else 0
      {
        bytes[j] := ByteAt(id, j);
      }
    }
  }

  function BigEndianValue(bs: Bytes): nat {
    if bs == [] then 0 else 256 * BigEndianValue(bs[..|bs| - 1]) + bs[|bs| - 1]
  }

  function LittleEndianValue(bs: Bytes): nat {
    if bs == [] then 0 else bs[0] + 256 * LittleEndianValue(bs[1..])
  }

  /** Reads a canonical scalar encoding: the right width and a value below the group order. */
  function DeserializeScalar(suite: Suite, bs: Bytes): Result<Scalar> {
    var value := if suite.bigEndian then BigEndianValue(bs) else LittleEndianValue(bs);
    if |bs| == suite.scalarLen && value < Q then Ok(value) else Err(Plain(DeserializationFailed))
  }

  lemma {:induction false} ZerosHaveNoValue(n: nat)
    ensures BigEndianValue(Zeros(n)) == 0 && LittleEndianValue(Zeros(n)) == 0
  {
    if n > 0 {
      ZerosHaveNoValue(n - 1);
      assert Zeros(n)[..n - 1] == Zeros(n - 1) && Zeros(n)[1..] == Zeros(n - 1);
    }
  }

  lemma {:induction false} BytesOfIdentifier(id: Identifier)
    ensures ByteAt(id, 0) + 0x100 * ByteAt(id, 1) + 0x1_0000 * ByteAt(id, 2) + 0x100_0000 * ByteAt(id, 3) == id
  {
    assert ByteIs(id, 0, BYTES(id, 0)) && ByteIs(id, 1, BYTES(id, 1)) && ByteIs(id, 2, BYTES(id, 2))
      && ByteIs(id, 3, BYTES(id, 3));
    var high, higher, highest := id / 0x100, id / 0x1_0000, id / 0x100_0000;
    assert id == 0x100 * high + ByteAt(id, 0);
    assert high == 0x100 * higher + ByteAt(id, 1);
    assert higher == 0x100 * highest + ByteAt(id, 2);
    assert highest == ByteAt(id, 3);
  }

  lemma {:induction false} BigEndianAppend(bs: Bytes, b: Byte)
    ensures BigEndianValue(bs + [b]) == 256 * BigEndianValue(bs) + b
  {
    assert (bs + [b])[..|bs|] == bs;
  }

  lemma {:induction false} LittleEndianPrepend(b: Byte, bs: Bytes)
    ensures LittleEndianValue([b] + bs) == b + 256 * LittleEndianValue(bs)
  {
    assert ([b] + bs)[1..] == bs;
  }

  lemma {:induction false} IdentifierValue(suite: Suite, id: Identifier)
    ensures (if suite.bigEndian then BigEndianValue(IdentifierBytes(suite, id))
             else LittleEndianValue(IdentifierBytes(suite, id))) == id
  {
    var z := Zeros(suite.scalarLen - 4);
    var (b0, b1, b2, b3) := (ByteAt(id, 0), ByteAt(id, 1), ByteAt(id, 2), ByteAt(id, 3));
    ZerosHaveNoValue(suite.scalarLen - 4);
    BytesOfIdentifier(id);
    if suite.bigEndian {
      BigEndianAppend(z, b3);
      BigEndianAppend(z + [b3], b2);
      BigEndianAppend(z + [b3] + [b2], b1);
      BigEndianAppend(z + [b3] + [b2] + [b1], b0);
      assert IdentifierBytes(suite, id) == z + [b3] + [b2] + [b1] + [b0];
    } else {
      LittleEndianPrepend(b3, z);
      LittleEndianPrepend(b2, [b3] + z);
      LittleEndianPrepend(b1, [b2] + ([b3] + z));
      LittleEndianPrepend(b0, [b1] + ([b2] + ([b3] + z)));
      assert IdentifierBytes(suite, id) == [b0] + ([b1] + ([b2] + ([b3] + z)));
    }
  }

  /** The scalar whose value is the identifier, in either byte order; the conversion never fails. */
  method IdentifierToScalar(suite: Suite, id: Identifier) returns (r: Result<Scalar>)
    ensures r == Ok(id)
  {
    var bytes := EncodeIdentifier(suite, id);
    IdentifierValue(suite, id);
    r := DeserializeScalar(suite, bytes[..]);
  }

  lemma {:induction false} IdentifierBytesInjective(suite: Suite, a: Identifier, b: Identifier)
    requires IdentifierBytes(suite, a) == IdentifierBytes(suite, b)
    ensures a == b
  {
    IdentifierValue(suite, a);
    IdentifierValue(suite, b);
  }

  // ---- the commitment list ----

  function EncodeOne(suite: Suite, c: Commitment): Bytes {
    IdentifierBytes(suite, c.id) + suite.ElementBytes(c.hiding) + suite.ElementBytes(c.binding)
  }

  function Chunks(suite: Suite, list: seq<Commitment>): (cs: seq<Bytes>)
    ensures |cs| == |list| && forall i :: 0 <= i < |list| ==> cs[i] == EncodeOne(suite, list[i])
  {
    seq(|list|, i requires 0 <= i < |list| => EncodeOne(suite, list[i]))
  }

  function ConcatTo(cs: seq<Bytes>, k: nat): Bytes
    requires k <= |cs|
  {
    if k == 0 then [] else ConcatTo(cs, k - 1) + cs[k - 1]
  }

  function EncodeList(suite: Suite, list: seq<Commitment>): Bytes {
    ConcatTo(Chunks(suite, list), |list|)
  }

  ghost predicate IsChunk(suite: Suite, c: Commitment, chunk: Bytes) {
    chunk == EncodeOne(suite, c)
  }

  /** The chunks of the list; the trigger keeps them folded where only their order matters. */
  ghost predicate AreChunks(suite: Suite, list: seq<Commitment>, cs: seq<Bytes>) {
    |cs| == |list| &&
    forall k {:trigger IsChunk(suite, list[k], cs[k])} :: 0 <= k < |list| ==> IsChunk(suite, list[k], cs[k])
  }

  method AppendOne(suite: Suite, result: Bytes, c: Commitment, ghost chunk: Bytes) returns (r: Bytes)
    requires IsChunk(suite, c, chunk)
    ensures r == result + chunk
  {
    var identifierBytes := EncodeIdentifier(suite, c.id);
    r := result + identifierBytes[..];
    r := r + suite.ElementBytes(c.hiding);
    r := r + suite.ElementBytes(c.binding);
  }

  method AppendAll(suite: Suite, list: seq<Commitment>, ghost cs: seq<Bytes>) returns (result: Bytes)
    requires AreChunks(suite, list, cs)
    ensures result == ConcatTo(cs, |cs|)
  {
    result := [];
    for k := 0 to |list|
      invariant result == ConcatTo(cs, k)
    {
      result := AppendOne(suite, result, list[k], cs[k]);
    }
  }

  method Encode(suite: Suite, list: seq<Commitment>) returns (result: Bytes)
    ensures result == EncodeList(suite, list)
  {
    result := AppendAll(suite, list, Chunks(suite, list));
  }

  lemma {:induction false} EncodeOneInjective(suite: Suite, a: Commitment, b: Commitment)
    requires FaithfulElements(suite) && EncodeOne(suite, a) == EncodeOne(suite, b)
    ensures a == b
  {
    var n, m := suite.scalarLen, suite.elementLen;
    var x, y := EncodeOne(suite, a), EncodeOne(suite, b);
    assert x[..n] == IdentifierBytes(suite, a.id) && y[..n] == IdentifierBytes(suite, b.id);
    assert x[n..n + m] == suite.ElementBytes(a.hiding) && y[n..n + m] == suite.ElementBytes(b.hiding);
    assert x[n + m..] == suite.ElementBytes(a.binding) && y[n + m..] == suite.ElementBytes(b.binding);
    IdentifierBytesInjective(suite, a.id, b.id);
  }

  lemma {:induction false} SplitBytes(x: Bytes, u: Bytes, y: Bytes, v: Bytes)
    requires x + u == y + v && |u| == |v|
    ensures x == y && u == v
  {
    assert |x| == |x + u| - |u| == |y|;
    assert x == (x + u)[..|x|] && u == (x + u)[|x|..];
    assert y == (y + v)[..|x|] && v == (y + v)[|x|..];
  }

  /** Concatenations of chunks of one positive width are equal only chunk by chunk. */
  lemma {:induction false} ConcatInjective(w: nat, a: seq<Bytes>, k: nat, b: seq<Bytes>, l: nat)
    requires w > 0 && k <= |a| && l <= |b|
    requires forall i :: 0 <= i < k ==> |a[i]| == w
    requires forall i :: 0 <= i < l ==> |b[i]| == w
    requires ConcatTo(a, k) == ConcatTo(b, l)
    ensures a[..k] == b[..l]
  {
    if k > 0 && l > 0 {
      SplitBytes(ConcatTo(a, k - 1), a[k - 1], ConcatTo(b, l - 1), b[l - 1]);
      ConcatInjective(w, a, k - 1, b, l - 1);
      assert a[..k] == a[..k - 1] + [a[k - 1]] && b[..l] == b[..l - 1] + [b[l - 1]];
    }
  }

  lemma {:induction false} ChunkWidths(suite: Suite, list: seq<Commitment>)
    requires FaithfulElements(suite)
    ensures forall i :: 0 <= i < |list| ==> |Chunks(suite, list)[i]| == suite.scalarLen + 2 * suite.elementLen
  {
    forall i | 0 <= i < |list|
      ensures |Chunks(suite, list)[i]| == suite.scalarLen + 2 * suite.elementLen
    {
      assert |EncodeOne(suite, list[i])| == suite.scalarLen + 2 * suite.elementLen;
    }
  }

  /** In a concatenation of chunks of one width, chunk k is where it should be. */
  lemma {:induction false} ConcatAt(w: nat, cs: seq<Bytes>, n: nat, k: nat, o: nat)
    requires k < n <= |cs| && o == k * w && forall i :: 0 <= i < n ==> |cs[i]| == w
    ensures |ConcatTo(cs, n)| == n * w && o + w <= |ConcatTo(cs, n)|
    ensures ConcatTo(cs, n)[o..o + w] == cs[k]
  {
    if n == 1 {
      assert ConcatTo(cs, 0) == [];
    } else {
      ConcatAt(w, cs, n - 1, if k == n - 1 then 0 else k, if k == n - 1 then 0 else o);
      assert n * w == (n - 1) * w + w;
      if k < n - 1 {
        var before := ConcatTo(cs, n - 1);
        assert (before + cs[n - 1])[o..o + w] == before[o..o + w];
      }
    }
  }

  lemma {:induction false} EncodedParts(suite: Suite, c: Commitment)
    requires FaithfulElements(suite)
    ensures var n, m, chunk := suite.scalarLen, suite.elementLen, EncodeOne(suite, c);
      && |chunk| == n + 2 * m && chunk[..n] == IdentifierBytes(suite, c.id)
      && chunk[n..n + m] == suite.ElementBytes(c.hiding) && chunk[n + m..] == suite.ElementBytes(c.binding)
  {
    var n, m, chunk := suite.scalarLen, suite.elementLen, EncodeOne(suite, c);
    assert chunk[..n] == IdentifierBytes(suite, c.id);
    assert chunk[n..n + m] == suite.ElementBytes(c.hiding);
    assert chunk[n + m..] == suite.ElementBytes(c.binding);
  }

  /** Entry k of the list takes up the k-th stretch of w bytes, from position o: the identifier, the hiding and then the
      binding commitment. */
  lemma {:induction false} EncodedEntry(suite: Suite, list: seq<Commitment>, k: nat, w: nat, o: nat)
    requires FaithfulElements(suite) && k < |list|
    requires w == suite.scalarLen + 2 * suite.elementLen && o == k * w
    ensures |EncodeList(suite, list)| == |list| * w && o + w <= |EncodeList(suite, list)|
    ensures var n, m, entry := suite.scalarLen, suite.elementLen, EncodeList(suite, list)[o..o + w];
      && entry[..n] == IdentifierBytes(suite, list[k].id)
      && entry[n..n + m] == suite.ElementBytes(list[k].hiding)
      && entry[n + m..] == suite.ElementBytes(list[k].binding)
  {
    ChunkWidths(suite, list);
    ConcatAt(w, Chunks(suite, list), |list|, k, o);
    EncodedParts(suite, list[k]);
  }

  lemma {:induction false} SameChunks(suite: Suite, a: seq<Commitment>, b: seq<Commitment>)
    requires FaithfulElements(suite) && Chunks(suite, a) == Chunks(suite, b)
    ensures a == b
  {
    assert |a| == |Chunks(suite, a)| == |b|;
    forall i | 0 <= i < |a|
      ensures a[i] == b[i]
    {
      assert Chunks(suite, a)[i] == Chunks(suite, b)[i];
      EncodeOneInjective(suite, a[i], b[i]);
    }
  }

  /** Different commitment lists have different encodings. */
  lemma {:induction false} EncodeInjective(suite: Suite, a: seq<Commitment>, b: seq<Commitment>)
    requires FaithfulElements(suite)
    ensures EncodeList(suite, a) == EncodeList(suite, b) <==> a == b
  {
    if EncodeList(suite, a) == EncodeList(suite, b) {
      var x, y := Chunks(suite, a), Chunks(suite, b);
      ChunkWidths(suite, a);
      ChunkWidths(suite, b);
      ConcatInjective(suite.scalarLen + 2 * suite.elementLen, x, |a|, y, |b|);
      assert x[..|a|] == x && y[..|b|] == y;
      SameChunks(suite, a, b);
    }
  }
}
