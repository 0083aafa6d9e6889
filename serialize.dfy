/**
 * The canonical encoding protocol shared by the TypeScript records: a record is the flat
 * concatenation of its fields' encodings, with no length prefixes or tags, and it is read
 * back field by field through a cursor over the buffer. The cursor is modelled as a byte
 * offset that each read returns advanced past what it consumed.
 *
 * The byte encodings of a field element and of the opaque kernel payloads are external
 * collaborators: they are parameters here, and what the records rely on them for is
 * stated as predicates (FieldCodecSound, CodecSound) that the lemmas take as hypotheses.
 */
module Serialize {
  import opened Wrappers
  import opened Types

  /** Width of a field element's encoding (`Fr.SIZE_IN_BYTES`). */
  const FR_SIZE_IN_BYTES: nat := 32

  /** Values of a JavaScript number that a 4-byte unsigned big-endian slot can hold. */
  const UINT32_LIMIT: nat := 0x1_0000_0000

  datatype DecodeError =
    | TruncatedInput     // fewer bytes remain than the next field needs
    | MalformedField     // the field-element decoder rejected its 32 bytes
    | MalformedPayload   // an opaque payload's own reader failed

  datatype EncodeError = NumberOutOfRange(n: nat)

  /** The external encoder and decoder of one field element. */
  datatype FieldCodec = FieldCodec(encode: Fr -> Bytes, decode: Bytes -> Option<Fr>)

  /**
   * What the records assume of the field-element encoding: it is 32 bytes wide, decoding
   * inverts it, and the decoder accepts only canonical encodings.
   */
  ghost predicate FieldCodecSound(fc: FieldCodec) {
    && (forall x: Fr {:trigger fc.encode(x)} ::
          |fc.encode(x)| == FR_SIZE_IN_BYTES && fc.decode(fc.encode(x)) == Some(x))
    && (forall b: Bytes {:trigger fc.decode(b)} ::
          fc.decode(b).Some? ==> fc.encode(fc.decode(b).value) == b)
  }

  /**
   * The external serializer of an opaque payload: `read` is given the unread rest of the
   * buffer and returns the value and the number of bytes it consumed.
   */
  datatype Codec<!T> = Codec(encode: T -> Bytes, read: Bytes -> Option<(T, nat)>)

  /** What the records assume of a payload's serializer: reading inverts writing, whatever follows. */
  ghost predicate CodecSound<T(!new)>(c: Codec<T>) {
    forall x: T, rest: Bytes {:trigger c.read(c.encode(x) + rest)} ::
      c.read(c.encode(x) + rest) == Some((x, |c.encode(x)|))
  }

  // ---------------------------------------------------------------- field elements

  /** `reader.readObject(Fr)`: the next 32 bytes as a field element. */
  function ReadFr(fc: FieldCodec, buf: Bytes, pos: nat): (r: Result<(Fr, nat), DecodeError>)
    ensures r.Ok? ==> r.value.1 == pos + FR_SIZE_IN_BYTES <= |buf|
    ensures |buf| < pos + FR_SIZE_IN_BYTES ==> r == Err(TruncatedInput)
  {
    if |buf| < pos + FR_SIZE_IN_BYTES then Err(TruncatedInput)
    else match fc.decode(buf[pos..pos + FR_SIZE_IN_BYTES])
      case None => Err(MalformedField)
      case Some(x) => Ok((x, pos + FR_SIZE_IN_BYTES))
  }

  /** The flat concatenation of the encodings of `xs`, in order. */
  function EncodeFrs(fc: FieldCodec, xs: seq<Fr>): Bytes
  {
    if xs == [] then [] else fc.encode(xs[0]) + EncodeFrs(fc, xs[1..])
  }

  /** `reader.readArray(n, Fr)`: exactly `n` field elements, in order. */
  function ReadFrs(fc: FieldCodec, n: nat, buf: Bytes, pos: nat): (r: Result<(seq<Fr>, nat), DecodeError>)
    ensures r.Ok? ==> |r.value.0| == n && r.value.1 == pos + FR_SIZE_IN_BYTES * n
    ensures r.Ok? && n > 0 ==> r.value.1 <= |buf|
    decreases n
  {
    if n == 0 then Ok(([], pos))
    else
      var first :- ReadFr(fc, buf, pos);
      var others :- ReadFrs(fc, n - 1, buf, first.1);
      Ok(([first.0] + others.0, others.1))
  }

  lemma {:induction false} EncodeFrsLength(fc: FieldCodec, xs: seq<Fr>)
    requires FieldCodecSound(fc)
    ensures |EncodeFrs(fc, xs)| == FR_SIZE_IN_BYTES * |xs|
  {
    if xs != [] {
      EncodeFrsLength(fc, xs[1..]);
    }
  }

  lemma {:induction false} EncodeFrsAppend(fc: FieldCodec, xs: seq<Fr>, ys: seq<Fr>)
    ensures EncodeFrs(fc, xs + ys) == EncodeFrs(fc, xs) + EncodeFrs(fc, ys)
  {
    if xs == [] {
      assert xs + ys == ys;
    } else {
      assert (xs + ys)[1..] == xs[1..] + ys;
      EncodeFrsAppend(fc, xs[1..], ys);
    }
  }

  /** Reading `|xs|` field elements where their encodings stand gives back `xs`. */
  lemma {:induction false} ReadFrsEncoded(fc: FieldCodec, xs: seq<Fr>, buf: Bytes, pos: nat)
    requires FieldCodecSound(fc)
    requires pos + FR_SIZE_IN_BYTES * |xs| <= |buf|
    requires buf[pos..pos + FR_SIZE_IN_BYTES * |xs|] == EncodeFrs(fc, xs)
    ensures ReadFrs(fc, |xs|, buf, pos) == Ok((xs, pos + FR_SIZE_IN_BYTES * |xs|))
  {
    if xs != [] {
      var p1 := pos + FR_SIZE_IN_BYTES;
      var end := pos + FR_SIZE_IN_BYTES * |xs|;
      EncodeFrsLength(fc, xs[1..]);
      assert buf[pos..end] == fc.encode(xs[0]) + EncodeFrs(fc, xs[1..]);
      assert buf[pos..p1] == buf[pos..end][..FR_SIZE_IN_BYTES];
      assert buf[pos..p1] == fc.encode(xs[0]);
      assert ReadFr(fc, buf, pos) == Ok((xs[0], p1));
      assert buf[p1..end] == buf[pos..end][FR_SIZE_IN_BYTES..];
      ReadFrsEncoded(fc, xs[1..], buf, p1);
      assert [xs[0]] + xs[1..] == xs;
    }
  }

  /** Whatever `ReadFrs` accepts is exactly the encoding of what it returns. */
  lemma {:induction false} ReadFrsCanonical(fc: FieldCodec, n: nat, buf: Bytes, pos: nat)
    requires FieldCodecSound(fc)
    requires pos <= |buf| && ReadFrs(fc, n, buf, pos).Ok?
    ensures buf[pos..ReadFrs(fc, n, buf, pos).value.1] == EncodeFrs(fc, ReadFrs(fc, n, buf, pos).value.0)
    decreases n
  {
    if n > 0 {
      var first := ReadFr(fc, buf, pos).value;
      var others := ReadFrs(fc, n - 1, buf, first.1).value;
      ReadFrsCanonical(fc, n - 1, buf, first.1);
      var xs := [first.0] + others.0;
      assert xs[0] == first.0 && xs[1..] == others.0;
      assert fc.decode(buf[pos..first.1]) == Some(first.0);
      assert buf[pos..others.1] == buf[pos..first.1] + buf[first.1..others.1];
      assert EncodeFrs(fc, xs) == fc.encode(first.0) + EncodeFrs(fc, others.0);
      assert ReadFrs(fc, n, buf, pos).value == (xs, others.1);
    }
  }

  // ---------------------------------------------------------------- opaque payloads

  /** `reader.readObject(T)` for a payload with its own serializer. */
  function ReadObject<T>(c: Codec<T>, buf: Bytes, pos: nat): (r: Result<(T, nat), DecodeError>)
    ensures r.Ok? ==> pos <= r.value.1 <= |buf|
  {
    if |buf| < pos then Err(TruncatedInput)
    else match c.read(buf[pos..])
      case None => Err(MalformedPayload)
      case Some((x, n)) => if pos + n <= |buf| then Ok((x, pos + n)) else Err(TruncatedInput)
  }

  lemma ReadObjectEncoded<T(!new)>(c: Codec<T>, x: T, buf: Bytes, pos: nat)
    requires CodecSound(c)
    requires pos + |c.encode(x)| <= |buf|
    requires buf[pos..pos + |c.encode(x)|] == c.encode(x)
    ensures ReadObject(c, buf, pos) == Ok((x, pos + |c.encode(x)|))
  {
    var end := pos + |c.encode(x)|;
    assert buf[pos..] == c.encode(x) + buf[end..];
    assert c.read(c.encode(x) + buf[end..]) == Some((x, |c.encode(x)|));
  }

  // ---------------------------------------------------------------- numbers

  function Pow256(k: nat): (p: nat)
    ensures p > 0
  {
    if k == 0 then 1 else 256 * Pow256(k - 1)
  }

  /** The `width`-byte big-endian encoding of `n` modulo 256^width. */
  function EncodeBE(n: nat, width: nat): (b: Bytes)
    ensures |b| == width
  {
    if width == 0 then [] else EncodeBE(n / 256, width - 1) + [n % 256]
  }

  /** The number a big-endian byte string denotes. */
  function DecodeBE(b: Bytes): nat
  {
    if b == [] then 0 else DecodeBE(b[..|b| - 1]) * 256 + b[|b| - 1]
  }

  lemma {:induction false} DecodeEncodeBE(n: nat, width: nat)
    requires n < Pow256(width)
    ensures DecodeBE(EncodeBE(n, width)) == n
  {
    if width > 0 {
      var b := EncodeBE(n, width);
      var q, r := n / 256, n % 256;
      assert n == q * 256 + r;
      assert n < Pow256(width - 1) * 256;
      assert q < Pow256(width - 1);
      assert b[..|b| - 1] == EncodeBE(q, width - 1);
      DecodeEncodeBE(q, width - 1);
    }
  }

  lemma {:induction false} DecodeBEBound(b: Bytes)
    ensures DecodeBE(b) < Pow256(|b|)
  {
    if b != [] {
      DecodeBEBound(b[..|b| - 1]);
    }
  }

  /** `serializeToBuffer` of a number: 4 bytes big-endian; Node refuses values that do not fit. */
  function EncodeUInt32(n: nat): (r: Result<Bytes, EncodeError>)
    ensures r.Ok? <==> n < UINT32_LIMIT
    ensures r.Ok? ==> |r.value| == 4
  {
    if n < UINT32_LIMIT then Ok(EncodeBE(n, 4)) else Err(NumberOutOfRange(n))
  }

  /** `reader.readNumber()`: the next 4 bytes as an unsigned big-endian number. */
  function ReadUInt32(buf: Bytes, pos: nat): (r: Result<(nat, nat), DecodeError>)
    ensures r.Ok? ==> r.value.0 < UINT32_LIMIT && r.value.1 == pos + 4 <= |buf|
  {
    if |buf| < pos + 4 then Err(TruncatedInput)
    else
      DecodeBEBound(buf[pos..pos + 4]);
      assert Pow256(4) == UINT32_LIMIT;
      Ok((DecodeBE(buf[pos..pos + 4]), pos + 4))
  }

  lemma ReadUInt32Encoded(n: nat, buf: Bytes, pos: nat)
    requires n < UINT32_LIMIT
    requires pos + 4 <= |buf| && buf[pos..pos + 4] == EncodeBE(n, 4)
    ensures ReadUInt32(buf, pos) == Ok((n, pos + 4))
  {
    assert Pow256(4) == UINT32_LIMIT;
    DecodeEncodeBE(n, 4);
  }
}
