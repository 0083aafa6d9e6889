/**
 * `PrivateKernelData`: what one private kernel iteration hands to the next one, namely the
 * previous kernel's public inputs and verification key, and the membership witness of that
 * key in the tree of allowed keys (its leaf index and a sibling path of fixed length).
 *
 * The public inputs and the verification key are opaque payloads: they are type parameters,
 * and their serializers are `Codec` parameters.
 */
module PrivateKernel {
  import opened Wrappers
  import opened Types
  import opened Serialize

  /** The height of the verification-key tree, a fixed constant of the protocol; no proof depends on its value. */
  const VK_TREE_HEIGHT: nat

  /** `Tuple<Fr, typeof VK_TREE_HEIGHT>`: a sibling path always has exactly VK_TREE_HEIGHT entries. */
  type VkPath = s: seq<Fr> | |s| == VK_TREE_HEIGHT witness seq(VK_TREE_HEIGHT, _ => 0)

  /**
   * The constructor of this datatype is the class constructor: it checks nothing, so any
   * index and any path contents are accepted.
   */
  datatype PrivateKernelData<PublicInputs, VerificationKey> = PrivateKernelData(
    publicInputs: PublicInputs,
    verificationKey: VerificationKey,
    vkIndex: nat,          // `UInt32`, a JavaScript number
    vkPath: VkPath)

  /** `toBuffer()`: public inputs, verification key, index (4 bytes), then the path. */
  function ToBuffer<PI, VK>(pic: Codec<PI>, vkc: Codec<VK>, fc: FieldCodec, d: PrivateKernelData<PI, VK>)
    : (r: Result<Bytes, EncodeError>)
    ensures r.Ok? <==> d.vkIndex < UINT32_LIMIT
  {
    var index :- EncodeUInt32(d.vkIndex);
    Ok(pic.encode(d.publicInputs) + vkc.encode(d.verificationKey) + index + EncodeFrs(fc, d.vkPath))
  }

  /** The four fields read in the same order from a cursor. */
  function FromReader<PI, VK>(pic: Codec<PI>, vkc: Codec<VK>, fc: FieldCodec, buf: Bytes, pos: nat)
    : (r: Result<(PrivateKernelData<PI, VK>, nat), DecodeError>)
    ensures r.Ok? ==> r.value.0.vkIndex < UINT32_LIMIT && pos + 4 + FR_SIZE_IN_BYTES * VK_TREE_HEIGHT <= r.value.1 <= |buf|
  {
    var publicInputs :- ReadObject(pic, buf, pos);
    var verificationKey :- ReadObject(vkc, buf, publicInputs.1);
    var vkIndex :- ReadUInt32(buf, verificationKey.1);
    var vkPath :- ReadFrs(fc, VK_TREE_HEIGHT, buf, vkIndex.1);
    Ok((PrivateKernelData(publicInputs.0, verificationKey.0, vkIndex.0, vkPath.0), vkPath.1))
  }

  /** `PrivateKernelData.fromBuffer`. */
  function FromBuffer<PI, VK>(pic: Codec<PI>, vkc: Codec<VK>, fc: FieldCodec, buf: Bytes)
    : (r: Result<PrivateKernelData<PI, VK>, DecodeError>)
    ensures r.Ok? ==> r.value.vkIndex < UINT32_LIMIT
    ensures |buf| < 4 + FR_SIZE_IN_BYTES * VK_TREE_HEIGHT ==> r.Err?
  {
    var (d, _) :- FromReader(pic, vkc, fc, buf, 0);
    Ok(d)
  }

  /** `PrivateKernelData.empty()`, given the payloads' own `empty()` values. */
  function Empty<PI, VK>(emptyPublicInputs: PI, emptyVerificationKey: VK): (d: PrivateKernelData<PI, VK>)
    ensures d.publicInputs == emptyPublicInputs && d.verificationKey == emptyVerificationKey
    ensures d.vkIndex == 0 && forall i :: 0 <= i < |d.vkPath| ==> d.vkPath[i] == 0
  {
    PrivateKernelData(emptyPublicInputs, emptyVerificationKey, 0, seq(VK_TREE_HEIGHT, _ => 0))
  }

  // ---------------------------------------------------------------- properties

  /** The encoding is the flat concatenation of the four fields, of the width the schema fixes. */
  lemma ToBufferLayout<PI, VK>(pic: Codec<PI>, vkc: Codec<VK>, fc: FieldCodec, d: PrivateKernelData<PI, VK>)
    requires FieldCodecSound(fc) && d.vkIndex < UINT32_LIMIT
    ensures ToBuffer(pic, vkc, fc, d) == Ok(pic.encode(d.publicInputs) + vkc.encode(d.verificationKey)
                                            + EncodeBE(d.vkIndex, 4) + EncodeFrs(fc, d.vkPath))
    ensures |ToBuffer(pic, vkc, fc, d).value|
         == |pic.encode(d.publicInputs)| + |vkc.encode(d.verificationKey)| + 4 + FR_SIZE_IN_BYTES * VK_TREE_HEIGHT
  {
    EncodeFrsLength(fc, d.vkPath);
  }

  /** A record whose index fits in 32 bits comes back from its encoding, whatever bytes follow. */
  lemma FromBufferToBuffer<PI(!new), VK(!new)>(pic: Codec<PI>, vkc: Codec<VK>, fc: FieldCodec,
                                               d: PrivateKernelData<PI, VK>, rest: Bytes)
    requires CodecSound(pic) && CodecSound(vkc) && FieldCodecSound(fc)
    requires d.vkIndex < UINT32_LIMIT
    ensures ToBuffer(pic, vkc, fc, d).Ok?
    ensures FromBuffer(pic, vkc, fc, ToBuffer(pic, vkc, fc, d).value + rest) == Ok(d)
  {
    ToBufferLayout(pic, vkc, fc, d);
    var a := pic.encode(d.publicInputs);
    var b := vkc.encode(d.verificationKey);
    var n := EncodeBE(d.vkIndex, 4);
    var p := EncodeFrs(fc, d.vkPath);
    EncodeFrsLength(fc, d.vkPath);
    LayoutSlices(a, b, n, p, rest);
    ReadLaidOutFields(pic, vkc, fc, d, a + b + n + p + rest, |a|, |a| + |b|, |a| + |b| + 4, |a| + |b| + 4 + |p|);
  }

  /** Reading a buffer that holds the four encoded fields back to back gives the record. */
  lemma ReadLaidOutFields<PI(!new), VK(!new)>(pic: Codec<PI>, vkc: Codec<VK>, fc: FieldCodec,
                                              d: PrivateKernelData<PI, VK>, buf: Bytes,
                                              p1: nat, p2: nat, p3: nat, end: nat)
    requires CodecSound(pic) && CodecSound(vkc) && FieldCodecSound(fc) && d.vkIndex < UINT32_LIMIT
    requires p1 == |pic.encode(d.publicInputs)| <= |buf| && buf[0..p1] == pic.encode(d.publicInputs)
    requires p2 == p1 + |vkc.encode(d.verificationKey)| <= |buf| && buf[p1..p2] == vkc.encode(d.verificationKey)
    requires p3 == p2 + 4 <= |buf| && buf[p2..p3] == EncodeBE(d.vkIndex, 4)
    requires end == p3 + FR_SIZE_IN_BYTES * |d.vkPath| <= |buf| && buf[p3..end] == EncodeFrs(fc, d.vkPath)
    ensures FromReader(pic, vkc, fc, buf, 0) == Ok((d, end))
  {
    ReadObjectEncoded(pic, d.publicInputs, buf, 0);
    ReadObjectEncoded(vkc, d.verificationKey, buf, p1);
    ReadUInt32Encoded(d.vkIndex, buf, p2);
    ReadFrsEncoded(fc, d.vkPath, buf, p3);
    FromReaderOfFields(pic, vkc, fc, buf, 0, d, p1, p2, p3, end);
  }

  /** `FromReader` succeeds when each of its four reads does. */
  lemma FromReaderOfFields<PI, VK>(pic: Codec<PI>, vkc: Codec<VK>, fc: FieldCodec, buf: Bytes, pos: nat,
                                   d: PrivateKernelData<PI, VK>, p1: nat, p2: nat, p3: nat, end: nat)
    requires ReadObject(pic, buf, pos) == Ok((d.publicInputs, p1))
    requires ReadObject(vkc, buf, p1) == Ok((d.verificationKey, p2))
    requires ReadUInt32(buf, p2) == Ok((d.vkIndex, p3))
    requires ReadFrs(fc, VK_TREE_HEIGHT, buf, p3) == Ok((d.vkPath, end))
    ensures FromReader(pic, vkc, fc, buf, pos) == Ok((d, end))
  {
  }

  /** Where each of four concatenated parts sits in the concatenation. */
  lemma LayoutSlices(a: Bytes, b: Bytes, n: Bytes, p: Bytes, rest: Bytes)
    ensures var buf := a + b + n + p + rest;
      && buf[..|a|] == buf[0..|a|] == a
      && buf[|a|..|a| + |b|] == b
      && buf[|a| + |b|..|a| + |b| + |n|] == n
      && buf[|a| + |b| + |n|..|a| + |b| + |n| + |p|] == p
  {
    var buf := a + b + n + p + rest;
    assert buf == a + (b + (n + (p + rest)));
  }

  /** The empty sentinel round-trips, and every call gives the same record. */
  lemma EmptyRoundTrips<PI(!new), VK(!new)>(pic: Codec<PI>, vkc: Codec<VK>, fc: FieldCodec,
                                            emptyPublicInputs: PI, emptyVerificationKey: VK)
    requires CodecSound(pic) && CodecSound(vkc) && FieldCodecSound(fc)
    ensures var e := Empty(emptyPublicInputs, emptyVerificationKey);
      ToBuffer(pic, vkc, fc, e).Ok? && FromBuffer(pic, vkc, fc, ToBuffer(pic, vkc, fc, e).value) == Ok(e)
  {
    var e := Empty(emptyPublicInputs, emptyVerificationKey);
    FromBufferToBuffer(pic, vkc, fc, e, []);
    assert ToBuffer(pic, vkc, fc, e).value + [] == ToBuffer(pic, vkc, fc, e).value;
  }
}
