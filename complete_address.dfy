/**
 * `CompleteAddress`: an Aztec address together with the public keys and the partial address
 * it is derived from. Every way of obtaining one either derives the address itself or passes
 * through `Create`, which checks `address == computeAddress(publicKeys, partialAddress)`.
 *
 * The cryptographic functions are external, deterministic collaborators; they are the
 * function values of a `Crypto` parameter. Asynchronous calls are sequential steps here.
 */
module CompleteAddresses {
  import opened Wrappers
  import opened Types
  import opened Serialize
  import Hex

  /** `CompleteAddress.SIZE_IN_BYTES`: ten field elements. */
  const SIZE_IN_BYTES: nat := 32 * 10

  /** The external key-derivation and address functions. */
  datatype Crypto = Crypto(
    deriveKeys: Fr -> PublicKeys,               // `(await deriveKeys(secretKey)).publicKeys`
    computeAddress: (PublicKeys, Fr) -> AztecAddress,
    computePartialAddress: ContractInstance -> Fr,
    hashPublicKeys: PublicKeys -> Fr,           // `publicKeys.hash()`
    computePreaddress: (Fr, Fr) -> Fr)

  datatype CompleteAddress = CompleteAddress(
    address: AztecAddress,
    publicKeys: PublicKeys,
    partialAddress: Fr)

  datatype Error =
    | InvalidDerivation(received: AztecAddress, derived: AztecAddress)
    | Decode(cause: DecodeError)

  /** The record's invariant: its address is derived from its keys and partial address. */
  predicate Valid(crypto: Crypto, c: CompleteAddress) {
    c.address == crypto.computeAddress(c.publicKeys, c.partialAddress)
  }

  // ---------------------------------------------------------------- construction

  /** `validate()`: throws, naming both addresses, when the address is not the derived one. */
  function Validate(crypto: Crypto, c: CompleteAddress): (r: Outcome<Error>)
    ensures r.Pass? <==> Valid(crypto, c)
    ensures r.Fail? ==> r.error == InvalidDerivation(c.address, crypto.computeAddress(c.publicKeys, c.partialAddress))
  {
    var expectedAddress := crypto.computeAddress(c.publicKeys, c.partialAddress);
    if expectedAddress != c.address then Fail(InvalidDerivation(c.address, expectedAddress)) else Pass
  }

  /** `CompleteAddress.create`: the validating factory. */
  function Create(crypto: Crypto, address: AztecAddress, publicKeys: PublicKeys, partialAddress: Fr)
    : (r: Result<CompleteAddress, Error>)
    ensures r.Ok? <==> address == crypto.computeAddress(publicKeys, partialAddress)
    ensures r.Ok? ==> r.value == CompleteAddress(address, publicKeys, partialAddress) && Valid(crypto, r.value)
    ensures r.Err? ==> r.error == InvalidDerivation(address, crypto.computeAddress(publicKeys, partialAddress))
  {
    var completeAddress := CompleteAddress(address, publicKeys, partialAddress);
    match Validate(crypto, completeAddress)
    case Fail(e) => Err(e)
    case Pass => Ok(completeAddress)
  }

  /** `fromSecretKeyAndPartialAddress`: derives the keys and the address, so the gate always passes. */
  function FromSecretKeyAndPartialAddress(crypto: Crypto, secretKey: Fr, partialAddress: Fr): (r: CompleteAddress)
    ensures Valid(crypto, r)
    ensures r.publicKeys == crypto.deriveKeys(secretKey) && r.partialAddress == partialAddress
    ensures Create(crypto, r.address, r.publicKeys, r.partialAddress) == Ok(r)
  {
    var publicKeys := crypto.deriveKeys(secretKey);
    var address := crypto.computeAddress(publicKeys, partialAddress);
    CompleteAddress(address, publicKeys, partialAddress)
  }

  /** `fromSecretKeyAndInstance`: the instance's partial address, then as above. */
  function FromSecretKeyAndInstance(crypto: Crypto, secretKey: Fr, instance: ContractInstance): (r: CompleteAddress)
    ensures r == FromSecretKeyAndPartialAddress(crypto, secretKey, crypto.computePartialAddress(instance))
    ensures Valid(crypto, r) && r.partialAddress == crypto.computePartialAddress(instance)
  {
    var partialAddress := crypto.computePartialAddress(instance);
    FromSecretKeyAndPartialAddress(crypto, secretKey, partialAddress)
  }

  /** `getPreaddress()`: a projection through two external functions. */
  function GetPreaddress(crypto: Crypto, c: CompleteAddress): Fr
  {
    crypto.computePreaddress(crypto.hashPublicKeys(c.publicKeys), c.partialAddress)
  }

  /** The preaddress is fixed by the keys and the partial address; the stored address plays no part. */
  lemma PreaddressIgnoresAddress(crypto: Crypto, c: CompleteAddress, d: CompleteAddress)
    requires c.publicKeys == d.publicKeys && c.partialAddress == d.partialAddress
    ensures GetPreaddress(crypto, c) == GetPreaddress(crypto, d)
  {
  }

  /** `equals`: field-wise equality of address, public keys and partial address. */
  function Equals(a: CompleteAddress, b: CompleteAddress): (r: bool)
    ensures r <==> a == b
  {
    a.address == b.address && a.publicKeys == b.publicKeys && a.partialAddress == b.partialAddress
  }

  /** Replacing the address of a valid record by any other value fails the gate. */
  lemma TamperedAddressRejected(crypto: Crypto, c: CompleteAddress, forged: AztecAddress)
    requires Valid(crypto, c) && forged != c.address
    ensures Create(crypto, forged, c.publicKeys, c.partialAddress) == Err(InvalidDerivation(forged, c.address))
  {
  }

  // ---------------------------------------------------------------- encoding

  /** The eight coordinates of the four keys, in the order of the canonical layout. */
  function PublicKeysFields(pk: PublicKeys): (fs: seq<Fr>)
    ensures |fs| == 8
  {
    [ pk.masterNullifierPublicKey.x, pk.masterNullifierPublicKey.y,
      pk.masterIncomingViewingPublicKey.x, pk.masterIncomingViewingPublicKey.y,
      pk.masterOutgoingViewingPublicKey.x, pk.masterOutgoingViewingPublicKey.y,
      pk.masterTaggingPublicKey.x, pk.masterTaggingPublicKey.y ]
  }

  function PublicKeysFromFields(fs: seq<Fr>): (pk: PublicKeys)
    requires |fs| == 8
    ensures PublicKeysFields(pk) == fs
  {
    PublicKeys(Point(fs[0], fs[1]), Point(fs[2], fs[3]), Point(fs[4], fs[5]), Point(fs[6], fs[7]))
  }

  function EncodePublicKeys(fc: FieldCodec, pk: PublicKeys): Bytes
  {
    EncodeFrs(fc, PublicKeysFields(pk))
  }

  function ReadPublicKeys(fc: FieldCodec, buf: Bytes, pos: nat): (r: Result<(PublicKeys, nat), DecodeError>)
  {
    var fields :- ReadFrs(fc, 8, buf, pos);
    Ok((PublicKeysFromFields(fields.0), fields.1))
  }

  /** `toBuffer()`: address, then public keys, then partial address. */
  function ToBuffer(fc: FieldCodec, c: CompleteAddress): (b: Bytes)
    ensures b == EncodeFrs(fc, [c.address] + PublicKeysFields(c.publicKeys) + [c.partialAddress])
  {
    var keys := PublicKeysFields(c.publicKeys);
    EncodeFrsAppend(fc, [c.address], keys);
    EncodeFrsAppend(fc, [c.address] + keys, [c.partialAddress]);
    assert [c.address][1..] == [] && [c.partialAddress][1..] == [];
    fc.encode(c.address) + EncodePublicKeys(fc, c.publicKeys) + fc.encode(c.partialAddress)
  }

  /** The three fields read in order from a cursor, then passed through `Create`. */
  function FromReader(crypto: Crypto, fc: FieldCodec, buf: Bytes, pos: nat)
    : (r: Result<(CompleteAddress, nat), Error>)
    ensures r.Ok? ==> Valid(crypto, r.value.0) && r.value.1 == pos + SIZE_IN_BYTES <= |buf|
    ensures |buf| < pos + SIZE_IN_BYTES ==> r.Err? && r.error.Decode?
  {
    match ReadFr(fc, buf, pos)
    case Err(e) => Err(Decode(e))
    case Ok((address, afterAddress)) =>
      match ReadPublicKeys(fc, buf, afterAddress)
      case Err(e) => Err(Decode(e))
      case Ok((publicKeys, afterKeys)) =>
        match ReadFr(fc, buf, afterKeys)
        case Err(e) => Err(Decode(e))
        case Ok((partialAddress, end)) =>
          match Create(crypto, address, publicKeys, partialAddress)
          case Err(e) => Err(e)
          case Ok(c) => Ok((c, end))
  }

  /** `CompleteAddress.fromBuffer`: trailing bytes after the record are not looked at. */
  function FromBuffer(crypto: Crypto, fc: FieldCodec, buf: Bytes): (r: Result<CompleteAddress, Error>)
    ensures r.Ok? ==> Valid(crypto, r.value)
    ensures |buf| < SIZE_IN_BYTES ==> r.Err? && r.error.Decode?
  {
    var (c, _) :- FromReader(crypto, fc, buf, 0);
    Ok(c)
  }

  /** `toString()`: "0x" and the lower-case hex of `toBuffer()`. */
  function ToString(fc: FieldCodec, c: CompleteAddress): (s: string)
    ensures |s| == 2 + 2 * |ToBuffer(fc, c)| && s[..2] == "0x"
    ensures forall i :: 2 <= i < |s| ==> s[i] in "0123456789abcdef"
  {
    Hex.HexEncodeDigits(ToBuffer(fc, c));
    Hex.BufferToHex(ToBuffer(fc, c))
  }

  /** `toJSON()`: the same string as `toString()`. */
  function ToJson(fc: FieldCodec, c: CompleteAddress): (s: string)
    ensures |s| == 2 + 2 * |ToBuffer(fc, c)| && s[..2] == "0x"
    ensures s == ToString(fc, c)
  {
    ToString(fc, c)
  }

  /** `CompleteAddress.fromString`: optional "0x", lenient hex, then `fromBuffer`. */
  function FromString(crypto: Crypto, fc: FieldCodec, s: string): (r: Result<CompleteAddress, Error>)
    ensures r.Ok? ==> Valid(crypto, r.value)
    ensures |s| < 2 * SIZE_IN_BYTES ==> r.Err? && r.error.Decode?
  {
    FromBuffer(crypto, fc, Hex.HexDecode(Hex.StripHexPrefix(s)))
  }

  // ---------------------------------------------------------------- properties of the encoding

  /** The buffer is the ten field elements of the canonical layout, 320 bytes in all. */
  lemma ToBufferLayout(fc: FieldCodec, c: CompleteAddress)
    requires FieldCodecSound(fc)
    ensures |ToBuffer(fc, c)| == SIZE_IN_BYTES
  {
    EncodeFrsLength(fc, [c.address] + PublicKeysFields(c.publicKeys) + [c.partialAddress]);
  }

  /** A valid record decodes back to itself from its encoding, whatever bytes follow it. */
  lemma FromBufferToBuffer(crypto: Crypto, fc: FieldCodec, c: CompleteAddress, rest: Bytes)
    requires FieldCodecSound(fc) && Valid(crypto, c)
    ensures FromBuffer(crypto, fc, ToBuffer(fc, c) + rest) == Ok(c)
  {
    var buf := ToBuffer(fc, c) + rest;
    var keys := EncodePublicKeys(fc, c.publicKeys);
    EncodeFrsLength(fc, PublicKeysFields(c.publicKeys));
    assert buf[0..32] == fc.encode(c.address);
    assert ReadFr(fc, buf, 0) == Ok((c.address, 32));
    assert buf[32..32 + FR_SIZE_IN_BYTES * 8] == keys;
    ReadFrsEncoded(fc, PublicKeysFields(c.publicKeys), buf, 32);
    assert ReadPublicKeys(fc, buf, 32) == Ok((c.publicKeys, 288));
    assert buf[288..320] == fc.encode(c.partialAddress);
    assert ReadFr(fc, buf, 288) == Ok((c.partialAddress, 320));
  }

  /** Whatever `fromBuffer` accepts is a valid record whose encoding is the first 320 bytes. */
  lemma FromBufferCanonical(crypto: Crypto, fc: FieldCodec, buf: Bytes)
    requires FieldCodecSound(fc) && FromBuffer(crypto, fc, buf).Ok?
    ensures Valid(crypto, FromBuffer(crypto, fc, buf).value)
    ensures |buf| >= SIZE_IN_BYTES && ToBuffer(fc, FromBuffer(crypto, fc, buf).value) == buf[..SIZE_IN_BYTES]
  {
    var c := FromBuffer(crypto, fc, buf).value;
    assert ReadFr(fc, buf, 0) == Ok((c.address, 32));
    var fields := ReadFrs(fc, 8, buf, 32).value;
    assert ReadPublicKeys(fc, buf, 32) == Ok((c.publicKeys, 288));
    assert fields.0 == PublicKeysFields(c.publicKeys);
    ReadFrsCanonical(fc, 8, buf, 32);
    assert ReadFr(fc, buf, 288) == Ok((c.partialAddress, 320));
    assert fc.decode(buf[0..32]) == Some(c.address);
    assert fc.decode(buf[288..320]) == Some(c.partialAddress);
    assert buf[..SIZE_IN_BYTES] == buf[0..32] + buf[32..288] + buf[288..320];
  }

  /** The hex string is 642 characters: "0x" and two digits for each of the 320 bytes. */
  lemma ToStringLength(fc: FieldCodec, c: CompleteAddress)
    requires FieldCodecSound(fc)
    ensures |ToString(fc, c)| == 2 + 2 * SIZE_IN_BYTES && ToString(fc, c)[..2] == "0x"
    ensures ToJson(fc, c) == ToString(fc, c)
  {
    ToBufferLayout(fc, c);
  }

  /** A valid record comes back from its hex string, with or without the "0x" prefix. */
  lemma FromStringToString(crypto: Crypto, fc: FieldCodec, c: CompleteAddress)
    requires FieldCodecSound(fc) && Valid(crypto, c)
    ensures FromString(crypto, fc, ToString(fc, c)) == Ok(c)
    ensures FromString(crypto, fc, Hex.HexEncode(ToBuffer(fc, c))) == Ok(c)
  {
    var buf := ToBuffer(fc, c);
    Hex.HexPrefixIsOptional(buf);
    Hex.HexDecodeEncode(buf);
    FromBufferToBuffer(crypto, fc, c, []);
    assert buf + [] == buf;
  }

  /** The prefix `fromString` strips may also be written upper-case. */
  lemma FromStringUpperCasePrefix(crypto: Crypto, fc: FieldCodec, c: CompleteAddress)
    requires FieldCodecSound(fc) && Valid(crypto, c)
    ensures FromString(crypto, fc, "0X" + Hex.HexEncode(ToBuffer(fc, c))) == Ok(c)
  {
    var buf := ToBuffer(fc, c);
    assert Hex.StripHexPrefix("0X" + Hex.HexEncode(buf)) == Hex.HexEncode(buf);
    Hex.HexDecodeEncode(buf);
    FromBufferToBuffer(crypto, fc, c, []);
    assert buf + [] == buf;
  }
}
