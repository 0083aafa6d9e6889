/**
 * Plain values shared by the TypeScript records and the C++ hint database:
 * field elements, curve points, the public-key bundle and contract instances.
 */
module Types {

  /** A byte, as stored in a Node `Buffer` or a C++ `uint8_t`. */
  type byte = x: int | 0 <= x < 256
  type Bytes = seq<byte>

  /** The order of the scalar field of BN254, the field `Fr` and `FF` implement. */
  const FR_MODULUS: nat := 0x30644e72e131a029b85045b68181585d2833e84879b9709143e1f593f0000001

  /** A field element; its 32-byte encoding is an external collaborator (see Serialize). */
  type Fr = x: nat | x < FR_MODULUS

  /** An Aztec address is a single field element. */
  type AztecAddress = Fr

  /** An affine point on the Grumpkin curve, as its two coordinates. */
  datatype Point = Point(x: Fr, y: Fr)

  /** The four master public keys of an account. */
  datatype PublicKeys = PublicKeys(
    masterNullifierPublicKey: Point,
    masterIncomingViewingPublicKey: Point,
    masterOutgoingViewingPublicKey: Point,
    masterTaggingPublicKey: Point)

  /** A deployed contract instance, as the C++ simulator and the TypeScript side both describe it. */
  datatype ContractInstance = ContractInstance(
    salt: Fr,
    deployer: AztecAddress,
    currentContractClassId: Fr,
    originalContractClassId: Fr,
    initializationHash: Fr,
    publicKeys: PublicKeys)
}
