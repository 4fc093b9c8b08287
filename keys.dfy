/**
 * Key material and the cryptographic primitives the ledger consumes.
 * Key generation is outside the model: a wallet is a given key pair, and
 * SHA-256 and Ed25519 are the uninterpreted function values of a `Crypto`.
 */
module Keys {
  import opened Encode

  const PKEY_SIZE: nat := 32
  const SIGN_SIZE: nat := 64
  const SKEY_SIZE: nat := 64

  type PKey = s: seq<byte> | |s| == PKEY_SIZE witness Zeros(32)
  type SKey = s: seq<byte> | |s| == SKEY_SIZE witness Zeros(64)
  type Signature = s: seq<byte> | |s| == SIGN_SIZE witness Zeros(64)

  const ZERO_PKEY: PKey := Zeros(PKEY_SIZE)
  const ZERO_SIGNATURE: Signature := Zeros(SIGN_SIZE)

  /** A wallet: a public key and the matching secret key. */
  datatype Wallet = Wallet(pk: PKey, sk: SKey)

  /**
   * The primitives: SHA-256, Ed25519 verification of a signature over a
   * message under a public key, and Ed25519 signing with a secret key.
   */
  datatype Crypto = Crypto(
    sha256: Hasher,
    verify: (seq<byte>, PKey, Signature) -> bool,
    sign: (seq<byte>, SKey) -> Signature)

  /** The signature scheme's one assumed law, for one wallet: what it signs verifies. */
  ghost predicate KeyPair(c: Crypto, w: Wallet)
  {
    forall m :: c.verify(m, w.pk, c.sign(m, w.sk))
  }
}
