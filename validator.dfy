/**
 * The block-level acceptance rule `valid` and the signature check it calls.
 * The cryptography (PEM key parsing, SHA-256 digest verification) and the
 * per-network configuration are parameters.
 */
module Validator {
  import opened Types
  import opened PricingRecords
  import CanonicalMessage

  /**
   * Outcome of reading the PEM key text: no memory buffer could be made for
   * it (`BIO_new_mem_buf` returned NULL), no key was read from it
   * (`PEM_read_bio_PUBKEY` returned NULL), or a key was read.
   */
  datatype KeyReading = NoBuffer | NoKey | Key

  /**
   * The foreign signature primitives: reading a PEM key text, and whether a
   * 64-byte signature verifies over a message under that key (a digest
   * context that cannot be created counts as a failed verification).
   */
  datatype Crypto = Crypto(
    readKey: string -> KeyReading,
    digestVerify: (string, Signature, string) -> bool)

  /** The network's consensus parameters and oracle key. */
  datatype Config = Config(
    hfSlippageYield: nat,
    validTimeDiffFromBlock: uint64,
    oraclePublicKey: string)

  /** Why `verifySignature` throws instead of returning. */
  datatype KeyFault = EmptyPublicKey | UnreadablePublicKey

  /** A C++ call that returns a bool or throws. */
  datatype Verdict = Returns(accepted: bool) | Throws(fault: KeyFault)

  /** The key text is one `verifySignature` reads a key from. */
  predicate KeyUsable(publicKey: string, crypto: Crypto) {
    publicKey != [] && crypto.readKey(publicKey) == Key
  }

  /** The key text makes `verifySignature` throw. */
  predicate KeyFaulty(publicKey: string, crypto: Crypto) {
    publicKey == [] || crypto.readKey(publicKey) == NoKey
  }

  /** The signature verifies over the canonical message under the network key. */
  predicate Signed(r: Record, cfg: Config, crypto: Crypto) {
    crypto.digestVerify(CanonicalMessage.Message(r), r.signature, cfg.oraclePublicKey)
  }

  /**
   * `verifySignature`: throw on an empty key, return false when no buffer
   * can be made for the key text, throw when no key can be read from it,
   * else check the signature over the message.
   */
  function VerifySignature(r: Record, publicKey: string, crypto: Crypto): (v: Verdict)
    ensures v.Throws? <==> KeyFaulty(publicKey, crypto)
    ensures publicKey != [] && crypto.readKey(publicKey) == NoBuffer ==> v == Returns(false)
    ensures KeyUsable(publicKey, crypto) ==>
      v == Returns(crypto.digestVerify(CanonicalMessage.Message(r), r.signature, publicKey))
  {
    if publicKey == [] then Throws(EmptyPublicKey)
    else match crypto.readKey(publicKey)
      case NoBuffer => Returns(false)
      case NoKey => Throws(UnreadablePublicKey)
      case Key => Returns(crypto.digestVerify(CanonicalMessage.Message(r), r.signature, publicKey))
  }

  /** Latest record timestamp a block accepts; the addition wraps at 2^64. */
  function FutureBound(blTimestamp: uint64, cfg: Config): (b: uint64)
    ensures blTimestamp + cfg.validTimeDiffFromBlock < UINT64_MODULUS ==>
      b == blTimestamp + cfg.validTimeDiffFromBlock
    ensures blTimestamp + cfg.validTimeDiffFromBlock >= UINT64_MODULUS ==>
      b == blTimestamp + cfg.validTimeDiffFromBlock - UINT64_MODULUS
  {
    AddU64(blTimestamp, cfg.validTimeDiffFromBlock)
  }

  /**
   * `valid`: the ordered, short-circuiting acceptance checks for a block's
   * pricing record. It accepts exactly an empty record, or a record that
   * passes the fork gate, has both rates, a readable key, a verifying
   * signature and a timestamp inside the window. It throws exactly when a
   * non-empty record with both rates reaches the signature check at or
   * after the fork with an empty or unreadable key.
   */
  function Valid(r: Record, cfg: Config, crypto: Crypto,
                 hfVersion: uint32, blTimestamp: uint64, lastBlTimestamp: uint64): (v: Verdict)
    ensures v == Returns(true) <==>
      || r.Empty()
      || (&& cfg.hfSlippageYield <= hfVersion
          && !r.HasMissingRates()
          && KeyUsable(cfg.oraclePublicKey, crypto)
          && Signed(r, cfg, crypto)
          && lastBlTimestamp < r.timestamp
          && r.timestamp <= FutureBound(blTimestamp, cfg))
    ensures v.Throws? <==>
      && cfg.hfSlippageYield <= hfVersion
      && !r.Empty() && !r.HasMissingRates()
      && KeyFaulty(cfg.oraclePublicKey, crypto)
  {
    if hfVersion < cfg.hfSlippageYield && !r.Empty() then Returns(false)
    else if r.Empty() then Returns(true)
    else if r.HasMissingRates() then Returns(false)
    else match VerifySignature(r, cfg.oraclePublicKey, crypto)
      case Throws(fault) => Throws(fault)
      case Returns(signed) =>
        if !signed then Returns(false)
        else if r.timestamp > FutureBound(blTimestamp, cfg) then Returns(false)
        else if r.timestamp <= lastBlTimestamp then Returns(false)
        else Returns(true)
  }

  /** Before the slippage-yield fork a non-empty record is rejected, whatever its signature. */
  lemma PreForkRejectsNonEmpty(r: Record, cfg: Config, crypto: Crypto,
                               hfVersion: uint32, blTimestamp: uint64, lastBlTimestamp: uint64)
    requires hfVersion < cfg.hfSlippageYield && !r.Empty()
    ensures Valid(r, cfg, crypto, hfVersion, blTimestamp, lastBlTimestamp) == Returns(false)
  {
  }

  /** An empty record is accepted at every fork and for every pair of block timestamps. */
  lemma EmptyAccepted(r: Record, cfg: Config, crypto: Crypto,
                      hfVersion: uint32, blTimestamp: uint64, lastBlTimestamp: uint64)
    requires r.Empty()
    ensures Valid(r, cfg, crypto, hfVersion, blTimestamp, lastBlTimestamp) == Returns(true)
  {
  }

  /**
   * A non-empty record with a zero rate is rejected without consulting the
   * key or the signature: the verdict is the same for every key and every
   * crypto primitive, including an empty key that would make
   * `verifySignature` throw.
   */
  lemma MissingRatesRejectedBeforeSignature(r: Record, cfg: Config, crypto: Crypto,
                                            hfVersion: uint32, blTimestamp: uint64, lastBlTimestamp: uint64)
    requires !r.Empty() && r.HasMissingRates()
    ensures Valid(r, cfg, crypto, hfVersion, blTimestamp, lastBlTimestamp) == Returns(false)
    ensures Valid(r, cfg.(oraclePublicKey := []), crypto, hfVersion, blTimestamp, lastBlTimestamp) == Returns(false)
  {
  }

  /**
   * For a non-empty record with both rates, at or after the fork, with a
   * usable key: accepted exactly when the signature verifies, the
   * timestamp is after the previous block's and at most the block's
   * timestamp plus the allowed difference (added with 64-bit wrap-around).
   */
  lemma SignedRecordVerdict(r: Record, cfg: Config, crypto: Crypto,
                            hfVersion: uint32, blTimestamp: uint64, lastBlTimestamp: uint64)
    requires cfg.hfSlippageYield <= hfVersion
    requires !r.Empty() && !r.HasMissingRates()
    requires KeyUsable(cfg.oraclePublicKey, crypto)
    ensures Valid(r, cfg, crypto, hfVersion, blTimestamp, lastBlTimestamp) ==
      Returns(Signed(r, cfg, crypto) && lastBlTimestamp < r.timestamp && r.timestamp <= FutureBound(blTimestamp, cfg))
  {
  }

  /**
   * The timestamp window is closed above and open below: with everything
   * else acceptable and no wrap-around, `bl + diff` is accepted and one
   * more is not; the previous block's timestamp is rejected and one more
   * is accepted.
   */
  lemma TimestampBoundaries(r: Record, cfg: Config, crypto: Crypto,
                            hfVersion: uint32, blTimestamp: uint64, lastBlTimestamp: uint64)
    requires cfg.hfSlippageYield <= hfVersion
    requires !r.Empty() && !r.HasMissingRates()
    requires KeyUsable(cfg.oraclePublicKey, crypto) && Signed(r, cfg, crypto)
    requires blTimestamp + cfg.validTimeDiffFromBlock < UINT64_MODULUS
    ensures r.timestamp == blTimestamp + cfg.validTimeDiffFromBlock && lastBlTimestamp < r.timestamp ==>
      Valid(r, cfg, crypto, hfVersion, blTimestamp, lastBlTimestamp) == Returns(true)
    ensures r.timestamp == blTimestamp + cfg.validTimeDiffFromBlock + 1 ==>
      Valid(r, cfg, crypto, hfVersion, blTimestamp, lastBlTimestamp) == Returns(false)
    ensures r.timestamp == lastBlTimestamp ==>
      Valid(r, cfg, crypto, hfVersion, blTimestamp, lastBlTimestamp) == Returns(false)
    ensures r.timestamp == lastBlTimestamp + 1 && r.timestamp <= blTimestamp + cfg.validTimeDiffFromBlock ==>
      Valid(r, cfg, crypto, hfVersion, blTimestamp, lastBlTimestamp) == Returns(true)
  {
  }

  /**
   * When the sum overflows, the future bound wraps to a small number and
   * the check rejects timestamps that the unbounded sum would allow.
   */
  lemma FutureBoundWraps(blTimestamp: uint64, cfg: Config)
    requires blTimestamp + cfg.validTimeDiffFromBlock >= UINT64_MODULUS
    ensures FutureBound(blTimestamp, cfg) < cfg.validTimeDiffFromBlock
    ensures FutureBound(blTimestamp, cfg) < blTimestamp
  {
  }
}
