/**
 * The pricing record: its value (four unsigned 64-bit fields and a 64-byte
 * signature), the key/value map form exchanged with external callers, and
 * the C++ object whose constructors, assignment, `_load` and `store`
 * update or read its fields in place.
 */
module PricingRecords {
  import opened Types
  import opened HexCodec

  /** The contents of a pricing record at one moment. */
  datatype Record = Record(
    prVersion: uint64,
    spot: uint64,
    movingAverage: uint64,
    timestamp: uint64,
    signature: Signature)
  {
    /**
     * `equal`: the four numbers coincide and `memcmp` finds the signatures
     * identical, which is exactly equality of the two record values.
     */
    predicate Equal(other: Record)
      ensures Equal(other) <==> this == other
    {
      && prVersion == other.prVersion
      && spot == other.spot
      && movingAverage == other.movingAverage
      && timestamp == other.timestamp
      && forall i :: 0 <= i < SIGNATURE_SIZE ==> signature[i] == other.signature[i]
    }

    /**
     * `empty`: equal to a default-constructed record, that is, all four
     * numbers and all 64 signature bytes are zero.
     */
    predicate Empty()
      ensures Empty() <==>
        && prVersion == 0 && spot == 0 && movingAverage == 0 && timestamp == 0
        && forall i :: 0 <= i < SIGNATURE_SIZE ==> signature[i] == 0
    {
      Equal(Default())
    }

    /**
     * `has_missing_rates`: a zero rate is the sentinel for "absent". An empty
     * record has missing rates, so `valid` must test emptiness first.
     */
    predicate HasMissingRates()
      ensures Empty() ==> HasMissingRates()
    {
      spot == 0 || movingAverage == 0
    }
  }

  /** The value the default constructor produces. */
  function Default(): (r: Record)
    ensures r.prVersion == 0 && r.spot == 0 && r.movingAverage == 0 && r.timestamp == 0
    ensures forall i :: 0 <= i < SIGNATURE_SIZE ==> r.signature[i] == 0
  {
    Record(0, 0, 0, 0, ZeroSignature())
  }

  /**
   * The key/value map `pr_serialized`, with the signature as text. Each
   * `char` of the text stands for one byte of the `std::string`.
   */
  datatype KvRecord = KvRecord(
    prVersion: uint64,
    spot: uint64,
    movingAverage: uint64,
    timestamp: uint64,
    signature: string)

  /**
   * The map `store` writes for a record: the four numbers, and a signature
   * text of 128 lowercase hex digits.
   */
  function ToKv(r: Record): (kv: KvRecord)
    ensures |kv.signature| == 2 * SIGNATURE_SIZE
    ensures forall k :: 0 <= k < |kv.signature| ==> IsLowerHexDigit(kv.signature[k])
  {
    StoreIsLowercaseHex(r.signature);
    KvRecord(r.prVersion, r.spot, r.movingAverage, r.timestamp, HexOf(r.signature))
  }

  /**
   * The record `_load` leaves after a successful map read, starting from
   * `prev`: the numbers come from the map, signature bytes that a pair of
   * hex digits covers take its value, and bytes past `ceil(len / 2)` keep
   * their old value.
   */
  function FromKv(prev: Record, kv: KvRecord): (r: Record)
    requires |kv.signature| <= 2 * SIGNATURE_SIZE
    ensures r.prVersion == kv.prVersion && r.spot == kv.spot
    ensures r.movingAverage == kv.movingAverage && r.timestamp == kv.timestamp
    ensures forall j ::
      (0 <= j < SIGNATURE_SIZE && 2 * j + 1 < |kv.signature| &&
       IsHexDigit(kv.signature[2 * j]) && IsHexDigit(kv.signature[2 * j + 1])) ==>
        r.signature[j] == 16 * DigitValue(kv.signature[2 * j]) + DigitValue(kv.signature[2 * j + 1])
    ensures forall j :: (|kv.signature| + 1) / 2 <= j < SIGNATURE_SIZE ==> r.signature[j] == prev.signature[j]
  {
    Record(kv.prVersion, kv.spot, kv.movingAverage, kv.timestamp, DecodeInto(prev.signature, kv.signature))
  }

  /** `equal` is reflexive, symmetric and transitive. */
  lemma EqualIsEquivalence(a: Record, b: Record, c: Record)
    ensures a.Equal(a)
    ensures a.Equal(b) ==> b.Equal(a)
    ensures a.Equal(b) && b.Equal(c) ==> a.Equal(c)
  {
  }

  /** The default record is empty, and it is the only empty record. */
  lemma EmptyIsDefault(r: Record)
    ensures Default().Empty()
    ensures r.Empty() <==> r == Default()
  {
  }

  /** `has_missing_rates` looks at the two rates only. */
  lemma MissingRatesIgnoresOtherFields(a: Record, b: Record)
    requires a.spot == b.spot && a.movingAverage == b.movingAverage
    ensures a.HasMissingRates() <==> b.HasMissingRates()
  {
  }

  /**
   * Storing a record to the map and loading it back gives an equal record,
   * whatever the loading record held before.
   */
  lemma KvRoundTrip(prev: Record, r: Record)
    ensures |ToKv(r).signature| == 2 * SIGNATURE_SIZE
    ensures FromKv(prev, ToKv(r)) == r
    ensures FromKv(prev, ToKv(r)).Equal(r)
  {
    DecodeHexOf(prev.signature, r.signature);
  }

  /** The C++ `pricing_record` object, whose signature is an inline 64-byte buffer. */
  class PricingRecord {
    var prVersion: uint64
    var spot: uint64
    var movingAverage: uint64
    var timestamp: uint64
    const signature: array<byte>

    ghost predicate Wf()
      reads this
    {
      signature.Length == SIGNATURE_SIZE
    }

    /** The record value the object currently holds. */
    ghost function Value(): Record
      reads this, signature
      requires Wf()
    {
      Record(prVersion, spot, movingAverage, timestamp, signature[..])
    }

    /** Default constructor: zero numbers, `memset` of the signature to zero. */
    constructor ()
      ensures Wf() && fresh(signature)
      ensures Value() == Default()
      ensures Value().Empty()
    {
      prVersion, spot, movingAverage, timestamp := 0, 0, 0, 0;
      signature := new byte[SIGNATURE_SIZE];
      new;
      forall i | 0 <= i < SIGNATURE_SIZE {
        signature[i] := 0;
      }
      assert signature[..] == ZeroSignature();
    }

    /** Copy constructor: field-wise copy and `memcpy` of the signature. */
    constructor Copy(orig: PricingRecord)
      requires orig.Wf()
      ensures Wf() && fresh(signature)
      ensures Value() == orig.Value()
      ensures Value().Equal(orig.Value())
    {
      prVersion := orig.prVersion;
      spot := orig.spot;
      movingAverage := orig.movingAverage;
      timestamp := orig.timestamp;
      signature := new byte[SIGNATURE_SIZE];
      new;
      forall i | 0 <= i < SIGNATURE_SIZE {
        signature[i] := orig.signature[i];
      }
      assert signature[..] == orig.signature[..];
    }

    /** `operator=`: overwrite every field of this object with those of `orig`. */
    method Assign(orig: PricingRecord)
      requires Wf() && orig.Wf()
      modifies this, signature
      ensures Wf()
      ensures Value() == old(orig.Value())
      ensures Value().Equal(old(orig.Value()))
      ensures orig.Value() == old(orig.Value())
    {
      ghost var source := orig.Value();
      prVersion := orig.prVersion;
      spot := orig.spot;
      movingAverage := orig.movingAverage;
      timestamp := orig.timestamp;
      forall i | 0 <= i < SIGNATURE_SIZE {
        signature[i] := orig.signature[i];
      }
      assert signature[..] == source.signature;
    }

    /** The 128-character `sig_hex` string, built by appending byte by byte. */
    method SignatureHex() returns (sigHex: string)
      requires Wf()
      ensures sigHex == HexOf(signature[..])
    {
      sigHex := "";
      var i := 0;
      while i < SIGNATURE_SIZE
        invariant 0 <= i <= SIGNATURE_SIZE
        invariant sigHex == HexOf(signature[..i])
      {
        assert signature[..i + 1][..i] == signature[..i];
        sigHex := sigHex + ByteHex(signature[i]);
        i := i + 1;
      }
      assert signature[..i] == signature[..];
    }

    /** `store`: the key/value map with the signature as lowercase hex text. */
    method Store() returns (out: KvRecord)
      requires Wf()
      ensures out == ToKv(Value())
      ensures |out.signature| == 2 * SIGNATURE_SIZE
    {
      var sigHex := SignatureHex();
      out := KvRecord(prVersion, spot, movingAverage, timestamp, sigHex);
    }

    /**
     * `_load`: when the map read succeeds, copy the four numbers and write
     * byte `i / 2` from each window of two characters at even `i`; when it
     * fails, report false and change nothing. The text must not be longer
     * than 128 characters, or the loop would write past the buffer.
     */
    method Load(src: Option<KvRecord>) returns (ok: bool)
      requires Wf()
      requires src.Some? ==> |src.value.signature| <= 2 * SIGNATURE_SIZE
      modifies this, signature
      ensures Wf()
      ensures ok <==> src.Some?
      ensures !ok ==> unchanged(this) && unchanged(signature)
      ensures ok ==> Value() == FromKv(old(Value()), src.value)
      ensures ok ==> forall j :: (|src.value.signature| + 1) / 2 <= j < SIGNATURE_SIZE ==>
        signature[j] == old(signature[j])
    {
      if src.None? {
        return false;
      }
      var input := src.value;
      ghost var prev := Value();
      prVersion := input.prVersion;
      spot := input.spot;
      movingAverage := input.movingAverage;
      timestamp := input.timestamp;
      var hex := input.signature;
      var i := 0;
      while i < |hex|
        invariant 0 <= i <= |hex| + 1 && i % 2 == 0
        invariant prVersion == input.prVersion && spot == input.spot
        invariant movingAverage == input.movingAverage && timestamp == input.timestamp
        invariant forall j :: 0 <= j < SIGNATURE_SIZE ==>
          signature[j] == if 2 * j < i then ParsedByte(Window(hex, 2 * j)) else prev.signature[j]
      {
        signature[i / 2] := ParsedByte(Window(hex, i));
        i := i + 2;
      }
      assert signature[..] == DecodeInto(prev.signature, hex);
      assert prev == old(Value());
      ok := true;
    }
  }
}
