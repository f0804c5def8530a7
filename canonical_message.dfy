/**
 * The text the oracle signs: `{"pr_version":V,"spot":S,"moving_average":M,"timestamp":T}`
 * with each number in decimal as `ostream << uint64_t` prints it.
 */
module CanonicalMessage {
  import opened Types
  import opened PricingRecords

  predicate IsDigit(c: char) {
    '0' <= c <= '9'
  }

  predicate AllDigits(s: string) {
    forall i :: 0 <= i < |s| ==> IsDigit(s[i])
  }

  /** The number a string of decimal digits denotes, most significant digit first. */
  function DigitsValue(s: string): (v: nat)
    requires AllDigits(s)
  {
    if s == [] then 0
    else 10 * DigitsValue(s[..|s| - 1]) + (s[|s| - 1] as int - '0' as int)
  }

  /**
   * Decimal rendering without leading zeros; zero prints as "0". This is
   * what `ostream << uint64_t` prints in the classic "C" locale, which has
   * no digit grouping.
   */
  function Decimal(n: nat): (r: string)
    ensures |r| >= 1 && AllDigits(r)
    ensures DigitsValue(r) == n
    ensures r[0] == '0' <==> n == 0
    decreases n
  {
    if n < 10 then [('0' as int + n) as char]
    else
      var d := Decimal(n / 10);
      var r := d + [('0' as int + n % 10) as char];
      assert r[..|r| - 1] == d;
      r
  }

  /** Different numbers print differently. */
  lemma DecimalInjective(a: nat, b: nat)
    ensures Decimal(a) == Decimal(b) <==> a == b
  {
  }

  /** Printable ASCII only: no white space and no control character. */
  predicate Compact(s: string) {
    forall i :: 0 <= i < |s| ==> '!' <= s[i] <= '~'
  }

  /** A `"name":<decimal>` field followed by compact text is compact. */
  lemma CompactField(name: string, n: nat, rest: string)
    requires Compact(name) && Compact(rest)
    ensures Compact(name + (Decimal(n) + rest))
  {
  }

  /**
   * The message, built field by field as the `ostringstream` does: a
   * compact text in braces with no white space or control character.
   */
  function Message(r: Record): (m: string)
    ensures |m| > 0 && m[0] == '{' && m[|m| - 1] == '}'
    ensures Compact(m)
  {
    var t := ",\"timestamp\":" + (Decimal(r.timestamp) + "}");
    var ma := ",\"moving_average\":" + (Decimal(r.movingAverage) + t);
    var sp := ",\"spot\":" + (Decimal(r.spot) + ma);
    CompactField(",\"timestamp\":", r.timestamp, "}");
    CompactField(",\"moving_average\":", r.movingAverage, t);
    CompactField(",\"spot\":", r.spot, ma);
    CompactField("{\"pr_version\":", r.prVersion, sp);
    "{\"pr_version\":" + (Decimal(r.prVersion) + sp)
  }

  /**
   * A run of digits followed by a non-digit splits uniquely: the digits end
   * where the first non-digit starts.
   */
  lemma SplitDigits(d1: string, r1: string, d2: string, r2: string)
    requires AllDigits(d1) && AllDigits(d2)
    requires |r1| > 0 && !IsDigit(r1[0]) && |r2| > 0 && !IsDigit(r2[0])
    requires d1 + r1 == d2 + r2
    ensures d1 == d2 && r1 == r2
  {
    var s := d1 + r1;
    // The first non-digit of `s` sits right after each digit run.
    assert !IsDigit(s[|d1|]) && !IsDigit(s[|d2|]);
    assert |d1| == |d2|;
    assert d1 == s[..|d1|] == d2;
    assert r1 == s[|d1|..] == r2;
  }

  /** Peel one `"name":<decimal>` field off the front of two equal texts. */
  lemma PeelField(name: string, x: nat, rx: string, y: nat, ry: string)
    requires |rx| > 0 && !IsDigit(rx[0]) && |ry| > 0 && !IsDigit(ry[0])
    requires name + (Decimal(x) + rx) == name + (Decimal(y) + ry)
    ensures x == y && rx == ry
  {
    var s := name + (Decimal(x) + rx);
    assert Decimal(x) + rx == s[|name|..] == Decimal(y) + ry;
    SplitDigits(Decimal(x), rx, Decimal(y), ry);
    DecimalInjective(x, y);
  }

  /**
   * The message determines the four numbers and nothing else: two records
   * have the same message exactly when their version, rates and timestamp
   * agree, so a signature over it covers those fields and changing any one
   * of them changes the signed text.
   */
  lemma MessageDeterminesFields(a: Record, b: Record)
    ensures Message(a) == Message(b) <==>
      a.prVersion == b.prVersion && a.spot == b.spot &&
      a.movingAverage == b.movingAverage && a.timestamp == b.timestamp
  {
    if Message(a) == Message(b) {
      var ra3 := ",\"timestamp\":" + (Decimal(a.timestamp) + "}");
      var rb3 := ",\"timestamp\":" + (Decimal(b.timestamp) + "}");
      var ra2 := ",\"moving_average\":" + (Decimal(a.movingAverage) + ra3);
      var rb2 := ",\"moving_average\":" + (Decimal(b.movingAverage) + rb3);
      var ra1 := ",\"spot\":" + (Decimal(a.spot) + ra2);
      var rb1 := ",\"spot\":" + (Decimal(b.spot) + rb2);
      PeelField("{\"pr_version\":", a.prVersion, ra1, b.prVersion, rb1);
      PeelField(",\"spot\":", a.spot, ra2, b.spot, rb2);
      PeelField(",\"moving_average\":", a.movingAverage, ra3, b.movingAverage, rb3);
      PeelField(",\"timestamp\":", a.timestamp, "}", b.timestamp, "}");
    }
  }

  /** The message does not depend on the signature bytes. */
  lemma MessageIgnoresSignature(r: Record, sig: Signature)
    ensures Message(r.(signature := sig)) == Message(r)
  {
  }
}
