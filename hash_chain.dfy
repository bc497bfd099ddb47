/**
 * The block hash of the ledger: `calculate_hash` renders a block's four
 * content fields as text, concatenates them in a fixed order and digests
 * the result.
 *
 * The digest itself (SHA-256 over the UTF-8 bytes, hex-encoded) is not
 * modelled: every ledger operation is parameterised by an arbitrary
 * deterministic function `digest: string -> string`, so whatever is proved
 * here holds for SHA-256 and for any other hash. The only fact about the
 * digest used anywhere is that it is a function (equal inputs, equal digests).
 */
module HashChain {

  /** The decimal text `str(time.time())` of one wall-clock reading. The hash
      only ever sees this rendering, and the caller supplies it. */
  type Timestamp = string

  function DigitChar(d: nat): char
    requires d < 10
  {
    "0123456789"[d]
  }

  function DigitValue(c: char): nat
  {
    if '0' <= c <= '9' then (c as int - '0' as int) as nat else 0
  }

  /** `str(n)` for a non-negative integer: canonical decimal, no leading zero. */
  function DecimalText(n: nat): (s: string)
    ensures 1 <= |s|
    ensures |s| == 1 <==> n < 10
    ensures forall i :: 0 <= i < |s| ==> '0' <= s[i] <= '9'
    ensures |s| > 1 ==> s[0] != '0'
  {
    if n < 10 then [DigitChar(n)] else DecimalText(n / 10) + [DigitChar(n % 10)]
  }

  /** A digit character reads back as its value. */
  lemma DigitRoundTrip(d: nat)
    requires d < 10
    ensures DigitValue(DigitChar(d)) == d
  {
  }

  /** Reads a string of decimal digits back as a number; the inverse of DecimalText. */
  function DecimalValue(s: string): nat
  {
    if s == [] then 0 else DecimalValue(s[..|s| - 1]) * 10 + DigitValue(s[|s| - 1])
  }

  /** The rendering is faithful: the index can be read back from its text. */
  lemma {:induction false} DecimalRoundTrip(n: nat)
    ensures DecimalValue(DecimalText(n)) == n
  {
    if n >= 10 {
      var s := DecimalText(n / 10);
      var t := s + [DigitChar(n % 10)];
      assert t[..|t| - 1] == s;
      DigitRoundTrip(n % 10);
      DecimalRoundTrip(n / 10);
      assert DecimalValue(t) == DecimalValue(s) * 10 + n % 10;
    }
  }

  /** Distinct indices have distinct renderings. */
  lemma DecimalTextInjective(m: nat, n: nat)
    requires DecimalText(m) == DecimalText(n)
    ensures m == n
  {
    DecimalRoundTrip(m);
    DecimalRoundTrip(n);
  }

  /** The text `calculate_hash` digests: `str(index) + previous_hash + str(timestamp) + data`. */
  function HashInput(index: nat, previousHash: string, timestamp: Timestamp, data: string): string
  {
    DecimalText(index) + previousHash + timestamp + data
  }

  /** `calculate_hash(index, previous_hash, timestamp, data)` under the digest `digest`. */
  function CalculateHash(digest: string -> string, index: nat, previousHash: string,
                         timestamp: Timestamp, data: string): string
  {
    digest(HashInput(index, previousHash, timestamp, data))
  }

  /** Two distinct texts that the digest maps to the same value. */
  predicate Collision(digest: string -> string, x: string, y: string)
  {
    x != y && digest(x) == digest(y)
  }

  /** Changing only the index changes the hashed text. */
  lemma {:induction false} HashInputSeparatesIndex(i: nat, j: nat, p: string, t: Timestamp, d: string)
    requires i != j
    ensures HashInput(i, p, t, d) != HashInput(j, p, t, d)
  {
    var a, b := DecimalText(i), DecimalText(j);
    var rest := p + t + d;
    assert HashInput(i, p, t, d) == a + rest && (a + rest)[..|a|] == a;
    assert HashInput(j, p, t, d) == b + rest && (b + rest)[..|b|] == b;
    DecimalRoundTrip(i);
    DecimalRoundTrip(j);
  }

  /** Changing only the previous hash changes the hashed text. */
  lemma HashInputSeparatesPrevious(i: nat, p: string, q: string, t: Timestamp, d: string)
    requires p != q
    ensures HashInput(i, p, t, d) != HashInput(i, q, t, d)
  {
    var a, rest := DecimalText(i), t + d;
    assert HashInput(i, p, t, d) == a + p + rest && (a + p + rest)[|a|..|a| + |p|] == p;
    assert HashInput(i, q, t, d) == a + q + rest && (a + q + rest)[|a|..|a| + |q|] == q;
  }

  /** Changing only the timestamp changes the hashed text. */
  lemma HashInputSeparatesTimestamp(i: nat, p: string, t: Timestamp, u: Timestamp, d: string)
    requires t != u
    ensures HashInput(i, p, t, d) != HashInput(i, p, u, d)
  {
    var a := DecimalText(i) + p;
    assert (a + t + d)[|a|..|a| + |t|] == t;
    assert (a + u + d)[|a|..|a| + |u|] == u;
  }

  /** Changing only the payload changes the hashed text. */
  lemma HashInputSeparatesData(i: nat, p: string, t: Timestamp, d: string, e: string)
    requires d != e
    ensures HashInput(i, p, t, d) != HashInput(i, p, t, e)
  {
    var a := DecimalText(i) + p + t;
    assert (a + d)[|a|..] == d && (a + e)[|a|..] == e;
  }
}
