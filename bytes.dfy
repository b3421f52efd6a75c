/** Byte-level vocabulary: the byte type, ASCII text, decimal numerals and byte search. */
module Bytes {

  /** A Java `byte`, read as its unsigned value (the value `String.format("%02x", b)` prints). */
  type byte = b: int | 0 <= b < 256

  const NUL: byte := 0
  const LF: byte := 10
  const SP: byte := 32

  /**
    * The low byte of each character; on the ASCII literals it is applied to,
    * this is `String.getBytes()`.
    */
  function Ascii(s: string): (r: seq<byte>)
    ensures |r| == |s|
  {
    seq(|s|, i requires 0 <= i < |s| => s[i] as int % 256)
  }

  predicate IsDigit(b: byte) {
    '0' as int <= b <= '9' as int
  }

  /** `Integer.toString(n)` for a non-negative `n`, as ASCII bytes. */
  function Decimal(n: nat): (r: seq<byte>)
    ensures |r| >= 1
    ensures forall i :: 0 <= i < |r| ==> IsDigit(r[i])
    ensures n > 0 ==> r[0] != '0' as int
  {
    if n < 10 then [48 + n] else Decimal(n / 10) + [48 + n % 10]
  }

  /** The number a string of ASCII decimal digits denotes. */
  function DecimalValue(ds: seq<byte>): nat
    requires forall i :: 0 <= i < |ds| ==> IsDigit(ds[i])
  {
    if ds == [] then 0
    else
      assert IsDigit(ds[|ds| - 1]);
      10 * DecimalValue(ds[..|ds| - 1]) + (ds[|ds| - 1] - '0' as int)
  }

  /** The decimal numeral in an object header reads back as the length it was made from. */
  lemma {:induction false} DecimalRoundTrip(n: nat)
    ensures DecimalValue(Decimal(n)) == n
  {
    if n >= 10 {
      var ds := Decimal(n);
      assert ds[..|ds| - 1] == Decimal(n / 10);
      DecimalRoundTrip(n / 10);
    }
  }

  /** Two lengths with the same numeral are the same length. */
  lemma DecimalInjective(m: nat, n: nat)
    requires Decimal(m) == Decimal(n)
    ensures m == n
  {
    DecimalRoundTrip(m);
    DecimalRoundTrip(n);
  }

  /**
    * The scan `while (i < d.length && d[i] != b) i++;` started at `from`:
    * the first index at or after `from` holding `b`, or `|d|` when there is none.
    */
  function NextIndex(d: seq<byte>, from: nat, b: byte): (r: nat)
    requires from <= |d|
    ensures from <= r <= |d|
    ensures r < |d| ==> d[r] == b
    ensures forall j :: from <= j < r ==> d[j] != b
    decreases |d| - from
  {
    if from == |d| then from
    else if d[from] == b then from
    else NextIndex(d, from + 1, b)
  }

  /** A position holding `b` with no `b` before it (from `from` on) is what the scan finds. */
  lemma NextIndexAt(d: seq<byte>, from: nat, k: nat, b: byte)
    requires from <= k < |d| && d[k] == b
    requires forall j :: from <= j < k ==> d[j] != b
    ensures NextIndex(d, from, b) == k
  {
  }
}
