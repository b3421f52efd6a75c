/**
  * The hexadecimal codec: a digest rendered as lower-case hex digits two per
  * byte (`String.format("%02x", b)` appended to a `StringBuilder`), and the
  * inverse `(byte) Integer.parseInt(hash.substring(2i, 2i + 2), 16)` that
  * write-tree uses to turn an entry's hash back into 20 raw bytes.
  */
module HexCodec {
  import opened Bytes
  import opened Wrappers

  predicate IsLowerHexDigit(c: char) {
    '0' <= c <= '9' || 'a' <= c <= 'f'
  }

  /** The lower-case hex digit for a value below 16. */
  function HexDigit(v: nat): (c: char)
    requires v < 16
    ensures IsLowerHexDigit(c)
  {
    if v < 10 then (48 + v) as char else (87 + v) as char
  }

  /** `String.format("%02x", b)`: the high digit, then the low digit. */
  function HexPair(b: byte): (s: string)
    ensures |s| == 2 && IsLowerHexDigit(s[0]) && IsLowerHexDigit(s[1])
  {
    [HexDigit(b / 16), HexDigit(b % 16)]
  }

  /** The hash string the commands build from a digest. */
  function Hex(bs: seq<byte>): (s: string)
    ensures |s| == 2 * |bs|
    ensures forall i :: 0 <= i < |s| ==> IsLowerHexDigit(s[i])
  {
    if bs == [] then "" else Hex(bs[..|bs| - 1]) + HexPair(bs[|bs| - 1])
  }

  /** The `StringBuilder` loop over the digest bytes. */
  method HexEncode(bs: seq<byte>) returns (hex: string)
    ensures hex == Hex(bs)
  {
    hex := "";
    for i := 0 to |bs|
      invariant hex == Hex(bs[..i])
    {
      assert bs[..i + 1][..i] == bs[..i];
      hex := hex + HexPair(bs[i]);
    }
    assert bs[..|bs|] == bs;
  }

  /** `Character.digit(c, 16)` on ASCII characters: a hex digit of either case. */
  function DigitValue(c: char): (r: Option<nat>)
    ensures r.Some? ==> r.value < 16
    ensures r.Some? <==> IsLowerHexDigit(c) || 'A' <= c <= 'F'
  {
    if '0' <= c <= '9' then Some(c as int - '0' as int)
    else if 'a' <= c <= 'f' then Some(c as int - 'a' as int + 10)
    else if 'A' <= c <= 'F' then Some(c as int - 'A' as int + 10)
    else None
  }

  /**
    * `(byte) Integer.parseInt(s, 16)` for a two-character `s`: either a sign
    * and one digit or two digits; the cast keeps the low eight bits. None
    * where Java throws `NumberFormatException`.
    */
  function ParsePair(s: string): Option<byte>
    requires |s| == 2
  {
    if s[0] == '-' || s[0] == '+' then
      match DigitValue(s[1])
      case None => None
      case Some(d) => Some(if s[0] == '-' then (256 - d) % 256 else d)
    else
      match (DigitValue(s[0]), DigitValue(s[1]))
      case (Some(hi), Some(lo)) => Some(16 * hi + lo)
      case _ => None
  }

  /** Every two-character group of `h`, parsed in turn; None as soon as one is rejected. */
  function DecodePairs(h: string): (r: Option<seq<byte>>)
    requires |h| % 2 == 0
    ensures r.Some? ==> |r.value| == |h| / 2
  {
    if h == [] then Some([])
    else
      match (DecodePairs(h[..|h| - 2]), ParsePair(h[|h| - 2..]))
      case (Some(bs), Some(b)) => Some(bs + [b])
      case _ => None
  }

  /**
    * The 20 bytes write-tree decodes from an entry's hash. The loop reads
    * the first 40 characters only; a shorter hash makes `substring` throw.
    */
  function HashBytes(hash: string): (r: Option<seq<byte>>)
    ensures r.Some? ==> |r.value| == 20
    ensures |hash| < 40 ==> r.None?
  {
    if |hash| < 40 then None else DecodePairs(hash[..40])
  }

  /** A rejected group makes every longer decoding fail. */
  lemma {:induction false} PairFailure(h: string, i: nat, n: nat)
    requires i < n && 2 * n <= |h|
    requires ParsePair(h[2 * i..2 * i + 2]).None?
    ensures DecodePairs(h[..2 * n]).None?
  {
    var p := h[..2 * n];
    assert p[..|p| - 2] == h[..2 * (n - 1)];
    if i == n - 1 {
      assert p[|p| - 2..] == h[2 * i..2 * i + 2];
    } else {
      PairFailure(h, i, n - 1);
    }
  }

  /** The loop that fills `byte[] hashBytes = new byte[20]`. */
  method DecodeHash(hash: string) returns (ok: bool, hashBytes: array<byte>)
    ensures hashBytes.Length == 20
    ensures ok <==> HashBytes(hash).Some?
    ensures ok ==> hashBytes[..] == HashBytes(hash).value
  {
    hashBytes := new byte[20];
    ok := true;
    for i := 0 to 20
      invariant 2 * i <= |hash|
      invariant DecodePairs(hash[..2 * i]) == Some(hashBytes[..i])
    {
      if 2 * i + 2 > |hash| {
        ok := false;
        return;
      }
      var v := ParsePair(hash[2 * i..2 * i + 2]);
      if v.None? {
        if |hash| >= 40 {
          PairFailure(hash, i, 20);
        }
        ok := false;
        return;
      }
      var p := hash[..2 * i + 2];
      assert p[..|p| - 2] == hash[..2 * i];
      assert p[|p| - 2..] == hash[2 * i..2 * i + 2];
      hashBytes[i] := v.value;
      assert hashBytes[..i + 1] == hashBytes[..i] + [v.value];
    }
    assert hashBytes[..] == hashBytes[..20];
  }

  /** Each byte's two digits parse back to the byte. */
  lemma PairRoundTrip(b: byte)
    ensures ParsePair(HexPair(b)) == Some(b)
  {
  }

  /** Parsing a lower-case pair and printing the byte gives the pair back. */
  lemma PairPrintBack(s: string)
    requires |s| == 2 && IsLowerHexDigit(s[0]) && IsLowerHexDigit(s[1])
    ensures ParsePair(s).Some? && HexPair(ParsePair(s).value) == s
  {
    var hi, lo := DigitValue(s[0]).value, DigitValue(s[1]).value;
    assert (16 * hi + lo) / 16 == hi && (16 * hi + lo) % 16 == lo;
  }

  lemma {:induction false} DecodeEncoded(bs: seq<byte>)
    ensures DecodePairs(Hex(bs)) == Some(bs)
  {
    if bs != [] {
      var h := Hex(bs);
      var init := bs[..|bs| - 1];
      assert h[..|h| - 2] == Hex(init);
      assert h[|h| - 2..] == HexPair(bs[|bs| - 1]);
      DecodeEncoded(init);
      PairRoundTrip(bs[|bs| - 1]);
      assert init + [bs[|bs| - 1]] == bs;
    }
  }

  lemma {:induction false} EncodeDecoded(h: string)
    requires |h| % 2 == 0
    requires forall i :: 0 <= i < |h| ==> IsLowerHexDigit(h[i])
    ensures DecodePairs(h).Some? && Hex(DecodePairs(h).value) == h
  {
    if h != [] {
      var init, last := h[..|h| - 2], h[|h| - 2..];
      EncodeDecoded(init);
      PairPrintBack(last);
      var bs := DecodePairs(init).value;
      var b := ParsePair(last).value;
      assert (bs + [b])[..|bs + [b]| - 1] == bs;
      assert init + last == h;
    }
  }

  /** Hex round trip on digests: the 40 characters of a 20-byte digest decode to that digest. */
  lemma DigestHexRoundTrip(digest: seq<byte>)
    requires |digest| == 20
    ensures |Hex(digest)| == 40
    ensures HashBytes(Hex(digest)) == Some(digest)
  {
    DecodeEncoded(digest);
    assert Hex(digest)[..40] == Hex(digest);
  }

  /** And back: 40 lower-case hex digits decode to 20 bytes whose rendering is those digits. */
  lemma HashHexRoundTrip(hash: string)
    requires |hash| == 40
    requires forall i :: 0 <= i < |hash| ==> IsLowerHexDigit(hash[i])
    ensures HashBytes(hash).Some? && Hex(HashBytes(hash).value) == hash
  {
    assert hash[..40] == hash;
    EncodeDecoded(hash);
  }
}
