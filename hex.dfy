/**
 * The `Data` hex extension of ManifestBuilder.swift: `hex` writes every byte
 * as two lowercase Base16 digits (section 8 of RFC 4648, lower-case alphabet),
 * and `Data(hex:)` reads characters two at a time, keeping each pair that
 * Swift's `UInt8(_:radix: 16)` accepts, dropping a pair it rejects and ignoring
 * a trailing odd character.
 */
module HexCodec {
  import opened Wrappers
  import opened Crypto

  /** The lower-case Base16 alphabet "0123456789abcdef", digit by digit. */
  function HexDigit(n: int): (c: char)
    requires 0 <= n < 16
  {
    if n < 10 then ('0' as int + n) as char else ('a' as int + n - 10) as char
  }

  predicate IsLowerHexDigit(c: char)
  {
    '0' <= c <= '9' || 'a' <= c <= 'f'
  }

  predicate IsLowerHex(s: string)
  {
    forall i :: 0 <= i < |s| ==> IsLowerHexDigit(s[i])
  }

  /** `String(format: "%02x", b)`. */
  function ByteHex(b: byte): string
  {
    [HexDigit(b / 16), HexDigit(b % 16)]
  }

  /** `Data.hex`: the bytes' two-digit forms, joined in order. */
  function Hex(d: Bytes): (s: string)
    ensures |s| == 2 * |d|
    ensures IsLowerHex(s)
  {
    if d == [] then [] else ByteHex(d[0]) + Hex(d[1..])
  }

  /** Byte i of the input is written at positions 2i and 2i+1, high digit first. */
  lemma {:induction false} HexAt(d: Bytes, i: int)
    requires 0 <= i < |d|
    ensures Hex(d)[2 * i] == HexDigit(d[i] / 16)
    ensures Hex(d)[2 * i + 1] == HexDigit(d[i] % 16)
  {
    if i > 0 {
      HexAt(d[1..], i - 1);
    }
  }

  lemma {:induction false} HexAppend(a: Bytes, b: Bytes)
    ensures Hex(a + b) == Hex(a) + Hex(b)
  {
    if a == [] {
      assert a + b == b;
    } else {
      assert (a + b)[1..] == a[1..] + b;
      HexAppend(a[1..], b);
    }
  }

  /** The value of one digit for Swift's integer parser: decimal digits and both letter cases. */
  function DigitValue(c: char): (r: Option<int>)
    ensures r.Some? ==> 0 <= r.value < 16
  {
    if '0' <= c <= '9' then Some(c as int - '0' as int)
    else if 'a' <= c <= 'f' then Some(c as int - 'a' as int + 10)
    else if 'A' <= c <= 'F' then Some(c as int - 'A' as int + 10)
    else None
  }

  /**
   * `UInt8(pair, radix: 16)` for a two-character string. Swift accepts an
   * optional sign: "+d" is the digit d, and "-0" is zero while any other
   * negative value does not fit an unsigned byte.
   */
  function ParsePair(c0: char, c1: char): (r: Option<byte>)
    ensures r.Some? ==> (DigitValue(c0).Some? || c0 == '+' || c0 == '-') && DigitValue(c1).Some?
    ensures c0 == '-' ==> (r.Some? <==> c1 == '0')
    ensures IsLowerHexDigit(c0) && IsLowerHexDigit(c1) ==> r.Some? && ByteHex(r.value) == [c0, c1]
  {
    if c0 == '+' then
      (match DigitValue(c1) case Some(v) => Some(v) case None => None)
    else if c0 == '-' then
      (if DigitValue(c1) == Some(0) then Some(0) else None)
    else
      match (DigitValue(c0), DigitValue(c1))
      case (Some(hi), Some(lo)) => Some(16 * hi + lo)
      case _ => None
  }

  function PairBytes(c0: char, c1: char): Bytes
  {
    match ParsePair(c0, c1)
    case Some(b) => [b]
    case None => []
  }

  /** What `Data(hex:)` computes, stated pair by pair. */
  function DecodeHex(s: string): (d: Bytes)
    ensures 2 * |d| <= |s|
  {
    if |s| < 2 then [] else PairBytes(s[0], s[1]) + DecodeHex(s[2..])
  }

  lemma {:induction false} DecodeHexAppendPair(s: string, c0: char, c1: char)
    requires |s| % 2 == 0
    ensures DecodeHex(s + [c0, c1]) == DecodeHex(s) + PairBytes(c0, c1)
  {
    if |s| == 0 {
      assert DecodeHex([c0, c1]) == PairBytes(c0, c1) + DecodeHex([]);
    } else {
      assert (s + [c0, c1])[2..] == s[2..] + [c0, c1];
      DecodeHexAppendPair(s[2..], c0, c1);
    }
  }

  /** Reading the input pair by pair: pair k extends the bytes decoded from the first k pairs. */
  lemma DecodeHexStep(s: string, k: int)
    requires 0 <= k && 2 * k + 2 <= |s|
    ensures DecodeHex(s[..2 * k + 2]) == DecodeHex(s[..2 * k]) + PairBytes(s[2 * k], s[2 * k + 1])
  {
    assert |s[..2 * k]| % 2 == 0;
    DecodeHexAppendPair(s[..2 * k], s[2 * k], s[2 * k + 1]);
    assert s[..2 * k] + [s[2 * k], s[2 * k + 1]] == s[..2 * k + 2];
  }

  /** A trailing odd character never contributes a byte. */
  lemma {:induction false} DecodeHexIgnoresOddTail(s: string)
    requires |s| % 2 == 1
    ensures DecodeHex(s) == DecodeHex(s[..|s| - 1])
  {
    if |s| > 1 {
      assert s[2..][..|s| - 3] == s[..|s| - 1][2..];
      DecodeHexIgnoresOddTail(s[2..]);
    }
  }

  /** Once every whole pair is read, a leftover odd character adds nothing. */
  lemma {:induction false} DecodeHexWholePairs(s: string, k: int)
    requires 0 <= 2 * k <= |s| <= 2 * k + 1
    ensures DecodeHex(s[..2 * k]) == DecodeHex(s)
    decreases k
  {
    if k > 0 {
      assert s[..2 * k][2..] == s[2..][..2 * (k - 1)];
      DecodeHexWholePairs(s[2..], k - 1);
    }
  }

  /** A pair that does not parse is dropped and the rest is read as if it were absent. */
  lemma DecodeHexDropsBadPair(c0: char, c1: char, rest: string)
    requires ParsePair(c0, c1).None?
    ensures DecodeHex([c0, c1] + rest) == DecodeHex(rest)
  {
    assert ([c0, c1] + rest)[2..] == rest;
  }

  lemma ByteHexParses(b: byte)
    ensures ParsePair(HexDigit(b / 16), HexDigit(b % 16)) == Some(b)
  {
    var hi, lo := b / 16, b % 16;
    assert DigitValue(HexDigit(hi)) == Some(hi);
    assert DigitValue(HexDigit(lo)) == Some(lo);
  }

  /** `Data(hex: d.hex) == d` for every byte sequence d. */
  lemma {:induction false} HexRoundTrip(d: Bytes)
    ensures DecodeHex(Hex(d)) == d
  {
    if d != [] {
      ByteHexParses(d[0]);
      var s := Hex(d);
      assert s == ByteHex(d[0]) + Hex(d[1..]);
      assert s[2..] == Hex(d[1..]);
      HexRoundTrip(d[1..]);
    }
  }

  /** Swift's parser accepts a sign and upper-case digits, so these strings decode too. */
  lemma DecodeHexLenient()
    ensures DecodeHex("+f") == [15]
    ensures DecodeHex("-0") == [0]
    ensures DecodeHex("-1") == []
    ensures DecodeHex("AB") == [0xab]
  {
    assert DecodeHex("+f") == PairBytes('+', 'f') + DecodeHex([]);
    assert DecodeHex("-0") == PairBytes('-', '0') + DecodeHex([]);
    assert DecodeHex("-1") == PairBytes('-', '1') + DecodeHex([]);
    assert DecodeHex("AB") == PairBytes('A', 'B') + DecodeHex([]);
  }

  /** `if let b = UInt8(temp, radix: 16) { data.append(b) }`. */
  method AppendParsed(data: Bytes, c0: char, c1: char) returns (data': Bytes)
    ensures data' == data + PairBytes(c0, c1)
  {
    data' := data;
    var parsed := ParsePair(c0, c1);
    if parsed.Some? {
      data' := data' + [parsed.value];
    }
  }

  /** `Data(hex:)`: the character loop with its two-character `temp` buffer. */
  method DataFromHex(hex: string) returns (data: Bytes)
    ensures data == DecodeHex(hex)
  {
    data := [];
    var temp: string := [];
    ghost var pairs := 0;
    for i := 0 to |hex|
      invariant 0 <= 2 * pairs <= i
      invariant |temp| == i - 2 * pairs <= 1
      invariant temp == hex[2 * pairs..i]
      invariant data == DecodeHex(hex[..2 * pairs])
    {
      temp := temp + [hex[i]];
      if |temp| == 2 {
        assert temp == [hex[2 * pairs], hex[2 * pairs + 1]];
        DecodeHexStep(hex, pairs);
        data := AppendParsed(data, temp[0], temp[1]);
        temp := [];
        pairs := pairs + 1;
      }
    }
    DecodeHexWholePairs(hex, pairs);
  }
}
