/**
 * Unpadded base32 (section 6 of RFC 4648, the `BASE32_NOPAD` encoding):
 * the input bytes form a bit stream, most significant bit first; the stream
 * is cut into 5-bit digits, the last digit filled with zero bits, and every
 * digit becomes one letter of the alphabet A-Z, 2-7. No '=' padding is
 * added. A decoder is defined beside it so that the encoding can be shown
 * to be injective.
 */
module Base32 {
  import opened Types

  /** The alphabet of section 6 of RFC 4648. */
  const ALPHABET: string := "ABCDEFGHIJKLMNOPQRSTUVWXYZ234567"

  function Pow2(n: nat): (r: nat)
    ensures r >= 1
  {
    if n == 0 then 1 else 2 * Pow2(n - 1)
  }

  /** The `w` low bits of `n`, most significant first. */
  function ToBits(n: nat, w: nat): (bs: seq<bool>)
    ensures |bs| == w
  {
    if w == 0 then [] else ToBits(n / 2, w - 1) + [n % 2 == 1]
  }

  /** The number whose binary digits, most significant first, are `bs`. */
  function FromBits(bs: seq<bool>): (n: nat)
    ensures n < Pow2(|bs|)
  {
    if bs == [] then 0
    else 2 * FromBits(bs[..|bs| - 1]) + (if bs[|bs| - 1] then 1 else 0)
  }

  lemma {:induction false} FromToBits(n: nat, w: nat)
    requires n < Pow2(w)
    ensures FromBits(ToBits(n, w)) == n
  {
    if w > 0 {
      var bs := ToBits(n, w);
      assert bs[..w - 1] == ToBits(n / 2, w - 1);
      assert bs[w - 1] == (n % 2 == 1);
      assert n / 2 < Pow2(w - 1);
      FromToBits(n / 2, w - 1);
    }
  }

  /** Halving `2f + b` recovers `f` and leaves the bit `b`. */
  lemma HalveBinary(f: nat, b: nat)
    requires b < 2
    ensures (2 * f + b) / 2 == f && (2 * f + b) % 2 == b
  {
    var n := 2 * f + b;
    assert n == 2 * (n / 2) + n % 2;
    assert 2 * (f - n / 2) == n % 2 - b;
  }

  lemma {:induction false} ToFromBits(bs: seq<bool>)
    ensures ToBits(FromBits(bs), |bs|) == bs
  {
    if bs != [] {
      var init, last := bs[..|bs| - 1], bs[|bs| - 1];
      ToFromBits(init);
      var b := if last then 1 else 0;
      HalveBinary(FromBits(init), b);
      assert bs == init + [last];
    }
  }

  function Zeros(n: nat): (z: seq<bool>)
    ensures |z| == n
  {
    seq(n, _ => false)
  }

  /** The bit stream of `bytes`, eight bits per byte, most significant first. */
  function BytesToBits(bytes: seq<byte>): (bits: seq<bool>)
    ensures |bits| == 8 * |bytes|
  {
    if bytes == [] then [] else ToBits(bytes[0], 8) + BytesToBits(bytes[1..])
  }

  function BitsToBytes(bits: seq<bool>): (bytes: seq<byte>)
    requires |bits| % 8 == 0
    ensures 8 * |bytes| == |bits|
  {
    if bits == [] then []
    else
      assert Pow2(8) == 256;
      [FromBits(bits[..8]) as byte] + BitsToBytes(bits[8..])
  }

  lemma {:induction false} BytesBitsRoundTrip(bytes: seq<byte>)
    ensures BitsToBytes(BytesToBits(bytes)) == bytes
  {
    if bytes != [] {
      var bits := BytesToBits(bytes);
      assert bits[..8] == ToBits(bytes[0], 8);
      assert bits[8..] == BytesToBits(bytes[1..]);
      assert Pow2(8) == 256;
      FromToBits(bytes[0], 8);
      BytesBitsRoundTrip(bytes[1..]);
    }
  }

  /** How many zero bits fill the last digit of a stream of `n` bits. */
  function PadLength(n: nat): nat
  {
    (5 - n % 5) % 5
  }

  /** The stream cut into 5-bit digits, the last one completed with zero bits. */
  function Digits(bits: seq<bool>): (ds: seq<nat>)
    ensures |ds| == (|bits| + 4) / 5
    ensures forall i :: 0 <= i < |ds| ==> ds[i] < 32
    decreases |bits|
  {
    assert Pow2(5) == 32;
    if bits == [] then []
    else if |bits| < 5 then [FromBits(bits + Zeros(5 - |bits|))]
    else [FromBits(bits[..5])] + Digits(bits[5..])
  }

  /** The bit stream spelled by a sequence of 5-bit digits. */
  function DigitBits(ds: seq<nat>): (bits: seq<bool>)
    ensures |bits| == 5 * |ds|
  {
    if ds == [] then [] else ToBits(ds[0], 5) + DigitBits(ds[1..])
  }

  /** Spelling out a leading digit and then the rest. */
  lemma DigitBitsCons(d: nat, ds: seq<nat>)
    ensures DigitBits([d] + ds) == ToBits(d, 5) + DigitBits(ds)
  {
    assert ([d] + ds)[1..] == ds;
  }

  lemma PadOfShortTail(n: nat)
    requires 0 < n < 5
    ensures PadLength(n) == 5 - n
  {
  }

  lemma PadSkipsDigit(n: nat)
    requires n >= 5
    ensures PadLength(n - 5) == PadLength(n)
  {
  }

  /** A final group of fewer than five bits makes one digit, filled with zero bits. */
  lemma ShortDigits(bits: seq<bool>)
    requires 0 < |bits| < 5
    ensures Digits(bits) == [FromBits(bits + Zeros(5 - |bits|))]
  {
  }

  /** One digit spells out as its five bits. */
  lemma SingleDigitBits(d: nat)
    ensures DigitBits([d]) == ToBits(d, 5)
  {
    DigitBitsCons(d, []);
    assert [d] + [] == [d];
  }

  /** A final group of fewer than five bits spells out as the five bits of its one digit. */
  lemma ShortDigitSpelled(bits: seq<bool>)
    requires 0 < |bits| < 5
    ensures DigitBits(Digits(bits)) == ToBits(FromBits(bits + Zeros(5 - |bits|)), 5)
  {
    ShortDigits(bits);
    SingleDigitBits(FromBits(bits + Zeros(5 - |bits|)));
  }

  /** The five bits of that digit are the group followed by its fill. */
  lemma ShortDigitValue(bits: seq<bool>)
    requires 0 < |bits| < 5
    ensures ToBits(FromBits(bits + Zeros(5 - |bits|)), 5) == bits + Zeros(5 - |bits|)
  {
    ToFromBits(bits + Zeros(5 - |bits|));
  }

  /** The fill of a final group is what `PadLength` counts. */
  lemma ShortDigitFill(bits: seq<bool>)
    requires 0 < |bits| < 5
    ensures bits + Zeros(5 - |bits|) == bits + Zeros(PadLength(|bits|))
  {
    PadOfShortTail(|bits|);
  }

  /** A final group of fewer than five bits is spelled out with its fill. */
  lemma ShortDigitRoundTrip(bits: seq<bool>)
    requires 0 < |bits| < 5
    ensures DigitBits(Digits(bits)) == bits + Zeros(PadLength(|bits|))
  {
    ShortDigitSpelled(bits);
    ShortDigitValue(bits);
    ShortDigitFill(bits);
  }

  /** Cutting a stream into digits and spelling them out again gives back the stream and its fill bits. */
  lemma {:induction false} DigitsRoundTrip(bits: seq<bool>)
    ensures DigitBits(Digits(bits)) == bits + Zeros(PadLength(|bits|))
    decreases |bits|
  {
    if bits == [] {
    } else if |bits| < 5 {
      ShortDigitRoundTrip(bits);
    } else {
      var head, tail := bits[..5], bits[5..];
      var fill := Zeros(PadLength(|bits|));
      PadSkipsDigit(|bits|);
      DigitsRoundTrip(tail);
      ToFromBits(head);
      DigitBitsCons(FromBits(head), Digits(tail));
      assert DigitBits(Digits(bits)) == head + (tail + fill);
      assert bits == head + tail;
    }
  }

  /** The letter for digit `d`: 'A'..'Z' for 0..25, '2'..'7' for 26..31. */
  function Symbol(d: nat): (c: char)
    requires d < 32
    ensures 'A' <= c <= 'Z' || '2' <= c <= '7'
  {
    if d < 26 then ('A' as int + d) as char else ('2' as int + d - 26) as char
  }

  /** The digit a letter of the alphabet stands for; None for any other character. */
  function DigitOf(c: char): (d: Option<nat>)
    ensures d.Some? ==> d.value < 32 && Symbol(d.value) == c
  {
    if 'A' <= c <= 'Z' then Some(c as int - 'A' as int)
    else if '2' <= c <= '7' then Some(c as int - '2' as int + 26)
    else None
  }

  lemma SymbolMatchesAlphabet()
    ensures |ALPHABET| == 32
    ensures forall d :: 0 <= d < 32 ==> Symbol(d) == ALPHABET[d]
  {
  }

  function Symbols(ds: seq<nat>): (s: string)
    requires forall i :: 0 <= i < |ds| ==> ds[i] < 32
    ensures |s| == |ds|
    ensures forall i :: 0 <= i < |s| ==> 'A' <= s[i] <= 'Z' || '2' <= s[i] <= '7'
  {
    if ds == [] then [] else [Symbol(ds[0])] + Symbols(ds[1..])
  }

  /** `BASE32_NOPAD.encode`: ceil(8n/5) letters of the alphabet for n bytes. */
  function Encode(bytes: seq<byte>): (s: string)
    ensures |s| == (8 * |bytes| + 4) / 5
    ensures forall i :: 0 <= i < |s| ==> 'A' <= s[i] <= 'Z' || '2' <= s[i] <= '7'
  {
    Symbols(Digits(BytesToBits(bytes)))
  }

  function DigitsOf(s: string): (r: Option<seq<nat>>)
    ensures r.Some? ==> |r.value| == |s|
  {
    if s == [] then Some([])
    else match (DigitOf(s[0]), DigitsOf(s[1..]))
      case (Some(d), Some(ds)) => Some([d] + ds)
      case _ => None
  }

  /**
   * Decoding: letters back to digits, digits back to bits; a length that
   * leaves five or more fill bits cannot come from the encoder and is
   * refused; the fill bits are dropped and the rest regrouped into bytes.
   */
  function Decode(s: string): (r: Option<seq<byte>>)
  {
    match DigitsOf(s)
    case None => None
    case Some(ds) =>
      var bits := DigitBits(ds);
      var fill := |bits| % 8;
      if fill >= 5 then None
      else
        WholeBytes(|bits|);
        Some(BitsToBytes(bits[..|bits| - fill]))
  }

  lemma WholeBytes(n: nat)
    ensures (n - n % 8) % 8 == 0
  {
  }

  lemma {:induction false} DigitsOfSymbols(ds: seq<nat>)
    requires forall i :: 0 <= i < |ds| ==> ds[i] < 32
    ensures DigitsOf(Symbols(ds)) == Some(ds)
  {
    if ds != [] {
      var s := Symbols(ds);
      assert s[0] == Symbol(ds[0]);
      assert s[1..] == Symbols(ds[1..]);
      DigitsOfSymbols(ds[1..]);
      assert ds == [ds[0]] + ds[1..];
    }
  }

  /** A stream of whole bytes leaves fewer than five fill bits, and they are all the stream has beyond whole bytes. */
  lemma FillOfWholeBytes(n: nat, m: nat)
    requires m == 8 * n + PadLength(8 * n)
    ensures PadLength(8 * n) < 5
    ensures m % 8 == PadLength(8 * n)
  {
    var p := PadLength(8 * n);
    var q, r := m / 8, m % 8;
    assert m == 8 * q + r;
    assert 8 * (n - q) == r - p;
  }

  /** Decoding undoes encoding. */
  lemma EncodeDecodeRoundTrip(bytes: seq<byte>)
    ensures Decode(Encode(bytes)) == Some(bytes)
  {
    var bits := BytesToBits(bytes);
    var ds := Digits(bits);
    DigitsOfSymbols(ds);
    assert DigitsOf(Encode(bytes)) == Some(ds);
    var spelled := DigitBits(ds);
    var p := PadLength(|bits|);
    DigitsRoundTrip(bits);
    FillOfWholeBytes(|bytes|, |spelled|);
    assert spelled[..|spelled| - p] == bits;
    BytesBitsRoundTrip(bytes);
  }

  /** Distinct byte strings have distinct encodings. */
  lemma EncodeInjective(a: seq<byte>, b: seq<byte>)
    requires Encode(a) == Encode(b)
    ensures a == b
  {
    EncodeDecodeRoundTrip(a);
    EncodeDecodeRoundTrip(b);
  }
}
