/** Lowercase base16 encoding (section 8 of RFC 4648), as `hex::encode` emits it,
    and the decoder that inverts it. */
module Hex {
  import opened Bytes
  import opened Results

  const Alphabet: string := "0123456789abcdef"

  /** The lowercase hex digit for a nibble. */
  function Digit(n: nat): (c: char)
    requires n < 16
  {
    Alphabet[n]
  }

  /** Reading a digit back gives its nibble. */
  lemma DigitValueOfDigit(n: nat)
    requires n < 16
    ensures DigitValue(Digit(n)) == Some(n)
  {
  }

  /** The nibble a lowercase hex digit stands for; upper-case and other
      characters are not produced by the encoder and are refused. */
  function DigitValue(c: char): (r: Option<nat>)
    ensures r.Some? ==> r.value < 16 && Digit(r.value) == c
  {
    if '0' <= c <= '9' then Some(c as int - '0' as int)
    else if 'a' <= c <= 'f' then Some(c as int - 'a' as int + 10)
    else None
  }

  /** The high and low nibbles of a byte. */
  function High(b: Byte): (n: nat)
    ensures n < 16
  {
    b / 16
  }

  function Low(b: Byte): (n: nat)
    ensures n < 16
  {
    b % 16
  }

  /** A byte is determined by its two nibbles. */
  lemma NibblesRecombine(b: Byte)
    ensures High(b) * 16 + Low(b) == b
  {
  }

  /** Two nibbles make the byte whose nibbles they are. */
  lemma NibblesSplit(hi: nat, lo: nat)
    requires hi < 16 && lo < 16
    ensures 0 <= hi * 16 + lo < 256
    ensures High(hi * 16 + lo) == hi && Low(hi * 16 + lo) == lo
  {
  }

  /** The two characters of one byte, high nibble first. */
  function EncodeByte(b: Byte): (s: string)
  {
    [Digit(High(b)), Digit(Low(b))]
  }

  /** Two characters per byte: byte `i` gives characters `2i` and `2i+1`. */
  function Encode(bs: seq<Byte>): (s: string)
    ensures |s| == 2 * |bs|
    ensures forall i :: 0 <= i < |bs| ==>
      s[2 * i] == Digit(High(bs[i])) && s[2 * i + 1] == Digit(Low(bs[i]))
  {
    if bs == [] then ""
    else
      var rest := Encode(bs[1..]);
      var s := EncodeByte(bs[0]) + rest;
      assert forall i :: 1 <= i < |bs| ==>
        s[2 * i] == Digit(High(bs[i])) && s[2 * i + 1] == Digit(Low(bs[i])) by {
        forall i | 1 <= i < |bs|
          ensures s[2 * i] == Digit(High(bs[i])) && s[2 * i + 1] == Digit(Low(bs[i]))
        {
          var k := i - 1;
          assert bs[1..][k] == bs[i];
          assert s[2 * i] == rest[2 * k];
          assert s[2 * i + 1] == rest[2 * k + 1];
        }
      }
      s
  }

  /** Reads an even-length string of lowercase hex digits back into bytes. */
  function Decode(s: string): (r: Option<seq<Byte>>)
    ensures r.Some? ==> |s| == 2 * |r.value|
  {
    if |s| == 0 then Some([])
    else if |s| == 1 then None
    else
      var hi :- DigitValue(s[0]);
      var lo :- DigitValue(s[1]);
      var rest :- Decode(s[2..]);
      Some([hi * 16 + lo] + rest)
  }

  /** Every character of an encoding is a lowercase hex digit. */
  lemma EncodeIsLowercaseHex(bs: seq<Byte>)
    ensures forall j :: 0 <= j < |Encode(bs)| ==> Encode(bs)[j] in Alphabet
  {
  }

  /** Decoding reads one byte from the first two characters, then the rest. */
  lemma DecodeStep(b: Byte, t: string)
    ensures Decode(EncodeByte(b) + t) ==
      if Decode(t).Some? then Some([b] + Decode(t).value) else None
  {
    var s := EncodeByte(b) + t;
    assert s[0] == Digit(High(b)) && s[1] == Digit(Low(b)) && s[2..] == t;
    DigitValueOfDigit(High(b));
    DigitValueOfDigit(Low(b));
    NibblesRecombine(b);
  }

  /** Encoding a non-empty sequence renders its first byte, then the rest. */
  lemma EncodeStep(bs: seq<Byte>)
    requires bs != []
    ensures Encode(bs) == EncodeByte(bs[0]) + Encode(bs[1..])
  {
  }

  /** Decoding undoes encoding. */
  lemma {:induction false} DecodeEncode(bs: seq<Byte>)
    ensures Decode(Encode(bs)) == Some(bs)
  {
    if bs != [] {
      EncodeStep(bs);
      DecodeEncode(bs[1..]);
      DecodeStep(bs[0], Encode(bs[1..]));
      assert [bs[0]] + bs[1..] == bs;
    }
  }

  /** Encoding undoes decoding: a string decodes only if it is the encoding of
      what it decodes to. */
  lemma {:induction false} EncodeDecode(s: string)
    requires Decode(s).Some?
    ensures Encode(Decode(s).value) == s
  {
    if |s| >= 2 {
      var hi := DigitValue(s[0]).value;
      var lo := DigitValue(s[1]).value;
      NibblesSplit(hi, lo);
      var b: Byte := hi * 16 + lo;
      var t := s[2..];
      assert EncodeByte(b) == [s[0], s[1]];
      assert s == EncodeByte(b) + t;
      DecodeStep(b, t);
      var rest := Decode(t).value;
      EncodeDecode(t);
      assert Decode(s).value == [b] + rest;
      EncodeStep([b] + rest);
      assert ([b] + rest)[1..] == rest;
    }
  }

  /** Both directions at once: `s` decodes to `bs` exactly when `bs` encodes to `s`. */
  lemma DecodeIffEncode(s: string, bs: seq<Byte>)
    ensures Decode(s) == Some(bs) <==> Encode(bs) == s
  {
    if Decode(s) == Some(bs) {
      EncodeDecode(s);
    }
    if Encode(bs) == s {
      DecodeEncode(bs);
    }
  }

  /** Distinct byte sequences have distinct encodings. */
  lemma EncodeInjective(a: seq<Byte>, b: seq<Byte>)
    requires Encode(a) == Encode(b)
    ensures a == b
  {
    DecodeEncode(a);
    DecodeEncode(b);
  }

  /** Encoding distributes over concatenation. */
  lemma {:induction false} EncodeAppend(a: seq<Byte>, b: seq<Byte>)
    ensures Encode(a + b) == Encode(a) + Encode(b)
  {
    if a != [] {
      assert (a + b)[1..] == a[1..] + b;
      EncodeAppend(a[1..], b);
    } else {
      assert a + b == b;
    }
  }
}
