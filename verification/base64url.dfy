/**
 The "URL and Filename safe" Base64 encoding of section 5 of RFC 4648, over
 byte sequences, with `=` padding of the final group (section 4 of RFC 4648).

 The codec works in two layers. Between bytes and symbols: three bytes are
 four 6-bit values, and a final group of one or two bytes is two or three
 values followed by padding. Between symbols and characters: each 6-bit value
 is one character of the alphabet, padding is `=`, and every other character
 is foreign.

 The decoder is strict about the alphabet, the length and the position of
 padding, and, like the usual library decoders, ignores the bits a padded
 final group discards.
 */
module Base64Url {
  import opened Wrappers

  /** An octet. */
  type byte = b: int | 0 <= b < 256

  /** A 6-bit group: the index of a character in the alphabet. */
  type sextet = i: int | 0 <= i < 64

  /** Table 2 of RFC 4648 (the URL and Filename safe alphabet), in index order. */
  const Alphabet: string :=
    "ABCDEFGHIJKLMNOPQRSTUVWXYZ" + "abcdefghijklmnopqrstuvwxyz" + "0123456789" + "-_"

  /** The padding character. */
  const Pad: char := '='

  predicate IsAlphabetChar(c: char) {
    ('A' <= c <= 'Z') || ('a' <= c <= 'z') || ('0' <= c <= '9') || c == '-' || c == '_'
  }

  /** A string made of alphabet characters only: no padding, nothing foreign. */
  predicate Unpadded(s: string) {
    forall k :: 0 <= k < |s| ==> IsAlphabetChar(s[k])
  }

  /** The character that encodes the 6-bit value `i`. */
  function CharOf(i: sextet): (c: char)
    ensures IsAlphabetChar(c)
  {
    if i < 26 then ('A' as int + i) as char
    else if i < 52 then ('a' as int + (i - 26)) as char
    else if i < 62 then ('0' as int + (i - 52)) as char
    else if i == 62 then '-'
    else '_'
  }

  /** The 6-bit value an alphabet character encodes. */
  function IndexOf(c: char): (i: sextet)
    requires IsAlphabetChar(c)
    ensures CharOf(i) == c
  {
    if 'A' <= c <= 'Z' then c as int - 'A' as int
    else if 'a' <= c <= 'z' then c as int - 'a' as int + 26
    else if '0' <= c <= '9' then c as int - '0' as int + 52
    else if c == '-' then 62
    else 63
  }

  /** The arithmetic definition of the alphabet agrees with the RFC's table. */
  lemma CharOfMatchesTable(i: sextet)
    ensures CharOf(i) == Alphabet[i]
  {
  }

  /** Distinct values get distinct characters, so decoding a character is exact. */
  lemma IndexOfCharOf(i: sextet)
    ensures IndexOf(CharOf(i)) == i
  {
  }

  // ----- symbols <-> characters -----

  /** What one character of an encoded string stands for. */
  datatype Symbol = Value(v: sextet) | Padding | Foreign

  function SymbolOf(c: char): (x: Symbol) {
    if IsAlphabetChar(c) then Value(IndexOf(c))
    else if c == Pad then Padding
    else Foreign
  }

  function CharOfSymbol(x: Symbol): (c: char)
    requires !x.Foreign?
  {
    match x
    case Value(v) => CharOf(v)
    case Padding => Pad
  }

  /** A sequence of symbols that can be written down: nothing foreign. */
  predicate Writable(xs: seq<Symbol>) {
    forall k :: 0 <= k < |xs| ==> !xs[k].Foreign?
  }

  /** A sequence of symbols without padding. */
  predicate AllValues(xs: seq<Symbol>) {
    forall k :: 0 <= k < |xs| ==> xs[k].Value?
  }

  /** The symbols of a string, character by character. */
  function Symbols(s: string): (xs: seq<Symbol>)
    ensures |xs| == |s|
    ensures forall k :: 0 <= k < |s| ==> xs[k] == SymbolOf(s[k])
  {
    seq(|s|, k requires 0 <= k < |s| => SymbolOf(s[k]))
  }

  /** The characters of a sequence of symbols, symbol by symbol. */
  function Text(xs: seq<Symbol>): (s: string)
    requires Writable(xs)
    ensures |s| == |xs|
    ensures forall k :: 0 <= k < |xs| ==> s[k] == CharOfSymbol(xs[k])
  {
    seq(|xs|, k requires 0 <= k < |xs| => CharOfSymbol(xs[k]))
  }

  /** Reading back the character written for a symbol gives the symbol. */
  lemma SymbolOfCharOfSymbol(x: Symbol)
    requires !x.Foreign?
    ensures SymbolOf(CharOfSymbol(x)) == x
  {
    if x.Value? {
      IndexOfCharOf(x.v);
    }
  }

  /** Writing symbols as text and reading the text back is exact. */
  lemma SymbolsText(xs: seq<Symbol>)
    requires Writable(xs)
    ensures Symbols(Text(xs)) == xs
  {
    forall k | 0 <= k < |xs|
      ensures Symbols(Text(xs))[k] == xs[k]
    {
      SymbolOfCharOfSymbol(xs[k]);
    }
  }

  /** A string without foreign characters is the text of its symbols. */
  lemma TextSymbols(s: string)
    requires Writable(Symbols(s))
    ensures Text(Symbols(s)) == s
  {
  }

  /** Text is made of alphabet characters alone exactly when it has no padding. */
  lemma UnpaddedText(xs: seq<Symbol>)
    requires Writable(xs)
    ensures Unpadded(Text(xs)) <==> AllValues(xs)
  {
    if !AllValues(xs) {
      var k :| 0 <= k < |xs| && !xs[k].Value?;
      assert Text(xs)[k] == Pad;
    }
  }

  // ----- bytes <-> 6-bit values -----

  /** The four 6-bit values of three bytes, most significant bits first. */
  function Sextets(b0: byte, b1: byte, b2: byte): (q: seq<sextet>)
    ensures |q| == 4
  {
    [b0 / 4, (b0 % 4) * 16 + b1 / 16, (b1 % 16) * 4 + b2 / 64, b2 % 64]
  }

  /** The three bytes four 6-bit values stand for. */
  function Octets(c0: sextet, c1: sextet, c2: sextet, c3: sextet): (b: seq<byte>)
    ensures |b| == 3
  {
    [c0 * 4 + c1 / 16, (c1 % 16) * 16 + c2 / 4, (c2 % 4) * 64 + c3]
  }

  /** Splitting three bytes into 6-bit values and joining them again is exact. */
  lemma OctetsSextets(b0: byte, b1: byte, b2: byte)
    ensures var q := Sextets(b0, b1, b2); Octets(q[0], q[1], q[2], q[3]) == [b0, b1, b2]
  {
  }

  /** Joining four 6-bit values into bytes and splitting them again is exact. */
  lemma SextetsOctets(c0: sextet, c1: sextet, c2: sextet, c3: sextet)
    ensures var b := Octets(c0, c1, c2, c3); Sextets(b[0], b[1], b[2]) == [c0, c1, c2, c3]
  {
    var b := Octets(c0, c1, c2, c3);
    assert b[0] / 4 == c0 && b[0] % 4 == c1 / 16;
    assert b[1] / 16 == c1 % 16 && b[1] % 16 == c2 / 4;
    assert b[2] / 64 == c2 % 4 && b[2] % 64 == c3;
  }

  /** One byte padded to a group survives the trip through 6-bit values. */
  lemma OneByteRoundTrip(b0: byte)
    ensures var q := Sextets(b0, 0, 0); Octets(q[0], q[1], 0, 0)[..1] == [b0]
  {
  }

  /** Two bytes padded to a group survive the trip through 6-bit values. */
  lemma TwoBytesRoundTrip(b0: byte, b1: byte)
    ensures var q := Sextets(b0, b1, 0); Octets(q[0], q[1], q[2], 0)[..2] == [b0, b1]
  {
    var q := Sextets(b0, b1, 0);
    var o := Octets(q[0], q[1], q[2], 0);
    assert o[0] == b0 && o[1] == b1;
  }

  /** The symbols of bytes: a group of four values for every three bytes,
      and a final group of two or three values and padding for the rest. */
  function EncodeSymbols(b: seq<byte>): (xs: seq<Symbol>)
    decreases |b|
  {
    if |b| == 0 then []
    else if |b| == 1 then
      var q := Sextets(b[0], 0, 0);
      [Value(q[0]), Value(q[1]), Padding, Padding]
    else if |b| == 2 then
      var q := Sextets(b[0], b[1], 0);
      [Value(q[0]), Value(q[1]), Value(q[2]), Padding]
    else
      var q := Sextets(b[0], b[1], b[2]);
      [Value(q[0]), Value(q[1]), Value(q[2]), Value(q[3])] + EncodeSymbols(b[3..])
  }

  /** The bytes of the last group of symbols, which may end in padding. */
  function DecodeFinal(x0: Symbol, x1: Symbol, x2: Symbol, x3: Symbol): (r: Option<seq<byte>>)
    ensures r.Some? ==> 1 <= |r.value| <= 3
    ensures r.Some? ==> (|r.value| == 3 <==> x2.Value? && x3.Value?)
  {
    match (x0, x1, x2, x3)
    case (Value(c0), Value(c1), Value(c2), Value(c3)) => Some(Octets(c0, c1, c2, c3))
    case (Value(c0), Value(c1), Value(c2), Padding) => Some(Octets(c0, c1, c2, 0)[..2])
    case (Value(c0), Value(c1), Padding, Padding) => Some(Octets(c0, c1, 0, 0)[..1])
    case _ => None
  }

  /** The bytes of a sequence of symbols: `None` unless it is whole groups of
      four, with padding only at the end of the last. */
  function DecodeSymbols(xs: seq<Symbol>): (r: Option<seq<byte>>)
    decreases |xs|
  {
    if |xs| == 0 then Some([])
    else if |xs| < 4 then None
    else if |xs| == 4 then DecodeFinal(xs[0], xs[1], xs[2], xs[3])
    else if xs[0].Value? && xs[1].Value? && xs[2].Value? && xs[3].Value? then
      match DecodeSymbols(xs[4..])
      case None => None
      case Some(rest) => Some(Octets(xs[0].v, xs[1].v, xs[2].v, xs[3].v) + rest)
    else None
  }

  // ----- the codec -----

  /** Base64url encoding with `=` padding, as Python's `base64.urlsafe_b64encode`. */
  function Encode(b: seq<byte>): (s: string)
  {
    WritableEncodeSymbols(b);
    Text(EncodeSymbols(b))
  }

  /** Base64url decoding: `None` for a string that is not a padded
      Base64url encoding. */
  function Decode(s: string): (r: Option<seq<byte>>)
  {
    DecodeSymbols(Symbols(s))
  }

  // ----- properties of the symbol layer -----

  /** The symbols of bytes never include a foreign one. */
  lemma {:induction false} WritableEncodeSymbols(b: seq<byte>)
    ensures Writable(EncodeSymbols(b))
    decreases |b|
  {
    if |b| >= 3 {
      WritableEncodeSymbols(b[3..]);
      var q := Sextets(b[0], b[1], b[2]);
      var head := [Value(q[0]), Value(q[1]), Value(q[2]), Value(q[3])];
      var xs := EncodeSymbols(b);
      assert xs == head + EncodeSymbols(b[3..]);
      forall k | 0 <= k < |xs|
        ensures !xs[k].Foreign?
      {
        if k >= 4 {
          assert xs[k] == EncodeSymbols(b[3..])[k - 4];
        }
      }
    }
  }

  /** Every started group of three bytes takes four symbols. */
  lemma {:induction false} EncodeSymbolsLength(b: seq<byte>)
    ensures |EncodeSymbols(b)| == 4 * ((|b| + 2) / 3)
    decreases |b|
  {
    if |b| >= 3 {
      EncodeSymbolsLength(b[3..]);
      var n := |b[3..]|;
      assert |b| == n + 3;
      assert |EncodeSymbols(b)| == 4 + 4 * ((n + 2) / 3);
    }
  }

  /** Only the last group can carry padding, and it does exactly when the
      number of bytes is not a multiple of three. */
  lemma {:induction false} EncodeSymbolsPadding(b: seq<byte>)
    ensures AllValues(EncodeSymbols(b)) <==> |b| % 3 == 0
    decreases |b|
  {
    var xs := EncodeSymbols(b);
    if 0 < |b| < 3 {
      assert !xs[3].Value?;
    } else if |b| >= 3 {
      EncodeSymbolsPadding(b[3..]);
      var tail := EncodeSymbols(b[3..]);
      assert |b[3..]| % 3 == |b| % 3;
      forall k | 0 <= k < |tail|
        ensures tail[k] == xs[k + 4]
      {
      }
      if AllValues(tail) {
        forall k | 0 <= k < |xs|
          ensures xs[k].Value?
        {
          if k >= 4 {
            assert xs[k] == tail[k - 4];
          }
        }
      }
    }
  }

  /** A leading group of four values decodes to three bytes in front of
      whatever the rest decodes to. */
  lemma DecodeLeadingGroup(xs: seq<Symbol>)
    requires |xs| >= 4 && xs[0].Value? && xs[1].Value? && xs[2].Value? && xs[3].Value?
    requires DecodeSymbols(xs[4..]).Some?
    ensures DecodeSymbols(xs) == Some(Octets(xs[0].v, xs[1].v, xs[2].v, xs[3].v) + DecodeSymbols(xs[4..]).value)
  {
    if |xs| == 4 {
      assert xs[4..] == [];
      var o := Octets(xs[0].v, xs[1].v, xs[2].v, xs[3].v);
      assert o + [] == o;
    }
  }

  lemma SplitFirstThree<T>(b: seq<T>)
    requires |b| >= 3
    ensures b == [b[0], b[1], b[2]] + b[3..]
  {
  }

  /** Decoding the symbols of bytes gives the bytes back. */
  lemma {:induction false} DecodeEncodeSymbols(b: seq<byte>)
    ensures DecodeSymbols(EncodeSymbols(b)) == Some(b)
    decreases |b|
  {
    if |b| == 1 {
      OneByteRoundTrip(b[0]);
      assert b == [b[0]];
    } else if |b| == 2 {
      TwoBytesRoundTrip(b[0], b[1]);
      assert b == [b[0], b[1]];
    } else if |b| >= 3 {
      DecodeEncodeSymbols(b[3..]);
      var xs := EncodeSymbols(b);
      var q := Sextets(b[0], b[1], b[2]);
      assert xs == [Value(q[0]), Value(q[1]), Value(q[2]), Value(q[3])] + EncodeSymbols(b[3..]);
      assert xs[4..] == EncodeSymbols(b[3..]);
      DecodeLeadingGroup(xs);
      OctetsSextets(b[0], b[1], b[2]);
      SplitFirstThree(b);
    }
  }

  /** Symbols that decode to a whole number of groups are the symbols of
      what they decode to. */
  lemma {:induction false} EncodeDecodeSymbols(xs: seq<Symbol>)
    requires DecodeSymbols(xs).Some? && |DecodeSymbols(xs).value| % 3 == 0
    ensures EncodeSymbols(DecodeSymbols(xs).value) == xs
    decreases |xs|
  {
    if |xs| > 0 {
      var b := DecodeSymbols(xs).value;
      var c0, c1, c2, c3 := xs[0].v, xs[1].v, xs[2].v, xs[3].v;
      var head := Octets(c0, c1, c2, c3);
      SextetsOctets(c0, c1, c2, c3);
      var rest := DecodeSymbols(xs[4..]).value;
      DecodeLeadingGroup(xs);
      assert b == head + rest;
      assert b[3..] == rest;
      if |xs| > 4 {
        EncodeDecodeSymbols(xs[4..]);
      }
      assert xs == [xs[0], xs[1], xs[2], xs[3]] + xs[4..];
    }
  }

  /** Symbols that decode are writable: nothing foreign decodes. */
  lemma {:induction false} DecodedSymbolsWritable(xs: seq<Symbol>)
    requires DecodeSymbols(xs).Some?
    ensures Writable(xs)
    decreases |xs|
  {
    if |xs| > 4 {
      DecodedSymbolsWritable(xs[4..]);
      forall k | 4 <= k < |xs|
        ensures !xs[k].Foreign?
      {
        assert xs[k] == xs[4..][k - 4];
      }
    }
  }

  /** Symbols decode only in whole groups of four, and `n` groups carry
      between `3n - 2` and `3n` bytes. */
  lemma {:induction false} DecodeSymbolsLength(xs: seq<Symbol>)
    requires DecodeSymbols(xs).Some?
    ensures |xs| == 4 * ((|DecodeSymbols(xs).value| + 2) / 3)
    decreases |xs|
  {
    if |xs| > 4 {
      DecodeSymbolsLength(xs[4..]);
      DecodeLeadingGroup(xs);
      var n := |DecodeSymbols(xs[4..]).value|;
      assert |DecodeSymbols(xs).value| == n + 3;
      assert |xs| == 4 + 4 * ((n + 2) / 3);
    }
  }

  // ----- properties of the codec -----

  /** Every started group of three bytes takes four characters. */
  lemma EncodedLength(b: seq<byte>)
    ensures |Encode(b)| == 4 * ((|b| + 2) / 3)
  {
    EncodeSymbolsLength(b);
  }

  /** Only strings of whole groups of four decode, and a string of `n` groups
      carries between `3n - 2` and `3n` bytes. */
  lemma DecodedLength(s: string)
    requires Decode(s).Some?
    ensures |s| == 4 * ((|Decode(s).value| + 2) / 3)
  {
    DecodeSymbolsLength(Symbols(s));
  }

  /** Only the final group can carry padding: the encoding of a whole number
      of groups uses alphabet characters alone, any other ends in `=`. */
  lemma EncodedShape(b: seq<byte>)
    ensures Unpadded(Encode(b)) <==> |b| % 3 == 0
  {
    WritableEncodeSymbols(b);
    UnpaddedText(EncodeSymbols(b));
    EncodeSymbolsPadding(b);
  }

  /** Decoding an encoding gives the bytes back. */
  lemma DecodeEncode(b: seq<byte>)
    ensures Decode(Encode(b)) == Some(b)
  {
    WritableEncodeSymbols(b);
    SymbolsText(EncodeSymbols(b));
    DecodeEncodeSymbols(b);
  }

  /** A string that decodes to a whole number of groups is the encoding of
      what it decodes to: on such strings the decoder is injective. */
  lemma EncodeDecode(s: string)
    requires Decode(s).Some? && |Decode(s).value| % 3 == 0
    ensures Encode(Decode(s).value) == s
  {
    var xs := Symbols(s);
    DecodedSymbolsWritable(xs);
    EncodeDecodeSymbols(xs);
    TextSymbols(s);
  }

  /** The test vectors of section 10 of RFC 4648, none of which uses the two
      characters in which the URL-safe alphabet differs: the empty input. */
  lemma RfcVectorEmpty()
    ensures Encode([]) == "" && Decode("") == Some([])
  {
  }

  /** The one-byte test vector of section 10 of RFC 4648: two values and two `=`. */
  lemma RfcVectorOne()
    ensures Encode([102]) == "Zg==" && Decode("Zg==") == Some([102])
  {
    assert EncodeSymbols([102]) == [Value(25), Value(32), Padding, Padding];
    assert Encode([102]) == "Zg==";
    DecodeEncode([102]);
  }

  /** The two-byte test vector of section 10 of RFC 4648: three values and one `=`. */
  lemma RfcVectorTwo()
    ensures Encode([102, 111]) == "Zm8=" && Decode("Zm8=") == Some([102, 111])
  {
    assert EncodeSymbols([102, 111]) == [Value(25), Value(38), Value(60), Padding];
    assert Encode([102, 111]) == "Zm8=";
    DecodeEncode([102, 111]);
  }

  /** The three-byte test vector of section 10 of RFC 4648: one whole group. */
  lemma RfcVectorThree()
    ensures Encode([102, 111, 111]) == "Zm9v" && Decode("Zm9v") == Some([102, 111, 111])
  {
    var b: seq<byte> := [102, 111, 111];
    assert b[3..] == [];
    assert EncodeSymbols(b) == [Value(25), Value(38), Value(61), Value(47)];
    assert Encode(b) == "Zm9v";
    DecodeEncode(b);
  }

  /** The six-byte test vector of section 10 of RFC 4648: two whole groups. */
  lemma RfcVectorLong()
    ensures Encode([102, 111, 111, 98, 97, 114]) == "Zm9vYmFy"
    ensures Decode("Zm9vYmFy") == Some([102, 111, 111, 98, 97, 114])
  {
    var b: seq<byte> := [102, 111, 111, 98, 97, 114];
    assert b[3..] == [98, 97, 114] && b[3..][3..] == [];
    assert EncodeSymbols(b) == [Value(25), Value(38), Value(61), Value(47), Value(24), Value(38), Value(5), Value(50)];
    assert Encode(b) == "Zm9vYmFy";
    DecodeEncode(b);
  }
}
