/** Base 32 encoding with the alphabet of section 6 of RFC 4648 and the
    trailing `=` padding omitted, as section 3.2 of that RFC allows.  The
    input octets are read as one bit string, most significant bit first;
    every group of five bits selects one symbol, and a last, short group is
    filled up with zero bits. */
module Base32 {
  import opened Common

  /** The RFC 4648 section 6 alphabet: values 0..25 are `A`..`Z`, values
      26..31 are `2`..`7`. */
  function Symbol(v: nat): (c: char)
    requires v < 32
    ensures IsSymbol(c)
  {
    if v < 26 then (('A' as int) + v) as char else (('2' as int) + v - 26) as char
  }

  predicate IsSymbol(c: char) {
    'A' <= c <= 'Z' || '2' <= c <= '7'
  }

  function SymbolValue(c: char): (v: nat)
    requires IsSymbol(c)
    ensures v < 32 && Symbol(v) == c
  {
    if 'A' <= c <= 'Z' then (c as int) - ('A' as int) else (c as int) - ('2' as int) + 26
  }

  lemma SymbolValueOfSymbol(v: nat)
    requires v < 32
    ensures SymbolValue(Symbol(v)) == v
  {
  }

  /** The low `width` bits of `v`, most significant first. */
  function BitsOf(v: nat, width: nat): (bits: seq<bool>)
    ensures |bits| == width
  {
    if width == 0 then [] else BitsOf(v / 2, width - 1) + [v % 2 == 1]
  }

  /** The number a bit string denotes, most significant bit first. */
  function ValueOf(bits: seq<bool>): (v: nat)
    ensures v < Pow2(|bits|)
  {
    if bits == [] then 0
    else 2 * ValueOf(bits[..|bits| - 1]) + (if bits[|bits| - 1] then 1 else 0)
  }

  lemma {:induction false} BitsOfValueOf(bits: seq<bool>)
    ensures BitsOf(ValueOf(bits), |bits|) == bits
  {
    if bits != [] {
      var init := bits[..|bits| - 1];
      BitsOfValueOf(init);
      assert bits == init + [bits[|bits| - 1]];
    }
  }

  lemma {:induction false} ValueOfBitsOf(v: nat, width: nat)
    requires v < Pow2(width)
    ensures ValueOf(BitsOf(v, width)) == v
  {
    if width > 0 {
      ValueOfBitsOf(v / 2, width - 1);
      var bits := BitsOf(v, width);
      assert bits[..|bits| - 1] == BitsOf(v / 2, width - 1);
    }
  }

  function BytesToBits(data: seq<Byte>): (bits: seq<bool>)
    ensures |bits| == 8 * |data|
  {
    if data == [] then [] else BitsOf(data[0], 8) + BytesToBits(data[1..])
  }

  function BitsToBytes(bits: seq<bool>): seq<Byte>
    requires |bits| % 8 == 0
  {
    if bits == [] then [] else [ValueOf(bits[..8]) as Byte] + BitsToBytes(bits[8..])
  }

  lemma {:induction false} BitsToBytesOfBytesToBits(data: seq<Byte>)
    ensures BitsToBytes(BytesToBits(data)) == data
  {
    if data != [] {
      var bits := BytesToBits(data);
      assert bits[..8] == BitsOf(data[0], 8);
      assert bits[8..] == BytesToBits(data[1..]);
      ValueOfBitsOf(data[0], 8);
      BitsToBytesOfBytesToBits(data[1..]);
    }
  }

  /** The bits followed by just enough zero bits to make whole five-bit groups. */
  function PadToGroups(bits: seq<bool>): (padded: seq<bool>)
    ensures |padded| % 5 == 0
    ensures |padded| == |bits| + (5 - |bits| % 5) % 5
    ensures padded[..|bits|] == bits
  {
    bits + seq((5 - |bits| % 5) % 5, _ => false)
  }

  function Symbols(bits: seq<bool>): (s: string)
    requires |bits| % 5 == 0
    ensures |s| == |bits| / 5
    ensures forall i :: 0 <= i < |s| ==> IsSymbol(s[i])
  {
    if bits == [] then [] else [Symbol(ValueOf(bits[..5]))] + Symbols(bits[5..])
  }

  /** `base32::encode(Alphabet::RFC4648 { padding: false }, data)`. */
  function Encode(data: seq<Byte>): (s: string)
    ensures |s| == (8 * |data| + 4) / 5
    ensures forall i :: 0 <= i < |s| ==> IsSymbol(s[i])
  {
    Symbols(PadToGroups(BytesToBits(data)))
  }

  /** The bits that a string of symbols stands for, five per symbol. */
  function SymbolBits(s: string): (bits: seq<bool>)
    requires forall i :: 0 <= i < |s| ==> IsSymbol(s[i])
    ensures |bits| == 5 * |s|
  {
    if s == [] then [] else BitsOf(SymbolValue(s[0]), 5) + SymbolBits(s[1..])
  }

  lemma {:induction false} SymbolBitsOfSymbols(bits: seq<bool>)
    requires |bits| % 5 == 0
    ensures SymbolBits(Symbols(bits)) == bits
    decreases |bits|
  {
    if bits != [] {
      var s := Symbols(bits);
      assert s[1..] == Symbols(bits[5..]);
      SymbolValueOfSymbol(ValueOf(bits[..5]));
      BitsOfValueOf(bits[..5]);
      SymbolBitsOfSymbols(bits[5..]);
      assert bits == bits[..5] + bits[5..];
    }
  }

  /** The reference decoder: refuses any character outside the alphabet,
      and drops the zero bits that completed the last group. */
  function Decode(s: string): (r: Option<seq<Byte>>)
    ensures r.Some? <==> forall i :: 0 <= i < |s| ==> IsSymbol(s[i])
  {
    if forall i :: 0 <= i < |s| ==> IsSymbol(s[i]) then
      var bits := SymbolBits(s);
      Some(BitsToBytes(bits[..|bits| / 8 * 8]))
    else
      None
  }

  /** Decoding an encoding gives back exactly the input octets. */
  lemma DecodeEncode(data: seq<Byte>)
    ensures Decode(Encode(data)) == Some(data)
  {
    var bits := BytesToBits(data);
    var padded := PadToGroups(bits);
    SymbolBitsOfSymbols(padded);
    assert |padded| / 8 * 8 == |bits|;
    BitsToBytesOfBytesToBits(data);
  }

  /** The encoding of n octets has ceil(8n/5) symbols, so the possible
      lengths for 0..8 octets are 0, 2, 4, 5, 7, 8, 10, 12 and 13. */
  lemma EncodeLengthTable(data: seq<Byte>)
    requires |data| <= 8
    ensures |Encode(data)| == [0, 2, 4, 5, 7, 8, 10, 12, 13][|data|]
  {
  }

  /** The bits of `hi * 2^b + lo` are those of `hi` followed by the `b`
      bits of `lo`. */
  lemma {:induction false} BitsOfSplit(hi: nat, lo: nat, a: nat, b: nat)
    requires lo < Pow2(b)
    ensures BitsOf(hi * Pow2(b) + lo, a + b) == BitsOf(hi, a) + BitsOf(lo, b)
    decreases b
  {
    if b == 0 {
      assert BitsOf(lo, b) == [];
      assert hi * Pow2(b) + lo == hi;
    } else {
      var m := Pow2(b - 1);
      var v := hi * Pow2(b) + lo;
      assert v == 2 * (hi * m + lo / 2) + lo % 2;
      assert v / 2 == hi * m + lo / 2 && v % 2 == lo % 2;
      BitsOfSplit(hi, lo / 2, a, b - 1);
      assert BitsOf(lo, b) == BitsOf(lo / 2, b - 1) + [lo % 2 == 1];
    }
  }

  /** A single octet encodes to two symbols, the first standing for its
      high five bits. */
  lemma EncodeOneOctet(b: Byte)
    ensures |Encode([b])| == 2 && Encode([b])[0] == Symbol(b / 8)
  {
    var bits := BytesToBits([b]);
    assert bits == BitsOf(b, 8) by {
      assert BytesToBits([b][1..]) == [];
    }
    var padded := PadToGroups(bits);
    assert Pow2(3) == 8;
    BitsOfSplit(b / 8, b % 8, 5, 3);
    assert padded[..5] == BitsOf(b / 8, 5);
    assert Pow2(5) == 32;
    ValueOfBitsOf(b / 8, 5);
  }
}
