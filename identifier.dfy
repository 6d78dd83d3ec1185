/** `random_id` of src/micropub.rs: a time part (the seconds since a custom
    epoch, as the shortest big-endian octet string, base 32 encoded) and a
    random part of seven alphanumeric characters, joined by `-`.  The clock
    reading and the seven random characters are parameters. */
module Identifier {
  import opened Common
  import Base32

  /** 1990-01-01T00:00:00Z in Unix seconds. */
  const EPOCH: int := 631152000

  const RANDOM_LENGTH: nat := 7

  function Pow256(k: nat): (r: nat)
    ensures r == Pow2(8 * k)
  {
    if k == 0 then 1 else Pow2Add(8, 8 * (k - 1)); 256 * Pow256(k - 1)
  }

  /** The 64-bit two's complement pattern of an `i64`, read as unsigned. */
  function TwosComplement(ts: int): (u: nat)
    requires IsI64(ts)
    ensures u < Pow2(64)
    ensures ts >= 0 ==> u == ts
    ensures ts < 0 ==> u >= Pow2(63)
  {
    Pow2Of64();
    Pow2Add(1, 63);
    if ts >= 0 then ts else ts + 0x1_0000_0000_0000_0000
  }

  /** The low `n` octets of `u`, most significant first. */
  function BigEndian(u: nat, n: nat): (bs: seq<Byte>)
    ensures |bs| == n
  {
    if n == 0 then [] else BigEndian(u / 256, n - 1) + [u % 256]
  }

  /** The number an octet string denotes, most significant first. */
  function BigEndianValue(bs: seq<Byte>): nat {
    if bs == [] then 0 else 256 * BigEndianValue(bs[..|bs| - 1]) + bs[|bs| - 1]
  }

  /** `i64::to_be_bytes`. */
  function ToBeBytes(ts: int): (bs: seq<Byte>)
    requires IsI64(ts)
    ensures |bs| == 8
  {
    BigEndian(TwosComplement(ts), 8)
  }

  /** `leading_zeros` of a `width`-bit unsigned pattern. */
  function LeadingZeros(u: nat, width: nat): (z: nat)
    requires u < Pow2(width)
    ensures z <= width
  {
    if width == 0 then 0
    else if u < Pow2(width - 1) then 1 + LeadingZeros(u, width - 1)
    else 0
  }

  /** The octets kept by `&ts.to_be_bytes()[offset..]` with
      `offset = ts.leading_zeros() / 8`. */
  function TimeBytes(ts: int): (kept: seq<Byte>)
    requires IsI64(ts)
    ensures |kept| <= 8
  {
    var offset := LeadingZeros(TwosComplement(ts), 64) / 8;
    ToBeBytes(ts)[offset..]
  }

  /** The base 32 time part; an `i64` never needs more than 13 symbols. */
  function TimePart(ts: int): (s: string)
    requires IsI64(ts)
    ensures |s| <= 13
  {
    Base32.Encode(TimeBytes(ts))
  }

  predicate IsAlphanumeric(c: char) {
    'A' <= c <= 'Z' || 'a' <= c <= 'z' || '0' <= c <= '9'
  }

  /** What seven draws from `rand::distributions::Alphanumeric` produce. */
  predicate IsRandomPart(r: string) {
    |r| == RANDOM_LENGTH && forall i :: 0 <= i < |r| ==> IsAlphanumeric(r[i])
  }

  /** `random_id()` for a clock reading of `now` Unix seconds. */
  function RandomId(now: int, randomPart: string): (id: string)
    requires IsI64(now) && IsI64(now - EPOCH)
    requires IsRandomPart(randomPart)
    ensures |id| == |TimePart(now - EPOCH)| + 1 + RANDOM_LENGTH
  {
    TimePart(now - EPOCH) + "-" + randomPart
  }

  // ---------------------------------------------------------------------
  // Octet-level facts used to read the kept octets back.

  lemma {:induction false} LeadingZerosBounds(u: nat, width: nat)
    requires u < Pow2(width)
    ensures u < Pow2(width - LeadingZeros(u, width))
    ensures LeadingZeros(u, width) < width ==> Pow2(width - LeadingZeros(u, width) - 1) <= u
  {
    if width > 0 && u < Pow2(width - 1) {
      LeadingZerosBounds(u, width - 1);
    }
  }

  lemma {:induction false} BigEndianValueOf(u: nat, n: nat)
    requires u < Pow256(n)
    ensures BigEndianValue(BigEndian(u, n)) == u
  {
    if n > 0 {
      var bs := BigEndian(u, n);
      assert bs[..n - 1] == BigEndian(u / 256, n - 1);
      BigEndianValueOf(u / 256, n - 1);
    }
  }

  /** Octets above the `k` significant ones are zero, so dropping them
      leaves the `k`-octet representation. */
  lemma {:induction false} BigEndianDropZeros(u: nat, n: nat, k: nat)
    requires k <= n && u < Pow256(k)
    ensures BigEndian(u, n)[n - k..] == BigEndian(u, k)
    ensures forall i :: 0 <= i < n - k ==> BigEndian(u, n)[i] == 0
  {
    if n > k {
      BigEndianDropZeros(u / 256, n - 1, if k == 0 then 0 else k - 1);
      if k == 0 {
        assert u == 0;
        BigEndianZero(n);
      } else {
        var whole := BigEndian(u, n);
        assert whole[n - k..] == BigEndian(u / 256, n - 1)[n - k..] + [u % 256];
      }
    }
  }

  lemma {:induction false} BigEndianZero(n: nat)
    ensures forall i :: 0 <= i < n ==> BigEndian(0, n)[i] == 0
  {
    if n > 0 {
      BigEndianZero(n - 1);
    }
  }

  lemma {:induction false} BigEndianHead(u: nat, n: nat)
    requires n > 0 && Pow256(n - 1) <= u < Pow256(n)
    ensures BigEndian(u, n)[0] != 0
  {
    if n > 1 {
      BigEndianHead(u / 256, n - 1);
    }
  }

  // ---------------------------------------------------------------------
  // The properties of the time part.

  /** For a 64-bit pattern `u`, dropping `leading_zeros / 8` octets keeps
      the `k`-octet representation of `u`, which is empty for zero, has a
      nonzero leading octet otherwise, and is all eight octets when the top
      bit is set. */
  lemma KeptOctets(u: nat) returns (k: nat)
    requires u < Pow2(64)
    ensures k == 8 - LeadingZeros(u, 64) / 8
    ensures BigEndian(u, 8)[8 - k..] == BigEndian(u, k)
    ensures BigEndianValue(BigEndian(u, k)) == u
    ensures u == 0 ==> k == 0
    ensures u > 0 ==> k > 0 && BigEndian(u, k)[0] != 0
    ensures Pow2(63) <= u ==> k == 8
  {
    var z := LeadingZeros(u, 64);
    k := 8 - z / 8;
    LeadingZerosBounds(u, 64);
    Pow2Monotone(64 - z, 8 * k);
    BigEndianDropZeros(u, 8, k);
    BigEndianValueOf(u, k);
    if u == 0 {
      LeadingZerosOfZero(64);
    } else {
      KeptOctetsHead(u, z, k);
    }
  }

  lemma LeadingZerosOfZero(width: nat)
    ensures LeadingZeros(0, width) == width
  {
    if width > 0 {
      LeadingZerosOfZero(width - 1);
    }
  }

  lemma KeptOctetsHead(u: nat, z: nat, k: nat)
    requires 0 < u < Pow2(64)
    requires z == LeadingZeros(u, 64) && k == 8 - z / 8
    ensures k > 0 && BigEndian(u, k)[0] != 0
  {
    LeadingZerosBounds(u, 64);
    assert z < 64;
    var q := z / 8;
    assert 8 * q <= z < 8 * q + 8 && q < 8;
    assert u < Pow256(k) by {
      assert 64 - z <= 8 * k;
      Pow2Monotone(64 - z, 8 * k);
    }
    assert Pow256(k - 1) <= u by {
      assert 8 * (k - 1) <= 64 - z - 1;
      Pow2Monotone(8 * (k - 1), 64 - z - 1);
    }
    BigEndianHead(u, k);
  }

  /** Stripping `leading_zeros / 8` octets keeps the shortest big-endian
      representation: nothing for zero, a nonzero leading octet for a
      positive offset, all eight octets (the two's complement pattern) for
      a negative one; in every case the kept octets read back as the value. */
  lemma TimeBytesReadBack(ts: int)
    requires IsI64(ts)
    ensures ts == 0 ==> TimeBytes(ts) == []
    ensures ts > 0 ==> |TimeBytes(ts)| > 0 && TimeBytes(ts)[0] != 0
    ensures ts > 0 ==> BigEndianValue(TimeBytes(ts)) == ts
    ensures ts < 0 ==> TimeBytes(ts) == ToBeBytes(ts)
    ensures ts < 0 ==> BigEndianValue(TimeBytes(ts)) == ts + 0x1_0000_0000_0000_0000
  {
    var u := TwosComplement(ts);
    var k := KeptOctets(u);
    assert TimeBytes(ts) == BigEndian(u, k);
  }

  /** The time part is the unpadded base 32 text of the kept octets:
      ceil(8n/5) symbols of `A`-`Z`/`2`-`7`, decoding back to those octets. */
  lemma TimePartIsBase32(ts: int)
    requires IsI64(ts)
    ensures |TimePart(ts)| == (8 * |TimeBytes(ts)| + 4) / 5
    ensures forall i :: 0 <= i < |TimePart(ts)| ==> Base32.IsSymbol(TimePart(ts)[i])
    ensures Base32.Decode(TimePart(ts)) == Some(TimeBytes(ts))
  {
    Base32.DecodeEncode(TimeBytes(ts));
  }

  /** At the epoch itself the time part is empty, so the identifier starts
      with the `-`. */
  lemma EpochGivesEmptyTimePart(randomPart: string)
    requires IsRandomPart(randomPart)
    ensures RandomId(EPOCH, randomPart) == "-" + randomPart
  {
    TimeBytesReadBack(0);
  }

  /** An offset below 256 keeps exactly its one octet. */
  lemma OneOctetTimeBytes(ts: int)
    requires 0 < ts < 256
    ensures TimeBytes(ts) == [ts]
  {
    var u := TwosComplement(ts);
    var k := KeptOctets(u);
    var z := LeadingZeros(u, 64);
    LeadingZerosBounds(u, 64);
    assert z < 64;
    assert Pow2(8) == 256;
    Pow2Between(64 - z - 1, 8, u);
    assert z / 8 == 7;
    assert TimeBytes(ts) == BigEndian(u, 1);
  }

  /** `a < b` as Rust compares `String`s: octet by octet, a proper prefix
      first. */
  predicate SortsBefore(a: string, b: string) {
    if a == [] then b != []
    else if b == [] then false
    else if a[0] != b[0] then a[0] < b[0]
    else SortsBefore(a[1..], b[1..])
  }

  /** Identifiers do not sort by time: the alphabet puts `2`..`7` after `Z`
      although they come before it in ASCII, so 200 seconds after the epoch
      encodes as `Z...` and 208 seconds as `2...`, which sorts first. */
  lemma TimePartNotTimeOrdered()
    ensures |TimePart(200)| == 2 && TimePart(200)[0] == 'Z'
    ensures |TimePart(208)| == 2 && TimePart(208)[0] == '2'
    ensures SortsBefore(TimePart(208), TimePart(200))
  {
    OneOctetTimeBytes(200);
    OneOctetTimeBytes(208);
    Base32.EncodeOneOctet(200);
    Base32.EncodeOneOctet(208);
  }

  /** The identifier has exactly one `-`, right after the time part, and
      splitting on it recovers both parts. */
  lemma RandomIdSplits(now: int, randomPart: string)
    requires IsI64(now) && IsI64(now - EPOCH)
    requires IsRandomPart(randomPart)
    ensures var id := RandomId(now, randomPart);
      forall i :: 0 <= i < |id| ==> (id[i] == '-' <==> i == |TimePart(now - EPOCH)|)
    ensures SplitAtFirst(RandomId(now, randomPart), '-') == Some((TimePart(now - EPOCH), randomPart))
  {
    var time := TimePart(now - EPOCH);
    TimePartIsBase32(now - EPOCH);
    assert forall i :: 0 <= i < |time| ==> time[i] != '-';
    assert forall i :: 0 <= i < |randomPart| ==> randomPart[i] != '-';
    JoinedSplits(time, randomPart);
  }

  lemma JoinedSplits(a: string, b: string)
    requires forall i :: 0 <= i < |a| ==> a[i] != '-'
    requires forall i :: 0 <= i < |b| ==> b[i] != '-'
    ensures forall i :: 0 <= i < |a + "-" + b| ==> ((a + "-" + b)[i] == '-' <==> i == |a|)
    ensures SplitAtFirst(a + "-" + b, '-') == Some((a, b))
  {
    var id := a + "-" + b;
    forall i | 0 <= i < |id|
      ensures id[i] == '-' <==> i == |a|
    {
      if i < |a| {
        assert id[i] == a[i];
      } else if i > |a| {
        assert id[i] == b[i - |a| - 1];
      }
    }
    SplitAtFirstAt(id, '-', |a|);
    assert id[..|a|] == a && id[|a| + 1..] == b;
  }
}
