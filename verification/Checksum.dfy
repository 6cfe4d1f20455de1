/** The Internet checksum of network.c (RFC 1071): folding, the header and the transport checksum. */
module Checksum {
  import opened Words

  function Word(high: byte, low: byte): nat {
    256 * high + low
  }

  /** The sum of the big-endian 16-bit words of `data`; an odd last byte counts as a high byte. */
  function WordSum(data: seq<byte>): nat {
    if |data| == 0 then 0
    else if |data| == 1 then Word(data[0], 0)
    else Word(data[0], data[1]) + WordSum(data[2..])
  }

  /** End-around carry until the sum fits in 16 bits. */
  function Folded(sum: nat): (r: nat)
    ensures r < 65536
    ensures r % 65535 == sum % 65535
    ensures r == 0 <==> sum == 0
  {
    if sum / 65536 == 0 then sum
    else
      FoldOnce(sum);
      Folded(sum % 65536 + sum / 65536)
  }

  lemma FoldOnce(sum: nat)
    requires sum / 65536 != 0
    ensures 0 < sum % 65536 + sum / 65536 < sum
    ensures (sum % 65536 + sum / 65536) % 65535 == sum % 65535
  {
    var high, low := sum / 65536, sum % 65536;
    assert sum == 65535 * high + (low + high);
    AddMultiple(low + high, high);
  }

  lemma {:induction false} AddMultiple(x: nat, k: nat)
    ensures (65535 * k + x) % 65535 == x % 65535
  {
    if k > 0 {
      AddMultiple(x, k - 1);
      assert 65535 * k + x == 65535 + (65535 * (k - 1) + x);
    }
  }

  /** The complement of the folded sum, with `initial` added to the words of the data. */
  function ChecksumFrom(initial: nat, data: seq<byte>): (c: nat)
    ensures c < 65536
  {
    65535 - Folded(initial + WordSum(data))
  }

  method SumWords(initial: nat, data: seq<byte>) returns (sum: nat)
    ensures sum == initial + WordSum(data)
  {
    sum := initial;
    var index := 0;
    while index + 1 < |data|
      invariant index <= |data| && index % 2 == 0
      invariant sum + WordSum(data[index..]) == initial + WordSum(data)
    {
      sum := sum + Word(data[index], data[index + 1]);
      assert data[index..][2..] == data[index + 2..];
      index := index + 2;
    }
    if |data| % 2 != 0 {
      sum := sum + Word(data[|data| - 1], 0);
    }
  }

  /** The loop both checksums end with. */
  method Fold(sum: nat) returns (folded: nat)
    ensures folded == Folded(sum)
  {
    folded := sum;
    while folded / 65536 != 0
      invariant Folded(folded) == Folded(sum)
      decreases folded
    {
      FoldOnce(folded);
      folded := folded % 65536 + folded / 65536;
    }
  }

  /** `checksum` */
  method ChecksumOf(data: seq<byte>) returns (c: nat)
    ensures c == ChecksumFrom(0, data)
  {
    var sum := SumWords(0, data);
    var folded := Fold(sum);
    c := 65535 - folded;
  }

  /** The words of the pseudo header of section 3.1 of RFC 9293. */
  function PseudoHeader(source: nat, destination: nat, protocol: nat, length: nat): nat {
    source / 65536 + source % 65536 + destination / 65536 + destination % 65536 + protocol + length
  }

  /** `transport_checksum` */
  method TransportChecksum(data: seq<byte>, source: nat, destination: nat, protocol: nat) returns (c: nat)
    ensures c == ChecksumFrom(PseudoHeader(source, destination, protocol, |data|), data)
  {
    var sum := SumWords(PseudoHeader(source, destination, protocol, |data|), data);
    var folded := Fold(sum);
    c := 65535 - folded;
  }

  // ----- Verification at the receiver -----

  /** `write16` on a sequence: the two bytes of `value`, the high one first. */
  function Put16(data: seq<byte>, at: nat, value: nat): (out: seq<byte>)
    requires at + 2 <= |data| && value < 65536
    ensures |out| == |data|
  {
    data[at := value / 256][at + 1 := value % 256]
  }

  lemma {:induction false} WordSumPut(data: seq<byte>, at: nat, value: nat)
    requires at % 2 == 0 && at + 2 <= |data| && value < 65536 && data[at] == data[at + 1] == 0
    ensures WordSum(Put16(data, at, value)) == WordSum(data) + value
  {
    var out := Put16(data, at, value);
    if at == 0 {
      assert out[2..] == data[2..];
    } else {
      WordSumPut(data[2..], at - 2, value);
      assert out[2..] == Put16(data[2..], at - 2, value);
    }
  }

  lemma ComplementFolds(sum: nat)
    ensures Folded(sum + (65535 - Folded(sum))) == 65535
  {
    var k, r := sum / 65535, Folded(sum);
    assert r == sum % 65535 || (r == 65535 && sum % 65535 == 0);
    if r == 65535 {
      MultipleFolds(k);
    } else {
      MultipleFolds(k + 1);
    }
  }

  lemma MultipleFolds(k: nat)
    ensures k > 0 ==> Folded(65535 * k) == 65535
  {
    AddMultiple(0, k);
    var r := Folded(65535 * k);
    assert r % 65535 == 0;
  }

  /** Data whose checksum, taken with a zero checksum field, is written into that field checks to
      zero: for any length, odd or even, and any field on a word boundary. */
  lemma SelfVerifies(initial: nat, data: seq<byte>, at: nat)
    requires at % 2 == 0 && at + 2 <= |data| && data[at] == data[at + 1] == 0
    ensures ChecksumFrom(initial, Put16(data, at, ChecksumFrom(initial, data))) == 0
  {
    WordSumPut(data, at, ChecksumFrom(initial, data));
    ComplementFolds(initial + WordSum(data));
  }

  /** A checksum of zero says that the words add up to a multiple of 65535, and not to zero. */
  lemma ZeroMeansMultiple(initial: nat, data: seq<byte>)
    ensures ChecksumFrom(initial, data) == 0 <==>
      (initial + WordSum(data) > 0 && (initial + WordSum(data)) % 65535 == 0)
  {
    var sum := initial + WordSum(data);
    assert Folded(sum) % 65535 == 0 ==> Folded(sum) == 0 || Folded(sum) == 65535;
  }
}
