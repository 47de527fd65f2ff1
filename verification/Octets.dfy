// Bytes and the fixed-width integers written with them.
module Octets {
  type Byte = b: int | 0 <= b < 256

  function Pow256(k: nat): nat { if k == 0 then 1 else 256 * Pow256(k - 1) }

  function BigEndian(digits: seq<Byte>): nat {
    if digits == [] then 0 else BigEndian(digits[..|digits| - 1]) * 256 + digits[|digits| - 1]
  }

  function ToBigEndian(x: nat, k: nat): (digits: seq<Byte>)
    ensures |digits| == k
  {
    if k == 0 then [] else ToBigEndian(x / 256, k - 1) + [x % 256]
  }

  function LittleEndian(digits: seq<Byte>): nat {
    if digits == [] then 0 else digits[0] + 256 * LittleEndian(digits[1..])
  }

  function ToLittleEndian(x: nat, k: nat): (digits: seq<Byte>)
    ensures |digits| == k
  {
    if k == 0 then [] else [x % 256] + ToLittleEndian(x / 256, k - 1)
  }

  lemma {:induction false} BigEndianRoundTrip(x: nat, k: nat)
    requires x < Pow256(k)
    ensures BigEndian(ToBigEndian(x, k)) == x
  {
    if k > 0 {
      BigEndianRoundTrip(x / 256, k - 1);
      var d := ToBigEndian(x, k);
      assert d[..k - 1] == ToBigEndian(x / 256, k - 1);
    }
  }

  lemma {:induction false} BigEndianUnique(digits: seq<Byte>)
    ensures BigEndian(digits) < Pow256(|digits|)
    ensures ToBigEndian(BigEndian(digits), |digits|) == digits
  {
    if digits != [] {
      var head, last := digits[..|digits| - 1], digits[|digits| - 1];
      BigEndianUnique(head);
      assert BigEndian(digits) / 256 == BigEndian(head) && BigEndian(digits) % 256 == last;
      assert digits == head + [last];
    }
  }

  lemma {:induction false} LittleEndianRoundTrip(x: nat, k: nat)
    requires x < Pow256(k)
    ensures LittleEndian(ToLittleEndian(x, k)) == x
  {
    if k > 0 {
      LittleEndianRoundTrip(x / 256, k - 1);
      assert ToLittleEndian(x, k)[1..] == ToLittleEndian(x / 256, k - 1);
    }
  }
}
