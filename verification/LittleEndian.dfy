/** Byte strings and the numbers they write, least significant byte first. */
module LittleEndian {
  import opened Modular

  type Byte = b: int | 0 <= b < 256

  type Bytes = seq<Byte>

  function LeValue(b: Bytes): nat {
    if b == [] then 0 else b[0] + 256 * LeValue(b[1..])
  }

  function LeBytes(n: nat, len: nat): (r: Bytes)
    ensures |r| == len
  {
    if len == 0 then [] else [n % 256] + LeBytes(n / 256, len - 1)
  }

  lemma {:induction false} LeValueOfBytes(n: nat, len: nat)
    requires n < Pow(256, len)
    ensures LeValue(LeBytes(n, len)) == n
  {
    if len > 0 {
      assert n / 256 < Pow(256, len - 1) by { assert Pow(256, len) == 256 * Pow(256, len - 1); }
      LeValueOfBytes(n / 256, len - 1);
      assert LeBytes(n, len)[1..] == LeBytes(n / 256, len - 1);
    }
  }

  lemma {:induction false} LeBytesOfValue(b: Bytes)
    ensures LeValue(b) < Pow(256, |b|) && LeBytes(LeValue(b), |b|) == b
  {
    if b != [] {
      LeBytesOfValue(b[1..]);
      var v := LeValue(b[1..]);
      assert (b[0] + 256 * v) / 256 == v && (b[0] + 256 * v) % 256 == b[0];
      assert b == [b[0]] + b[1..];
    }
  }

  lemma LeValueInjective(a: Bytes, b: Bytes)
    requires |a| == |b| && LeValue(a) == LeValue(b)
    ensures a == b
  {
    LeBytesOfValue(a);
    LeBytesOfValue(b);
  }
}
