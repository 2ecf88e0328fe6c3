/** Byte strings, powers of two and little-endian numbers. */
module Bytes {
  import opened Modular

  type byte = b: int | 0 <= b < 256
  type bytes = seq<byte>

  datatype Option<+T> = None | Some(value: T)

  function Ascii(s: string): (b: bytes)
    ensures |b| == |s|
    ensures forall i :: 0 <= i < |s| && s[i] < 256 as char ==> b[i] == s[i] as int
  {
    seq(|s|, i requires 0 <= i < |s| => s[i] as int % 256)
  }

  function Zeros(n: nat): (b: bytes)
    ensures |b| == n
    ensures forall i :: 0 <= i < n ==> b[i] == 0
  {
    seq(n, _ => 0)
  }

  function Power2(n: nat): (r: nat)
    ensures r > 0
  {
    if n == 0 then 1 else 2 * Power2(n - 1)
  }

  lemma {:induction false} Power2Add(m: nat, n: nat)
    ensures Power2(m + n) == Power2(m) * Power2(n)
  {
    if m > 0 {
      Power2Add(m - 1, n);
      TwiceProduct(Power2(m - 1), Power2(n));
    }
  }

  lemma TwiceProduct(a: int, b: int)
    ensures 2 * (a * b) == (2 * a) * b
  {
  }

  lemma Power2At8(n: nat)
    requires n == 8
    ensures Power2(n) == 256
  {
    assert Power2(n) == 2 * Power2(n - 1) == 4 * Power2(n - 2) == 8 * Power2(n - 3) == 16 * Power2(n - 4);
    Power2Add(n - 4, n - 4);
  }

  const TWO_255: nat := 0x8000000000000000000000000000000000000000000000000000000000000000

  /** The exponents 255 and 256, passed as variables so that Power2 is not unfolded to the bottom. */
  lemma Power2At255(n: nat)
    requires n == 255
    ensures Power2(n) == TWO_255 && Power2(n + 1) == 2 * TWO_255
    ensures Power2(n - 1) == TWO_255 / 2 && Power2(n - 3) == TWO_255 / 8
  {
    Power2At256(n + 1);
    Power2Halves(n - 3);
  }

  lemma Power2Halves(n: nat)
    ensures Power2(n + 4) == 16 * Power2(n) && Power2(n + 3) == 8 * Power2(n) && Power2(n + 2) == 4 * Power2(n)
  {
    assert Power2(n + 4) == 2 * Power2(n + 3) && Power2(n + 3) == 2 * Power2(n + 2);
    assert Power2(n + 2) == 2 * Power2(n + 1) && Power2(n + 1) == 2 * Power2(n);
  }

  lemma Power2At256(n: nat)
    requires n == 256
    ensures Power2(n) == 2 * TWO_255
  {
    var e := n / 32;
    Power2At8(e);
    Power2Square(e, 0x100);
    Power2Square(2 * e, 0x10000);
    Power2Square(4 * e, 0x100000000);
    Power2Square(8 * e, 0x10000000000000000);
    Power2Square(16 * e, 0x100000000000000000000000000000000);
  }

  lemma Power2Square(e: nat, v: nat)
    requires Power2(e) == v
    ensures Power2(2 * e) == v * v
  {
    Power2Add(e, e);
  }

  function LittleEndian(s: bytes): nat {
    if s == [] then 0 else s[0] + 256 * LittleEndian(s[1..])
  }

  function FromNat(n: nat, len: nat): (s: bytes)
    ensures |s| == len
  {
    if len == 0 then [] else [n % 256] + FromNat(n / 256, len - 1)
  }

  lemma {:induction false} LittleEndianBound(s: bytes)
    ensures LittleEndian(s) < Power2(8 * |s|)
  {
    if s != [] {
      LittleEndianBound(s[1..]);
      Power2Shift(8, |s| - 1);
      var m := Power2(8 * (|s| - 1));
      assert s[0] + 256 * LittleEndian(s[1..]) < 256 * m;
    }
  }

  lemma Power2Shift(e: nat, k: nat)
    requires e == 8
    ensures Power2(e * (k + 1)) == 256 * Power2(e * k)
  {
    Power2At8(e);
    Power2Add(e, e * k);
  }

  lemma {:induction false} LittleEndianFromNat(n: nat, len: nat)
    ensures LittleEndian(FromNat(n, len)) == n % Power2(8 * len)
  {
    if len > 0 {
      LittleEndianFromNat(n / 256, len - 1);
      assert FromNat(n, len)[1..] == FromNat(n / 256, len - 1);
      Power2Shift(8, len - 1);
      SplitByte(n % 256, n / 256, Power2(8 * (len - 1)));
    }
  }

  /** Dividing b + 256 * rest by 256 * m divides rest by m and leaves b in the remainder. */
  lemma SplitByte(b: byte, rest: nat, m: nat)
    requires m > 0
    ensures (b + 256 * rest) / (256 * m) == rest / m
    ensures (b + 256 * rest) % (256 * m) == b + 256 * (rest % m)
  {
    var q, r := rest / m, rest % m;
    calc {
      b + 256 * rest;
      b + 256 * (m * q + r);
      256 * (m * q) + (b + 256 * r);
      (256 * m) * q + (b + 256 * r);
    }
    ModUnique(256 * m, b + 256 * rest, q, b + 256 * r);
  }

  /** The bit of a byte that `b >> i & 1` reads. */
  function ByteBit(b: byte, i: nat): nat {
    (b / Power2(i)) % 2
  }

  /** Reading bit pos out of byte pos/8 is reading bit pos of the little-endian number. */
  lemma {:induction false} BitOfLittleEndian(s: bytes, pos: nat)
    requires pos < 8 * |s|
    ensures ByteBit(s[pos / 8], pos % 8) == ShiftRight(LittleEndian(s), pos) % 2
  {
    var b, rest := s[0], LittleEndian(s[1..]);
    if pos < 8 {
      LowBit(b, rest, pos, 8);
    } else {
      BitOfLittleEndian(s[1..], pos - 8);
      assert s[1..][(pos - 8) / 8] == s[pos / 8];
      var e := 8;
      Power2At8(e);
      Power2Add(e, pos - e);
      SplitByte(b, rest, Power2(pos - e));
    }
  }

  lemma LowBit(b: byte, rest: nat, i: nat, e: nat)
    requires i < e == 8
    ensures (b / Power2(i)) % 2 == ((b + 256 * rest) / Power2(i)) % 2
  {
    var m, n := Power2(i), Power2(e - 1 - i);
    Power2Add(i, e - 1 - i);
    Power2At8(e);
    assert 2 * Power2(e - 1) == Power2(e);
    LowBitOf(b, rest, m, n);
  }

  lemma LowBitOf(b: byte, rest: nat, m: nat, n: nat)
    requires m > 0 && m * n == 128
    ensures (b / m) % 2 == ((b + 256 * rest) / m) % 2
  {
    var q, r := b / m, b % m;
    calc {
      b + 256 * rest;
      m * q + r + 2 * ((m * n) * rest);
      { assert (m * n) * rest == m * (n * rest); }
      m * q + 2 * (m * (n * rest)) + r;
      m * (q + 2 * (n * rest)) + r;
    }
    ModUnique(m, b + 256 * rest, q + 2 * (n * rest), r);
  }

  lemma {:induction false} LittleEndianAppend(s: bytes, b: byte)
    ensures LittleEndian(s + [b]) == LittleEndian(s) + Power2(8 * |s|) * b
  {
    if s == [] {
      assert (s + [b])[1..] == [];
    } else {
      LittleEndianAppend(s[1..], b);
      assert (s + [b])[1..] == s[1..] + [b];
      Power2Shift(8, |s| - 1);
      var m := Power2(8 * (|s| - 1));
      assert 256 * (m * b) == (256 * m) * b;
    }
  }

  /** k >> pos */
  function ShiftRight(k: nat, pos: nat): nat {
    QuotientNonNegative(k, Power2(pos));
    k / Power2(pos)
  }

  lemma QuotientNonNegative(k: int, m: int)
    requires k >= 0 && m > 0
    ensures k / m >= 0
  {
  }

  /** Shifting right by pos + 1 is shifting by pos and then once more. */
  lemma ShiftOnce(k: nat, pos: nat)
    ensures ShiftRight(k, pos) / 2 == ShiftRight(k, pos + 1)
  {
    HalfQuotient(k, Power2(pos));
  }

  lemma HalfQuotient(k: int, m: int)
    requires m > 0
    ensures (k / m) / 2 == k / (2 * m)
  {
    var q, r := k / m, k % m;
    var h, b := q / 2, q % 2;
    calc {
      k;
      m * q + r;
      m * (2 * h + b) + r;
      (2 * m) * h + (m * b + r);
    }
    assert 0 <= m * b + r < 2 * m;
    ModUnique(2 * m, k, h, m * b + r);
  }
}
