/** The field of integers modulo 2^255 - 19, as the documented meaning of the field.Element
    operations that crypto.go uses: elements are canonical residues, Invert(0) is 0, SetBytes reads
    32 little-endian bytes with the top bit ignored, Bytes writes the canonical residue. */
module Field25519 {
  import opened Modular
  import opened Bytes

  type Modulus = n: int | n > 0x1_0000_0000_0000 witness 0x1_0000_0000_0001

  /** The number with the little-endian bytes of middle between 237 and 127. */
  function ModulusOf(middle: bytes): int {
    LittleEndian([237] + middle + [127])
  }

  function Ones(n: nat): (b: bytes)
    ensures |b| == n
  {
    seq(n, _ => 255)
  }

  lemma {:induction false} LittleEndianOnes(n: nat)
    ensures LittleEndian(Ones(n)) == Power2(8 * n) - 1
  {
    if n > 0 {
      LittleEndianOnes(n - 1);
      assert Ones(n)[1..] == Ones(n - 1);
      Power2Shift(8, n - 1);
    }
  }

  lemma ModulusValue(n: nat)
    requires n == 30
    ensures ModulusOf(Ones(n)) == TWO_255 - 19
  {
    assert ([237] + Ones(n) + [127])[1..] == Ones(n) + [127];
    LittleEndianOnes(n);
    LittleEndianAppend(Ones(n), 127);
    Power2At255(8 * n + 15);
    Power2Shift(8, n);
    Power2Halves(8 * n + 8);
    Power2Halves(8 * n + 11);
  }

  function ModulusFor(n: nat): Modulus
    requires n == 30
  {
    ModulusValue(n);
    ModulusOf(Ones(n))
  }

  /** The modulus. It is given by its bytes, and their number as a length, because reasoning modulo a
      large literal is slow; PIs gives the value where it matters. */
  const P: Modulus := ModulusFor(|Zeros(30)|)

  lemma PIs()
    ensures P == TWO_255 - 19
  {
    ModulusValue(|Zeros(30)|);
  }

  type Element = x: int | 0 <= x < P

  function Add(a: Element, b: Element): Element { (a + b) % P }
  function Sub(a: Element, b: Element): Element { (a - b) % P }
  function Neg(a: Element): Element { (0 - a) % P }
  function Mul(a: Element, b: Element): Element { (a * b) % P }
  function Square(a: Element): Element { Mul(a, a) }
  function Mult32(a: Element, n: nat): Element { (a * n) % P }
  function Invert(a: Element): Element { InverseFrom(P, a) }

  // Each operation agrees with its integer counterpart on any representatives of its arguments.

  lemma AddRep(a: Element, a': int, b: Element, b': int)
    requires Cong(P, a, a') && Cong(P, b, b')
    ensures Cong(P, Add(a, b), a' + b')
  {
    CongMod(P, a + b);
    CongAdd(P, a, a', b, b');
    CongTrans(P, Add(a, b), a + b, a' + b');
  }

  lemma SubRep(a: Element, a': int, b: Element, b': int)
    requires Cong(P, a, a') && Cong(P, b, b')
    ensures Cong(P, Sub(a, b), a' - b')
  {
    CongMod(P, a - b);
    CongSub(P, a, a', b, b');
    CongTrans(P, Sub(a, b), a - b, a' - b');
  }

  lemma NegRep(a: Element, a': int)
    requires Cong(P, a, a')
    ensures Cong(P, Neg(a), -a')
  {
    CongMod(P, 0 - a);
    CongSub(P, 0, 0, a, a');
    CongTrans(P, Neg(a), 0 - a, -a');
  }

  lemma MulRep(a: Element, a': int, b: Element, b': int)
    requires Cong(P, a, a') && Cong(P, b, b')
    ensures Cong(P, Mul(a, b), a' * b')
  {
    CongMod(P, a * b);
    CongMul(P, a, a', b, b');
    CongTrans(P, Mul(a, b), a * b, a' * b');
  }

  lemma Mult32Rep(a: Element, a': int, n: nat)
    requires Cong(P, a, a')
    ensures Cong(P, Mult32(a, n), a' * n)
  {
    CongMod(P, a * n);
    CongMul(P, a, a', n, n);
    CongTrans(P, Mult32(a, n), a * n, a' * n);
  }

  lemma Self(a: int)
    ensures Cong(P, a, a)
  {
  }

  /** An element is congruent to zero only if it is zero. */
  lemma ZeroRep(a: Element)
    ensures Cong(P, a, 0) <==> a == 0
  {
    if Cong(P, a, 0) { CongUnique(P, a, 0); }
  }

  lemma InvertCorrect(a: Element)
    requires IsPrime(P) && a != 0
    ensures Cong(P, a * Invert(a), 1)
  {
    InverseCorrect(P, a);
  }

  /** The ratio x / z is the element c whenever x == c * z and z is not zero. */
  lemma RatioCorrect(x: Element, z: Element, c: Element)
    requires IsPrime(P) && z != 0 && Cong(P, x, c * z)
    ensures Mul(x, Invert(z)) == c
  {
    InvertCorrect(z);
    CongRatio(P, x, z, Invert(z), c);
    CongMod(P, x * Invert(z));
    CongTrans(P, Mul(x, Invert(z)), x * Invert(z), c);
    CongUnique(P, Mul(x, Invert(z)), c);
  }

  // ------------------------------------------------------------------ encodings

  const POINT_SIZE := 32

  /** SetBytes: little-endian, ignoring the most significant bit, reduced modulo P. */
  function SetBytes(s: bytes): Element
    requires |s| == POINT_SIZE
  {
    (LittleEndian(s) % TWO_255) % P
  }

  /** The top bit is ignored. */
  lemma SetBytesIgnoresTopBit(s: bytes)
    requires |s| == POINT_SIZE
    ensures SetBytes(s) == SetBytes(s[31 := s[31] % 128])
  {
    var t := s[31 := s[31] % 128];
    assert s == s[..31] + [s[31]] && t == s[..31] + [s[31] % 128];
    LittleEndianAppend(s[..31], s[31]);
    LittleEndianAppend(s[..31], s[31] % 128);
    TopBit(8 * |s[..31]|, LittleEndian(s[..31]), s[31]);
  }

  lemma TopBit(n: nat, low: nat, top: byte)
    requires n == 248
    ensures (low + Power2(n) * top) % TWO_255 == (low + Power2(n) * (top % 128)) % TWO_255
  {
    Power2At255(n + 7);
    Power2Halves(n);
    Power2Halves(n + 3);
    var m := Power2(n);
    assert low + m * top == low + m * (top % 128) + (128 * m) * (top / 128);
    CongWitness(TWO_255, low + m * top, low + m * (top % 128), top / 128);
    CongSameMod(TWO_255, low + m * top, low + m * (top % 128));
  }

  /** Without the top bit, the encoding may be any representative of the element below 2^255. */
  lemma SetBytesValue(s: bytes)
    requires |s| == POINT_SIZE && s[31] < 128
    ensures Cong(P, SetBytes(s), LittleEndian(s))
    ensures LittleEndian(s) < P ==> SetBytes(s) == LittleEndian(s)
  {
    assert s == s[..31] + [s[31]];
    LittleEndianAppend(s[..31], s[31]);
    LittleEndianBound(s[..31]);
    TopBelow(8 * |s[..31]|, LittleEndian(s[..31]), s[31]);
    ModUnique(TWO_255, LittleEndian(s), 0, LittleEndian(s));
    CongMod(P, LittleEndian(s));
    if LittleEndian(s) < P { ModUnique(P, LittleEndian(s), 0, LittleEndian(s)); }
  }

  lemma TopBelow(n: nat, low: nat, top: byte)
    requires n == 248 && low < Power2(n) && top < 128
    ensures low + Power2(n) * top < TWO_255
  {
    Power2At255(n + 7);
    Power2Halves(n);
    Power2Halves(n + 3);
    assert Power2(n) * (127 - top) >= 0;
  }

  function ToBytes(a: Element): (s: bytes)
    ensures |s| == POINT_SIZE
  {
    FromNat(a, POINT_SIZE)
  }

  lemma ToBytesValue(a: Element, n: nat)
    requires n == POINT_SIZE
    ensures LittleEndian(FromNat(a, n)) == a
  {
    PIs();
    LittleEndianFromNat(a, n);
    Power2At255(8 * n - 1);
    ModUnique(Power2(8 * n), a, 0, a);
  }

  lemma SetBytesToBytes(a: Element)
    ensures SetBytes(ToBytes(a)) == a
  {
    PIs();
    ToBytesValue(a, POINT_SIZE);
    ModUnique(TWO_255, a, 0, a);
    ModUnique(P, a, 0, a);
  }

  lemma ToBytesInjective(a: Element, b: Element)
    requires ToBytes(a) == ToBytes(b)
    ensures a == b
  {
    SetBytesToBytes(a);
    SetBytesToBytes(b);
  }
}
