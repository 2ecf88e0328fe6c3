/** x25519ScalarMult of crypto.go: clamping and the 255-step loop with delayed conditional swaps. */
module X25519 {
  import opened Modular
  import opened Bytes
  import opened Heap
  import opened Errors
  import opened Field25519
  import opened XGroup
  import opened XLadder

  const SCALAR_SIZE := 32

  /** e[0] &= 248; e[31] &= 127; e[31] |= 64 */
  function Clamp(s: bytes): (e: bytes)
    requires |s| == SCALAR_SIZE
    ensures |e| == SCALAR_SIZE
  {
    [s[0] - s[0] % 8] + s[1..SCALAR_SIZE - 1] + [s[SCALAR_SIZE - 1] % 64 + 64]
  }

  function ClampedScalar(s: bytes): nat
    requires |s| == SCALAR_SIZE
  {
    LittleEndian(Clamp(s))
  }

  /** What scalar multiplication returns: the RFC ladder on the clamped scalar. */
  function ScalarMult(scalar: bytes, point: bytes): Result<bytes> {
    if |scalar| != SCALAR_SIZE then Err({ErrInvalidInput})
    else if |point| != POINT_SIZE then Err({ErrAbort})
    else Ok(ToBytes(LadderOutput(ClampedScalar(scalar), SetBytes(point))))
  }

  // ------------------------------------------------------------------ clamped scalars

  ghost predicate IsClamped(k: nat) {
    k % 8 == 0 && TWO_255 / 2 <= k < TWO_255
  }

  lemma ClampedRange(s: bytes)
    requires |s| == SCALAR_SIZE
    ensures IsClamped(ClampedScalar(s))
  {
    var e := Clamp(s);
    assert e[0] % 8 == 0;
    LowBitsClear(e);
    var low, top := e[..|e| - 1], e[|e| - 1];
    TopBitsSet(e, low, top);
  }

  lemma LowBitsClear(e: bytes)
    requires |e| > 0 && e[0] % 8 == 0
    ensures LittleEndian(e) % 8 == 0
  {
  }

  lemma TopBitsSet(e: bytes, low: bytes, top: byte)
    requires e == low + [top] && |low| == 31 && 64 <= top < 128
    ensures TWO_255 / 2 <= LittleEndian(e) < TWO_255
  {
    LittleEndianAppend(low, top);
    LittleEndianBound(low);
    TopByte(8 * |low|, LittleEndian(low), top);
  }

  lemma TopByte(n: nat, low: nat, top: byte)
    requires n == 248 && low < Power2(n) && 64 <= top < 128
    ensures TWO_255 / 2 <= low + Power2(n) * top < TWO_255
  {
    Power2At255(n + 7);
    Power2Halves(n);
    Power2Halves(n + 3);
  }

  /** Clamping sets bit 254, clears bit 255 and the three lowest bits, and keeps every other bit. */
  lemma ClampedValue(s: bytes)
    requires |s| == SCALAR_SIZE
    ensures ClampedScalar(s) == TWO_255 / 2 + 8 * ((LittleEndian(s) % (TWO_255 / 2)) / 8)
  {
    var low, top := s[..31], s[31];
    assert s == low + [top];
    LittleEndianAppend(low, top);
    LittleEndianBound(low);
    var low' := [s[0] - s[0] % 8] + s[1..31];
    assert Clamp(s) == low' + [top % 64 + 64];
    LittleEndianAppend(low', top % 64 + 64);
    assert low[1..] == s[1..31] == low'[1..];
    ClampArithmetic(8 * |low|, LittleEndian(low), s[0], LittleEndian(s[1..31]), top);
  }

  lemma ClampArithmetic(n: nat, low: nat, first: byte, rest: nat, top: byte)
    requires n == 248 && low == first + 256 * rest && low < Power2(n)
    ensures low - first % 8 + Power2(n) * (top % 64 + 64) == TWO_255 / 2 + 8 * (((low + Power2(n) * top) % (TWO_255 / 2)) / 8)
  {
    TopPower(n);
    var m, t := Power2(n), top % 64;
    SplitTop(m, low, top / 64, t);
    ModUnique(TWO_255 / 2, low + m * top, top / 64, low + m * t);
    DropThreeBits(Power2(n - 3), m, first, rest, t);
    Distribute(m, 64, 1, t);
  }

  lemma TopPower(n: nat)
    requires n == 248
    ensures Power2(n) * 64 == TWO_255 / 2 && Power2(n) == 8 * Power2(n - 3)
  {
    Power2At255(n + 7);
    Power2Halves(n);
    Power2Halves(n + 3);
    Power2Halves(n - 3);
  }

  lemma SplitTop(m: int, low: int, q: int, t: int)
    requires 0 <= low < m && 0 <= t < 64
    ensures low + m * (64 * q + t) == (m * 64) * q + (low + m * t)
    ensures 0 <= low + m * t < m * 64
  {
    Distribute(m, 64, q, t);
    RemainderBound(m, 64, t);
  }

  lemma DropThreeBits(m8: nat, m: nat, first: byte, rest: nat, t: nat)
    requires m == 8 * m8
    ensures var r := first + 256 * rest + m * t; 8 * (r / 8) == r - first % 8
  {
    var q := first / 8 + 32 * rest + m8 * t;
    assert m * t == 8 * (m8 * t);
    ModUnique(8, first + 256 * rest + m * t, q, first % 8);
  }

  /** Both length errors, and success for every other input. */
  lemma ScalarMultErrors(s: bytes, point: bytes)
    ensures |s| != 32 ==> ScalarMult(s, point) == Err({ErrInvalidInput})
    ensures |s| == 32 && |point| != 32 ==> ScalarMult(s, point) == Err({ErrAbort})
    ensures |s| == 32 && |point| == 32 ==> ScalarMult(s, point).Ok? && |ScalarMult(s, point).value| == 32
  {
  }

  // ------------------------------------------------------------------ the loop

  /** 121666 E + BB is AA + 121665 E, because E = AA - BB. */
  lemma ScheduleIdentity(aa: Element, bb: Element)
    ensures Add(bb, Mult32(Sub(aa, bb), 121666)) == Add(aa, Mult32(Sub(aa, bb), 121665))
  {
    ScheduleSide(bb, aa, bb, 121666);
    ScheduleSide(aa, aa, bb, 121665);
    var s: int, t: int := Add(bb, Mult32(Sub(aa, bb), 121666)), Add(aa, Mult32(Sub(aa, bb), 121665));
    SameSides(P, s, t, aa, bb);
    CongUnique(P, s, t);
  }

  lemma SameSides(p: int, s: int, t: int, aa: int, bb: int)
    requires p > 0 && Cong(p, s, bb + (aa - bb) * 121666) && Cong(p, t, aa + (aa - bb) * 121665)
    ensures Cong(p, s, t)
  {
    var v := bb + (aa - bb) * 121666;
    assert v == aa + (aa - bb) * 121665;
    CongSym(p, t, v);
    CongTrans(p, s, v, t);
  }

  lemma ScheduleSide(base: Element, aa: Element, bb: Element, n: nat)
    ensures Cong(P, Add(base, Mult32(Sub(aa, bb), n)), base + (aa - bb) * n)
  {
    Self(aa);
    Self(bb);
    Self(base);
    SubRep(aa, aa, bb, bb);
    Mult32Rep(Sub(aa, bb), aa - bb, n);
    AddRep(base, base, Mult32(Sub(aa, bb), n), (aa - bb) * n);
  }

  lemma SubSquareSym(a: Element, b: Element)
    ensures Square(Sub(a, b)) == Square(Sub(b, a))
  {
    Self(a);
    Self(b);
    SubRep(a, a, b, b);
    SubRep(b, b, a, a);
    MulRep(Sub(a, b), a - b, Sub(a, b), a - b);
    MulRep(Sub(b, a), b - a, Sub(b, a), b - a);
    NegatedSquare(a, b);
    var s: int, t: int, v: int := Square(Sub(a, b)), Square(Sub(b, a)), (a - b) * (a - b);
    CongSym(P, t, v);
    CongTrans(P, s, v, t);
    CongUnique(P, s, t);
  }

  lemma NegatedSquare(a: int, b: int)
    ensures (a - b) * (a - b) == (b - a) * (b - a)
  {
  }

  /** Differential addition does not depend on the order of the two points. */
  lemma XDiffAddSym(u: Element, r0: Pair, r1: Pair)
    ensures XDiffAdd(u, r0, r1) == XDiffAdd(u, r1, r0)
  {
    var da := Mul(Sub(r1.x, r1.z), Add(r0.x, r0.z));
    var cb := Mul(Add(r1.x, r1.z), Sub(r0.x, r0.z));
    assert da == Mul(Add(r0.x, r0.z), Sub(r1.x, r1.z));
    assert cb == Mul(Sub(r0.x, r0.z), Add(r1.x, r1.z));
    SubSquareSym(da, cb);
  }

  /** The two register pairs (x2 : z2), (x3 : z3), exchanged when swap is set. */
  function Unswapped(x2: Element, z2: Element, x3: Element, z3: Element, swap: bool): (Pair, Pair) {
    if swap then (Pair(x3, z3), Pair(x2, z2)) else (Pair(x2, z2), Pair(x3, z3))
  }

  /** One bit of the textbook ladder, in terms of the pairs selected by the bit. */
  lemma LadderBit(u: Element, m: nat, b: nat)
    requires m > 0 && b == m % 2
    ensures var (r0, r1) := Ladder(u, m / 2, Start(u));
            var (s0, s1) := if b == 1 then (r1, r0) else (r0, r1);
            var next := (XDouble(s0), XDiffAdd(u, s0, s1));
            Ladder(u, m, Start(u)) == if b == 1 then (next.1, next.0) else next
  {
    var (r0, r1) := Ladder(u, m / 2, Start(u));
    XDiffAddSym(u, r0, r1);
  }

  lemma FirstBitSet(k: nat, pos: nat)
    requires TWO_255 / 2 <= k && pos <= 254
    ensures ShiftRight(k, pos) > 0
    decreases 254 - pos
  {
    if pos == 254 {
      Power2At255(pos + 1);
      if ShiftRight(k, pos) == 0 {
        ModUnique(Power2(pos), k, 0, k % Power2(pos));
        assert false;
      }
    } else {
      FirstBitSet(k, pos + 1);
      ShiftOnce(k, pos);
    }
  }

  lemma BeforeFirstBit(k: nat, n: nat)
    requires k < TWO_255 && n == 255
    ensures ShiftRight(k, n) == 0
  {
    Power2At255(n);
    ModUnique(Power2(n), k, 0, k);
  }

  /** The textbook pairs once the bits of e from 254 down to pos have been read. */
  ghost function PairsAt(u: Element, e: bytes, pos: nat): (Pair, Pair) {
    Ladder(u, ShiftRight(LittleEndian(e), pos), Start(u))
  }

  /** The bit e[pos/8] >> (pos&7) & 1. */
  function BitAt(e: bytes, pos: nat): bool
    requires |e| == SCALAR_SIZE && pos <= 254
  {
    ByteBit(e[pos / 8], pos % 8) == 1
  }

  function Exchange(r: (Pair, Pair), b: bool): (Pair, Pair) {
    if b then (r.1, r.0) else r
  }

  /** Doubling the first pair and adding the two. */
  function StepPairs(u: Element, s: (Pair, Pair)): (Pair, Pair) {
    (XDouble(s.0), XDiffAdd(u, s.0, s.1))
  }

  /** The pairs before and after bit pos of the clamped scalar e. */
  lemma LoopBit(u: Element, e: bytes, pos: nat)
    requires |e| == SCALAR_SIZE && IsClamped(LittleEndian(e)) && pos <= 254
    ensures var b := BitAt(e, pos);
            PairsAt(u, e, pos) == Exchange(StepPairs(u, Exchange(PairsAt(u, e, pos + 1), b)), b)
  {
    var k, b := LittleEndian(e), ByteBit(e[pos / 8], pos % 8);
    BitOfLittleEndian(e, pos);
    ShiftOnce(k, pos);
    FirstBitSet(k, pos);
    LadderBit(u, ShiftRight(k, pos), b);
  }

  /** Entry i of the table follows from entry i + 1 by bit i. */
  ghost predicate Linked(u: Element, e: bytes, table: seq<(Pair, Pair)>, i: nat)
    requires |e| == SCALAR_SIZE && |table| == 256 && i <= 254
  {
    table[i] == Exchange(StepPairs(u, Exchange(table[i + 1], BitAt(e, i))), BitAt(e, i))
  }

  /** The textbook pairs at every bit position, from the start at 255 to the result at 0. */
  ghost predicate IsTable(u: Element, e: bytes, table: seq<(Pair, Pair)>) {
    && |e| == SCALAR_SIZE && |table| == 256 && table[255] == Start(u)
    && forall i {:trigger Linked(u, e, table, i)} :: 0 <= i <= 254 ==> Linked(u, e, table, i)
  }

  lemma LadderZero(u: Element, m: nat)
    requires m == 0
    ensures Ladder(u, m, Start(u)) == Start(u)
  {
  }

  lemma PairsAtStart(u: Element, e: bytes, n: nat)
    requires |e| == SCALAR_SIZE && IsClamped(LittleEndian(e)) && n == 255
    ensures PairsAt(u, e, n) == Start(u)
  {
    BeforeFirstBit(LittleEndian(e), n);
    LadderZero(u, ShiftRight(LittleEndian(e), n));
  }

  lemma ShiftByZero(k: nat)
    ensures ShiftRight(k, 0) == k
  {
  }

  lemma PairsAtEnd(u: Element, e: bytes)
    ensures PairsAt(u, e, 0) == Ladder(u, LittleEndian(e), Start(u))
  {
    ShiftByZero(LittleEndian(e));
  }

  lemma LadderTable(u: Element, e: bytes) returns (table: seq<(Pair, Pair)>)
    requires |e| == SCALAR_SIZE && IsClamped(LittleEndian(e))
    ensures IsTable(u, e, table) && table[0] == Ladder(u, LittleEndian(e), Start(u))
  {
    var n: nat := 255;
    table := seq(n + 1, i requires 0 <= i <= n => PairsAt(u, e, i));
    PairsAtStart(u, e, n);
    PairsAtEnd(u, e);
    forall i | 0 <= i <= 254 ensures Linked(u, e, table, i) {
      LoopBit(u, e, i);
    }
  }

  /** The in-place register schedule of one loop iteration, after the swap. */
  method StepRegisters(x1: Element, x2In: Element, z2In: Element, x3In: Element, z3In: Element)
    returns (x2: Element, z2: Element, x3: Element, z3: Element)
    ensures Pair(x2, z2) == XDouble(Pair(x2In, z2In))
    ensures Pair(x3, z3) == XDiffAdd(x1, Pair(x2In, z2In), Pair(x3In, z3In))
    ensures forall a: array<byte> :: Tracked(a) && fresh(a) ==> Zeroed(a)
  {
    x2, z2, x3, z3 := x2In, z2In, x3In, z3In;
    var tmp0: Element, tmp1: Element;
    tmp0 := Sub(x3, z3);
    tmp1 := Sub(x2, z2);
    x2 := Add(x2, z2);
    z2 := Add(x3, z3);
    z3 := Mul(tmp0, x2);
    z2 := Mul(z2, tmp1);
    tmp0 := Square(tmp1);
    tmp1 := Square(x2);
    x3 := Add(z3, z2);
    z2 := Sub(z3, z2);
    x2 := Mul(tmp1, tmp0);
    ScheduleIdentity(tmp1, tmp0);
    tmp1 := Sub(tmp1, tmp0);
    z2 := Square(z2);

    z3 := Mult32(tmp1, 121666);
    x3 := Square(x3);
    tmp0 := Add(tmp0, z3);
    z3 := Mul(x1, z2);
    z2 := Mul(tmp1, tmp0);
  }

  /** One iteration: the swap delayed from the last bit is combined with this one's, then the schedule
      runs; the swap that undoes this one is left to the next iteration. */
  method LadderIteration(e: bytes, x1: Element, pos: nat, x2In: Element, z2In: Element, x3In: Element, z3In: Element, swapIn: bool,
                         ghost table: seq<(Pair, Pair)>)
    returns (x2: Element, z2: Element, x3: Element, z3: Element, swap: bool)
    requires IsTable(x1, e, table) && pos <= 254
    requires Unswapped(x2In, z2In, x3In, z3In, swapIn) == table[pos + 1]
    ensures Unswapped(x2, z2, x3, z3, swap) == table[pos]
    ensures forall a: array<byte> :: Tracked(a) && fresh(a) ==> Zeroed(a)
  {
    x2, z2, x3, z3 := x2In, z2In, x3In, z3In;
    var b := BitAt(e, pos);
    if swapIn != b {
      x2, x3 := x3, x2;
      z2, z3 := z3, z2;
    }
    swap := b;
    assert Linked(x1, e, table, pos);
    x2, z2, x3, z3 := StepRegisters(x1, x2, z2, x3, z3);
  }

  /** The loop over the clamped scalar: bit pos is read as e[pos/8] >> (pos&7) & 1, and each swap is
      delayed to the next iteration. After bit pos the registers hold entry pos of the table. */
  method LadderLoop(e: bytes, x1: Element, ghost table: seq<(Pair, Pair)>) returns (x2: Element, z2: Element)
    requires IsTable(x1, e, table)
    ensures Pair(x2, z2) == table[0].0
    ensures forall a: array<byte> :: Tracked(a) && fresh(a) ==> Zeroed(a)
  {
    var x3: Element, z3: Element;
    x2, z2, x3, z3 := 1, 0, x1, 1;
    var swap := false;
    var pos := 254;
    while pos >= 0
      invariant -1 <= pos <= 254
      invariant Unswapped(x2, z2, x3, z3, swap) == table[pos + 1]
      invariant forall a: array<byte> :: Tracked(a) && fresh(a) ==> Zeroed(a)
    {
      x2, z2, x3, z3, swap := LadderIteration(e, x1, pos, x2, z2, x3, z3, swap, table);
      pos := pos - 1;
    }
    if swap {
      x2, x3 := x3, x2;
      z2, z3 := z3, z2;
    }
  }

  /** x25519ScalarMult */
  method X25519ScalarMult(scalar: bytes, point: bytes) returns (r: Result<bytes>)
    ensures r == ScalarMult(scalar, point)
    ensures forall a: array<byte> :: Tracked(a) && fresh(a) ==> Zeroed(a)
  {
    if |scalar| != SCALAR_SIZE {
      return Err({ErrInvalidInput});
    }
    if |point| != POINT_SIZE {
      return Err({ErrAbort});
    }
    var e := new byte[SCALAR_SIZE](i requires 0 <= i < SCALAR_SIZE => scalar[i]);
    e[0] := e[0] - e[0] % 8;
    e[31] := e[31] % 128;
    e[31] := if e[31] < 64 then e[31] + 64 else e[31];
    assert e[..] == Clamp(scalar);
    ClampedRange(scalar);
    var x1 := SetBytes(point);
    ghost var table := LadderTable(x1, e[..]);
    var x2, z2 := LadderLoop(e[..], x1, table);
    z2 := Invert(z2);
    x2 := Mul(x2, z2);
    var out := ToBytes(x2);
    ClearBytes(e);
    return Ok(out);
  }
}
