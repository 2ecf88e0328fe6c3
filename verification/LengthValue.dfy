/** length_value.go: canonical LEB128 lengths and length-value concatenation. */
module LengthValue {
  import opened Bytes
  import opened Errors
  import opened Modular

  /** The canonical encoding: 7-bit groups, least significant first, no superfluous last group. */
  function Leb(n: nat): (s: bytes)
    ensures |s| > 0
  {
    if n < 128 then [n] else [n % 128 + 128] + Leb(n / 128)
  }

  function Pow128(k: nat): (r: nat)
    ensures r > 0
  {
    if k == 0 then 1 else 128 * Pow128(k - 1)
  }

  method AppendLEB128(dst: bytes, n: nat) returns (out: bytes)
    ensures out == dst + Leb(n)
  {
    var m := n;
    out := dst;
    while true
      invariant out + Leb(m) == dst + Leb(n)
      decreases m
    {
      ghost var before, m0 := out, m;
      var b := m % 128;
      m := m / 128;
      if m != 0 {
        b := b + 128;
      }
      out := out + [b];
      if m == 0 {
        assert Leb(m0) == [b];
        return;
      }
      assert Leb(m0) == [b] + Leb(m);
      assert out + Leb(m) == before + Leb(m0);
    }
  }

  /** The reader's result on the bytes s: a value and the number of bytes it took. `first` is false
      once a continuation byte has been read, when a final zero group is not canonical. */
  function ReadLeb(s: bytes, max: nat, first: bool): Option<(nat, nat)>
    decreases max
  {
    if max == 0 || s == [] then None
    else if s[0] < 128 then
      if s[0] == 0 && !first then None else Some((s[0], 1))
    else
      match ReadLeb(s[1..], max - 1, false)
      case None => None
      case Some((v, l)) => Some((s[0] - 128 + 128 * v, l + 1))
  }

  /** What the loop has accumulated so far, combined with the rest of the read. */
  function Combine(acc: nat, i: nat, rest: Option<(nat, nat)>): Option<(nat, nat)> {
    match rest
    case None => None
    case Some((v, l)) => Some((acc + Pow128(i) * v, l + i))
  }

  function ToRead(off: nat, r: Option<(nat, nat)>): Result<(nat, nat)> {
    match r
    case None => Err({ErrMessage})
    case Some((v, l)) => Ok((v, off + l))
  }

  lemma CombineStep(acc: nat, i: nat, b: nat, rest: Option<(nat, nat)>)
    requires b < 128
    ensures var shifted := match rest case None => None case Some((v, l)) => Some((b + 128 * v, l + 1));
            Combine(acc, i, shifted) == Combine(acc + Pow128(i) * b, i + 1, rest)
  {
    if rest.Some? {
      var v := rest.value.0;
      assert Pow128(i) * (b + 128 * v) == Pow128(i) * b + (128 * Pow128(i)) * v;
    }
  }

  lemma AccumulatorBound(acc: nat, i: nat, b: nat)
    requires acc < Pow128(i) && b < 128
    ensures acc + Pow128(i) * b < Pow128(i + 1)
    ensures acc + Pow128(i) * b < Pow128(i) <==> b == 0
  {
    DigitBound(Pow128(i), acc, b);
  }

  lemma DigitBound(m: int, acc: int, b: int)
    requires 0 <= acc < m && 0 <= b < 128
    ensures acc + m * b < 128 * m
    ensures acc + m * b < m <==> b == 0
  {
    assert m * b + m * (127 - b) == 127 * m;
    assert m * (127 - b) >= 0;
    if b > 0 {
      assert m * b == m + m * (b - 1);
      assert m * (b - 1) >= 0;
    }
  }

  /** The bytes from an offset on, none beyond the end. */
  function From(buf: bytes, start: nat): bytes {
    if start <= |buf| then buf[start..] else []
  }

  /** readLEB128. An offset beyond the end fails the first check of the loop, or there is no iteration. */
  method ReadLEB128(buf: bytes, start: nat, maxBytes: nat) returns (r: Result<(nat, nat)>)
    ensures r == ToRead(start, ReadLeb(From(buf, start), maxBytes, true))
  {
    if start > |buf| {
      return Err({ErrMessage});
    }
    r := ReadGroups(buf, start, maxBytes);
  }

  /** The loop of readLEB128. */
  method ReadGroups(buf: bytes, start: nat, maxBytes: nat) returns (r: Result<(nat, nat)>)
    requires start <= |buf|
    ensures r == ToRead(start, ReadLeb(buf[start..], maxBytes, true))
  {
    var n: nat, off: nat := 0, start;
    for i := 0 to maxBytes
      invariant off == start + i <= |buf|
      invariant n < Pow128(i)
      invariant ReadLeb(buf[start..], maxBytes, true) == Combine(n, i, ReadLeb(buf[off..], maxBytes - i, i == 0))
    {
      if off >= |buf| {
        return Err({ErrMessage});
      }
      var b := buf[off];
      ghost var rest := buf[off..];
      off := off + 1;
      assert rest[1..] == buf[off..];
      ghost var acc := n;
      AccumulatorBound(acc, i, b % 128);
      n := n + Pow128(i) * (b % 128);
      if b < 128 {
        if i > 0 && n < Pow128(i) {
          return Err({ErrMessage});
        }
        return Ok((n, off));
      }
      CombineStep(acc, i, b % 128, ReadLeb(buf[off..], maxBytes - i - 1, false));
    }
    return Err({ErrMessage});
  }

  method Leb128LenInt(n: nat) returns (out: nat)
    ensures out == |Leb(n)|
  {
    out := 1;
    var m := n;
    while m >= 128
      invariant |Leb(n)| == out - 1 + |Leb(m)|
    {
      m := m / 128;
      out := out + 1;
    }
  }

  // ------------------------------------------------------- reading is the inverse of writing

  /** A read succeeds with n after l bytes exactly if the input starts with the canonical encoding of
      n, of l bytes, within the limit. */
  lemma {:induction false} ReadExact(s: bytes, max: nat, first: bool, n: nat, l: nat)
    ensures ReadLeb(s, max, first) == Some((n, l)) <==>
            Leb(n) <= s && l == |Leb(n)| <= max && (first || n > 0)
    decreases max
  {
    if max > 0 && s != [] {
      if s[0] >= 128 {
        if ReadLeb(s, max, first) == Some((n, l)) {
          var (v, k) := ReadLeb(s[1..], max - 1, false).value;
          ReadExact(s[1..], max - 1, false, v, k);
          LebCons(s, n, v);
        }
        if Leb(n) <= s && l == |Leb(n)| <= max {
          assert Leb(n)[0] == s[0];
          assert n >= 128;
          LebCons(s, n, n / 128);
          ReadExact(s[1..], max - 1, false, n / 128, l - 1);
        }
      } else if Leb(n) <= s {
        assert Leb(n)[0] == s[0];
      }
    }
  }

  /** The i-th byte holds the i-th base-128 digit, with the top bit on every byte but the last. */
  lemma {:induction false} LebDigits(n: nat, i: nat)
    requires i < |Leb(n)|
    ensures Leb(n)[i] == (n / Pow128(i)) % 128 + if i < |Leb(n)| - 1 then 128 else 0
  {
    if n >= 128 && i > 0 {
      LebDigits(n / 128, i - 1);
      DivideTwice(n, 128, Pow128(i - 1));
    }
  }

  lemma DivideTwice(n: nat, a: nat, b: nat)
    requires a > 0 && b > 0
    ensures (n / a) / b == n / (a * b)
  {
    var q, r := n / a, n % a;
    var s, t := q / b, q % b;
    assert n == a * q + r && q == b * s + t;
    NestedQuotient(a, b, s, t, r);
    ModUnique(a * b, n, s, a * t + r);
  }

  lemma NestedQuotient(a: int, b: int, s: int, t: int, r: int)
    requires 0 <= r < a && 0 <= t < b
    ensures a * (b * s + t) + r == (a * b) * s + (a * t + r) && 0 <= a * t + r < a * b
  {
    Distribute(a, b, s, t);
    RemainderBound(a, b, t);
  }

  /** Reading past a continuation byte. */
  lemma LebCons(s: bytes, n: nat, v: nat)
    requires s != [] && s[0] >= 128 && n == s[0] - 128 + 128 * v && v > 0
    ensures Leb(n) == [s[0]] + Leb(v)
    ensures Leb(n) <= s <==> Leb(v) <= s[1..]
  {
    assert n / 128 == v && n % 128 + 128 == s[0];
    assert s == [s[0]] + s[1..];
    if Leb(n) <= s { assert Leb(v) == Leb(n)[1..]; }
  }

  /** At any offset, every canonical encoding reads back to its value and length, and every accepted
      read consumed exactly the canonical encoding of its value. */
  lemma LebRoundTrip(pre: bytes, n: nat, post: bytes, max: nat)
    requires max > 0 && n < Pow128(max)
    ensures ReadLeb((pre + Leb(n) + post)[|pre|..], max, true) == Some((n, |Leb(n)|))
  {
    assert (pre + Leb(n) + post)[|pre|..] == Leb(n) + post;
    LebLength(n, max);
    ReadExact(Leb(n) + post, max, true, n, |Leb(n)|);
  }

  lemma SmallFits(k: nat)
    requires k > 0
    ensures Pow128(k) >= 128
  {
  }

  lemma {:induction false} LebLength(n: nat, k: nat)
    ensures |Leb(n)| <= k <==> n < Pow128(k) && k > 0
  {
    if k == 0 {
    } else if n >= 128 && k > 1 {
      LebLength(n / 128, k - 1);
    } else if n < 128 {
      SmallFits(k);
    }
  }

  /** Two canonical encodings that start the same bytes are the same: the code is prefix-free. */
  lemma {:induction false} LebPrefixFree(a: nat, b: nat, s: bytes)
    requires Leb(a) <= s && Leb(b) <= s
    ensures a == b
  {
    assert Leb(a)[0] == s[0] == Leb(b)[0];
    if a >= 128 && b >= 128 {
      assert Leb(a / 128) == Leb(a)[1..] <= s[1..];
      assert Leb(b / 128) == Leb(b)[1..] <= s[1..];
      LebPrefixFree(a / 128, b / 128, s[1..]);
    }
  }

  // ------------------------------------------------------- length-value concatenation

  function Lv(x: bytes): (s: bytes)
    ensures |s| > |x|
  {
    Leb(|x|) + x
  }

  /** lengthValueLen */
  function LvLen(n: nat): nat {
    |Leb(n)| + n
  }

  function LvCat(xs: seq<bytes>): bytes {
    if xs == [] then [] else Lv(xs[0]) + LvCat(xs[1..])
  }

  lemma {:induction false} LvCatAppend(xs: seq<bytes>, x: bytes)
    ensures LvCat(xs + [x]) == LvCat(xs) + Lv(x)
  {
    if xs == [] {
      assert ([x])[1..] == [];
    } else {
      LvCatAppend(xs[1..], x);
      assert (xs + [x])[1..] == xs[1..] + [x];
    }
  }

  method AppendLengthValue(dst: bytes, data: bytes) returns (out: bytes)
    ensures out == dst + Lv(data)
  {
    out := AppendLEB128(dst, |data|);
    out := out + data;
  }

  /** lvCat: the first loop sizes the buffer, the second fills it; the size is exact. */
  method LvCatMethod(args: seq<bytes>) returns (out: bytes, total: nat)
    ensures out == LvCat(args) && total == |out|
  {
    total := 0;
    for i := 0 to |args|
      invariant total == |LvCat(args[..i])|
    {
      var width := Leb128LenInt(|args[i]|);
      total := total + width + |args[i]|;
      assert args[..i + 1] == args[..i] + [args[i]];
      LvCatAppend(args[..i], args[i]);
    }
    assert args[..|args|] == args;
    out := [];
    for i := 0 to |args|
      invariant out == LvCat(args[..i])
    {
      out := AppendLengthValue(out, args[i]);
      assert args[..i + 1] == args[..i] + [args[i]];
      LvCatAppend(args[..i], args[i]);
    }
  }

  lemma LvSplit(x: bytes, r: bytes, y: bytes, t: bytes)
    requires Lv(x) + r == Lv(y) + t
    ensures x == y && r == t
  {
    var s := Lv(x) + r;
    assert Leb(|x|) <= s by { assert s[..|Leb(|x|)|] == Leb(|x|); }
    assert Leb(|y|) <= s by { assert s[..|Leb(|y|)|] == Leb(|y|); }
    LebPrefixFree(|x|, |y|, s);
    var k := |Leb(|x|)|;
    assert x == s[k..k + |x|] == y;
    assert r == s[k + |x|..] == t;
  }

  /** Equal concatenations of equally many fields split into the same fields and the same rest. */
  lemma {:induction false} LvCatSplit(xs: seq<bytes>, r: bytes, ys: seq<bytes>, t: bytes)
    requires |xs| == |ys| && LvCat(xs) + r == LvCat(ys) + t
    ensures xs == ys && r == t
  {
    if xs == [] {
      assert LvCat(xs) + r == r && LvCat(ys) + t == t;
    } else {
      assert Lv(xs[0]) + (LvCat(xs[1..]) + r) == LvCat(xs) + r;
      assert Lv(ys[0]) + (LvCat(ys[1..]) + t) == LvCat(ys) + t;
      LvSplit(xs[0], LvCat(xs[1..]) + r, ys[0], LvCat(ys[1..]) + t);
      LvCatSplit(xs[1..], r, ys[1..], t);
      assert xs == [xs[0]] + xs[1..] && ys == [ys[0]] + ys[1..];
    }
  }

  /** lvCat is injective over lists of byte strings of any, possibly different, lengths. */
  lemma {:induction false} LvCatInjective(xs: seq<bytes>, ys: seq<bytes>)
    requires LvCat(xs) == LvCat(ys)
    ensures xs == ys
    decreases |xs|
  {
    if xs != [] && ys != [] {
      LvSplit(xs[0], LvCat(xs[1..]), ys[0], LvCat(ys[1..]));
      LvCatInjective(xs[1..], ys[1..]);
      assert xs == [xs[0]] + xs[1..] && ys == [ys[0]] + ys[1..];
    }
  }

  lemma ThreeFields(fields: seq<bytes>)
    requires |fields| == 3
    ensures LvCat(fields) == Lv(fields[0]) + (Lv(fields[1]) + Lv(fields[2]))
  {
    assert fields[1..][0] == fields[1] && fields[1..][1..] == fields[2..];
    assert fields[2..][0] == fields[2] && fields[2..][1..] == [];
    assert LvCat(fields[2..]) == Lv(fields[2]) + [];
  }
}
