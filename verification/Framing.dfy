/** caps.go and framing.go: the cap table shared by inputs and wire fields, and the message format. */
module Caps {

  const MAX_PASSWORD: nat := 4096
  const MAX_ID: nat := 4096
  const MAX_CONTEXT: nat := 1024
  const MAX_SESSION_ID: nat := 1024
  const MAX_ASSOCIATED_DATA: nat := 65536
  const POINT: nat := 32
  const TAG: nat := 64

  /** packageCapField: an upper bound, or an exact length. */
  datatype CapField = CapField(length: nat, exact: bool)

  predicate WithinInputCap(f: CapField, n: nat) {
    n <= f.length
  }

  predicate WithinMessageCap(f: CapField, n: nat) {
    if f.exact then n == f.length else n <= f.length
  }
}

module Framing {
  import opened Bytes
  import opened Errors
  import opened LengthValue
  import opened Caps

  const WIRE_FORMAT_V1: byte := 0xc1
  const WIRE_SUITE: byte := 0x02
  const ROLE_A: byte := 0x01
  const ROLE_B: byte := 0x02
  const ROLE_C: byte := 0x03
  const MAX_MESSAGE_LENGTH: nat := 131072
  const MAX_LEB128_BYTES: nat := 3
  const HEADER_SIZE: nat := 3

  datatype MessageSpec = MessageSpec(role: byte, fields: seq<CapField>)

  const SPEC_A := MessageSpec(ROLE_A, [CapField(MAX_SESSION_ID, false), CapField(POINT, true), CapField(MAX_ASSOCIATED_DATA, false)])
  const SPEC_B := MessageSpec(ROLE_B, [CapField(POINT, true), CapField(MAX_ASSOCIATED_DATA, false), CapField(TAG, true)])
  const SPEC_C := MessageSpec(ROLE_C, [CapField(TAG, true)])

  function Header(role: byte): bytes {
    [WIRE_FORMAT_V1, WIRE_SUITE, role]
  }

  function Encode(spec: MessageSpec, fields: seq<bytes>): bytes {
    Header(spec.role) + LvCat(fields)
  }

  /** The field that starts at s, and the number of bytes read. */
  function ReadField(s: bytes, f: CapField): Option<(bytes, nat)> {
    match ReadLeb(s, MAX_LEB128_BYTES, true)
    case None => None
    case Some((n, l)) =>
      if WithinMessageCap(f, n) && l + n <= |s| then Some((s[l..l + n], l + n)) else None
  }

  function DecodeFields(s: bytes, specs: seq<CapField>): Option<seq<bytes>>
    decreases |specs|
  {
    if specs == [] then
      if s == [] then Some([]) else None
    else
      match ReadField(s, specs[0])
      case None => None
      case Some((x, l)) =>
        if l > |s| then None
        else
          match DecodeFields(s[l..], specs[1..])
          case None => None
          case Some(xs) => Some([x] + xs)
  }

  predicate GoodHeader(input: bytes, role: byte) {
    HEADER_SIZE <= |input| <= MAX_MESSAGE_LENGTH && input[..HEADER_SIZE] == Header(role)
  }

  function Decode(spec: MessageSpec, input: bytes): Result<seq<bytes>> {
    if !GoodHeader(input, spec.role) then Err({ErrMessage})
    else
      match DecodeFields(input[HEADER_SIZE..], spec.fields)
      case None => Err({ErrMessage})
      case Some(fs) => Ok(fs)
  }

  // ------------------------------------------------------- the code

  method EncodeMessage(spec: MessageSpec, fields: seq<bytes>) returns (out: bytes)
    requires |fields| == |spec.fields|
    ensures out == Encode(spec, fields)
  {
    out := [WIRE_FORMAT_V1, WIRE_SUITE, spec.role];
    for i := 0 to |fields|
      invariant out == Header(spec.role) + LvCat(fields[..i])
    {
      out := AppendLengthValue(out, fields[i]);
      assert fields[..i + 1] == fields[..i] + [fields[i]];
      LvCatAppend(fields[..i], fields[i]);
    }
    assert fields[..|fields|] == fields;
  }

  class MessageReader {
    const buf: bytes
    var off: nat

    constructor (input: bytes, start: nat)
      requires start <= |input|
      ensures buf == input && off == start
    {
      buf, off := input, start;
    }

    /** readField: on success the offset moves past the field; on failure it does not move. */
    method Read(f: CapField) returns (r: Result<bytes>)
      requires off <= |buf|
      modifies this
      ensures off <= |buf|
      ensures match ReadField(buf[old(off)..], f)
              case None => r == Err({ErrMessage}) && off == old(off)
              case Some((x, l)) => r == Ok(x) && off == old(off) + l
    {
      var head := ReadLEB128(buf, off, MAX_LEB128_BYTES);
      if head.Err? {
        return Err(head.error);
      }
      var (n, next) := head.value;
      ReadExact(buf[off..], MAX_LEB128_BYTES, true, n, next - off);
      if !WithinMessageCap(f, n) {
        return Err({ErrMessage});
      }
      if |buf| - next < n {
        return Err({ErrMessage});
      }
      var x := buf[next..next + n];
      assert x == buf[off..][next - off..next - off + n];
      off := next + n;
      return Ok(x);
    }

    method Done() returns (r: Result<()>)
      ensures r == if off == |buf| then Ok(()) else Err({ErrMessage})
    {
      if off != |buf| {
        return Err({ErrMessage});
      }
      return Ok(());
    }
  }

  function Prepend(done: seq<bytes>, rest: Option<seq<bytes>>): Option<seq<bytes>> {
    match rest
    case None => None
    case Some(xs) => Some(done + xs)
  }

  method DecodeMessage(spec: MessageSpec, input: bytes) returns (r: Result<seq<bytes>>)
    ensures r == Decode(spec, input)
  {
    if |input| < HEADER_SIZE {
      return Err({ErrMessage});
    }
    if input[0] != WIRE_FORMAT_V1 || input[1] != WIRE_SUITE || input[2] != spec.role {
      assert input[..HEADER_SIZE] != Header(spec.role);
      return Err({ErrMessage});
    }
    if |input| > MAX_MESSAGE_LENGTH {
      return Err({ErrMessage});
    }
    assert input[..HEADER_SIZE] == Header(spec.role);
    var reader := new MessageReader(input, HEADER_SIZE);
    var fields: seq<bytes> := [];
    assert spec.fields[0..] == spec.fields;
    PrependNothing(DecodeFields(input[HEADER_SIZE..], spec.fields));
    for i := 0 to |spec.fields|
      invariant reader.buf == input && reader.off <= |input| && fresh(reader)
      invariant DecodeFields(input[HEADER_SIZE..], spec.fields)
             == Prepend(fields, DecodeFields(input[reader.off..], spec.fields[i..]))
    {
      ghost var s, specs := input[reader.off..], spec.fields[i..];
      ghost var before := fields;
      assert specs[0] == spec.fields[i] && specs[1..] == spec.fields[i + 1..];
      var field := reader.Read(spec.fields[i]);
      if field.Err? {
        return Err(field.error);
      }
      assert s[ReadField(s, specs[0]).value.1..] == input[reader.off..];
      fields := fields + [field.value];
      PrependStep(before, field.value, DecodeFields(input[reader.off..], specs[1..]));
    }
    var done := reader.Done();
    if done.Err? {
      assert input[reader.off..] != [];
      return Err(done.error);
    }
    assert input[reader.off..] == [] && spec.fields[|spec.fields|..] == [];
    assert fields + [] == fields;
    return Ok(fields);
  }

  lemma PrependNothing(rest: Option<seq<bytes>>)
    ensures Prepend([], rest) == rest
  {
    if rest.Some? { assert [] + rest.value == rest.value; }
  }

  lemma PrependStep(done: seq<bytes>, x: bytes, rest: Option<seq<bytes>>)
    ensures Prepend(done + [x], rest) == Prepend(done, Prepend([x], rest))
  {
    if rest.Some? {
      assert (done + [x]) + rest.value == done + ([x] + rest.value);
    }
  }

  // ------------------------------------------------------- decoding inverts encoding

  ghost predicate Acceptable(f: CapField, x: bytes) {
    WithinMessageCap(f, |x|) && |x| < Pow128(MAX_LEB128_BYTES)
  }

  ghost predicate AllAcceptable(specs: seq<CapField>, fields: seq<bytes>) {
    |fields| == |specs| && forall i :: 0 <= i < |specs| ==> Acceptable(specs[i], fields[i])
  }

  lemma ReadFieldSound(s: bytes, f: CapField, x: bytes, l: nat)
    requires ReadField(s, f) == Some((x, l))
    ensures Lv(x) <= s && l == |Lv(x)| && Acceptable(f, x)
  {
    LebLength(|x|, MAX_LEB128_BYTES);
    var (n, h) := ReadLeb(s, MAX_LEB128_BYTES, true).value;
    ReadExact(s, MAX_LEB128_BYTES, true, n, h);
    assert s[..h + n] == s[..h] + s[h..h + n];
  }

  lemma ReadFieldComplete(s: bytes, f: CapField, x: bytes)
    requires Lv(x) <= s && Acceptable(f, x)
    ensures ReadField(s, f) == Some((x, |Lv(x)|))
  {
    var k := |Leb(|x|)|;
    LebLength(|x|, MAX_LEB128_BYTES);
    assert Leb(|x|) == Lv(x)[..k] == s[..k];
    assert s[k..k + |x|] == Lv(x)[k..];
    ReadExact(s, MAX_LEB128_BYTES, true, |x|, k);
  }

  lemma {:induction false} FieldsSound(s: bytes, specs: seq<CapField>, fields: seq<bytes>)
    requires DecodeFields(s, specs) == Some(fields)
    ensures AllAcceptable(specs, fields) && s == LvCat(fields)
    decreases |specs|
  {
    if specs != [] {
      var (x, l) := ReadField(s, specs[0]).value;
      var xs := DecodeFields(s[l..], specs[1..]).value;
      ReadFieldSound(s, specs[0], x, l);
      FieldsSound(s[l..], specs[1..], xs);
      ConsAcceptable(specs, x, xs);
      assert fields == [x] + xs;
      assert s == Lv(x) + s[l..];
    }
  }

  lemma {:induction false} FieldsComplete(specs: seq<CapField>, fields: seq<bytes>)
    requires AllAcceptable(specs, fields)
    ensures DecodeFields(LvCat(fields), specs) == Some(fields)
    decreases |specs|
  {
    if specs != [] {
      var s := LvCat(fields);
      assert Lv(fields[0]) <= s;
      ReadFieldComplete(s, specs[0], fields[0]);
      assert s[|Lv(fields[0])|..] == LvCat(fields[1..]);
      FieldsComplete(specs[1..], fields[1..]);
      assert fields == [fields[0]] + fields[1..];
    }
  }

  /** The fields read are exactly those whose concatenation is the whole input. */
  lemma FieldsExact(s: bytes, specs: seq<CapField>, fields: seq<bytes>)
    ensures DecodeFields(s, specs) == Some(fields) <==> AllAcceptable(specs, fields) && s == LvCat(fields)
  {
    if DecodeFields(s, specs) == Some(fields) { FieldsSound(s, specs, fields); }
    if AllAcceptable(specs, fields) { FieldsComplete(specs, fields); }
  }

  lemma ConsAcceptable(specs: seq<CapField>, x: bytes, xs: seq<bytes>)
    requires specs != [] && Acceptable(specs[0], x) && AllAcceptable(specs[1..], xs)
    ensures AllAcceptable(specs, [x] + xs) && LvCat([x] + xs) == Lv(x) + LvCat(xs)
  {
    var fields := [x] + xs;
    assert fields[1..] == xs;
    forall i | 0 <= i < |specs| ensures Acceptable(specs[i], fields[i]) {
      if i > 0 {
        assert specs[i] == specs[1..][i - 1] && fields[i] == xs[i - 1];
      }
    }
  }

  ghost predicate InCatalogue(spec: MessageSpec) {
    spec == SPEC_A || spec == SPEC_B || spec == SPEC_C
  }

  lemma LvLength(f: CapField, x: bytes)
    requires Acceptable(f, x)
    ensures |Lv(x)| <= 3 + f.length
  {
    LebLength(|x|, MAX_LEB128_BYTES);
  }

  /** Every acceptable message of the catalogue stays strictly below the aggregate cap. */
  lemma EncodingFits(spec: MessageSpec, fields: seq<bytes>)
    requires InCatalogue(spec) && AllAcceptable(spec.fields, fields)
    ensures HEADER_SIZE <= |Encode(spec, fields)| < MAX_MESSAGE_LENGTH
  {
    assert forall i :: 0 <= i < |fields| ==> Acceptable(spec.fields[i], fields[i]);
    LvLength(spec.fields[0], fields[0]);
    if spec == SPEC_C {
      assert LvCat(fields) == Lv(fields[0]) + LvCat(fields[1..]);
    } else {
      LvLength(spec.fields[1], fields[1]);
      LvLength(spec.fields[2], fields[2]);
      ThreeFields(fields);
    }
  }

  /** Decoding and encoding are mutually inverse: bytes decode to fields exactly if the fields are
      acceptable and the bytes are their encoding. */
  lemma DecodeExact(spec: MessageSpec, input: bytes, fields: seq<bytes>)
    requires InCatalogue(spec)
    ensures Decode(spec, input) == Ok(fields) <==>
            AllAcceptable(spec.fields, fields) && input == Encode(spec, fields)
  {
    if GoodHeader(input, spec.role) {
      FieldsExact(input[HEADER_SIZE..], spec.fields, fields);
      assert input == Header(spec.role) + input[HEADER_SIZE..];
    }
    if AllAcceptable(spec.fields, fields) && input == Encode(spec, fields) {
      EncodingFits(spec, fields);
      assert input[..HEADER_SIZE] == Header(spec.role);
      assert input[HEADER_SIZE..] == LvCat(fields);
      FieldsExact(input[HEADER_SIZE..], spec.fields, fields);
    }
  }

  /** No bytes decode under two roles. */
  lemma RolesDisjoint(spec: MessageSpec, other: MessageSpec, input: bytes)
    requires InCatalogue(spec) && InCatalogue(other) && spec != other && Decode(spec, input).Ok?
    ensures Decode(other, input) == Err({ErrMessage})
  {
    assert input[..HEADER_SIZE][2] == spec.role;
  }
}
