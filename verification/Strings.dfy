/** Splitting, joining and trimming strings as Go's strings package does. A string is a sequence of
    bytes, each held in one char. */
module Strings {

  function Split(s: string, sep: char): (parts: seq<string>)
    ensures |parts| > 0
  {
    if s == "" then [""]
    else
      var rest := Split(s[1..], sep);
      if s[0] == sep then [""] + rest else [[s[0]] + rest[0]] + rest[1..]
  }

  function Join(parts: seq<string>, sep: char): string {
    if |parts| == 0 then "" else if |parts| == 1 then parts[0] else parts[0] + [sep] + Join(parts[1..], sep)
  }

  lemma {:induction false} JoinSplit(s: string, sep: char)
    ensures Join(Split(s, sep), sep) == s
  {
    if s != "" {
      var rest := Split(s[1..], sep);
      JoinSplit(s[1..], sep);
      if s[0] == sep {
        assert Split(s, sep)[1..] == rest;
      } else {
        assert Split(s, sep)[1..] == rest[1..];
        assert Join(Split(s, sep), sep) == [s[0]] + Join(rest, sep);
      }
      assert s == [s[0]] + s[1..];
    }
  }

  lemma {:induction false} SplitAtSeparator(s: string, rest: string, sep: char)
    requires sep !in s
    ensures Split(s, sep) == [s]
    ensures Split(s + [sep] + rest, sep) == [s] + Split(rest, sep)
  {
    if s == "" {
      assert ("" + [sep] + rest)[1..] == rest;
    } else {
      SplitAtSeparator(s[1..], rest, sep);
      assert (s + [sep] + rest)[1..] == s[1..] + [sep] + rest;
      assert s == [s[0]] + s[1..];
    }
  }

  /** Splitting undoes joining when no part holds the separator. */
  lemma {:induction false} SplitJoin(parts: seq<string>, sep: char)
    requires |parts| > 0 && forall i :: 0 <= i < |parts| ==> sep !in parts[i]
    ensures Split(Join(parts, sep), sep) == parts
  {
    if |parts| == 1 {
      SplitAtSeparator(parts[0], "", sep);
    } else {
      SplitJoin(parts[1..], sep);
      SplitAtSeparator(parts[0], Join(parts[1..], sep), sep);
    }
  }

  lemma {:induction false} PartsHaveNoSeparator(s: string, sep: char, i: nat)
    requires i < |Split(s, sep)|
    ensures sep !in Split(s, sep)[i]
  {
    if s != "" {
      var rest := Split(s[1..], sep);
      if s[0] == sep {
        if i > 0 { PartsHaveNoSeparator(s[1..], sep, i - 1); }
      } else {
        PartsHaveNoSeparator(s[1..], sep, i);
      }
    }
  }

  /** The last part is what follows the last separator, so it is empty after a trailing one. */
  lemma {:induction false} TrailingSeparator(s: string, sep: char)
    requires s != ""
    ensures Split(s, sep)[|Split(s, sep)| - 1] == "" <==> s[|s| - 1] == sep
  {
    if |s| > 1 {
      TrailingSeparator(s[1..], sep);
    }
  }

  // ------------------------------------------------------- white space

  /** The white space characters that take three bytes in UTF-8: U+1680, U+2000 to U+200A, U+2028,
      U+2029, U+202F, U+205F and U+3000. */
  predicate LongSpace(a: char, b: char, c: char) {
    || (a == '\U{00e1}' && b == '\U{009a}' && c == '\U{0080}')
    || (a == '\U{00e2}' && b == '\U{0080}' && ('\U{0080}' <= c <= '\U{008a}' || c == '\U{00a8}' || c == '\U{00a9}' || c == '\U{00af}'))
    || (a == '\U{00e2}' && b == '\U{0081}' && c == '\U{009f}')
    || (a == '\U{00e3}' && b == '\U{0080}' && c == '\U{0080}')
  }

  /** The number of bytes of the Unicode white space character that s starts with, or 0. */
  function SpaceLength(s: string): (n: nat)
    ensures n <= |s| && n <= 3
  {
    if s == "" then 0
    else if s[0] == ' ' || '\t' <= s[0] <= '\r' then 1
    else if |s| >= 2 && s[0] == '\U{00c2}' && (s[1] == '\U{0085}' || s[1] == '\U{00a0}') then 2
    else if |s| >= 3 && LongSpace(s[0], s[1], s[2]) then 3
    else 0
  }

  /** The number of bytes of the white space character that s ends with, or 0. */
  function EndSpaceLength(s: string): (n: nat)
    ensures n <= |s| && n <= 3
  {
    if |s| >= 1 && SpaceLength(s[|s| - 1..]) == 1 then 1
    else if |s| >= 2 && SpaceLength(s[|s| - 2..]) == 2 then 2
    else if |s| >= 3 && SpaceLength(s[|s| - 3..]) == 3 then 3
    else 0
  }

  function TrimLeft(s: string): string
    decreases |s|
  {
    if SpaceLength(s) == 0 then s else TrimLeft(s[SpaceLength(s)..])
  }

  function TrimRight(s: string): string
    decreases |s|
  {
    if EndSpaceLength(s) == 0 then s else TrimRight(s[..|s| - EndSpaceLength(s)])
  }

  /** strings.TrimSpace */
  function TrimSpace(s: string): string {
    TrimRight(TrimLeft(s))
  }

  lemma {:induction false} TrimLeftEnds(s: string)
    ensures SpaceLength(TrimLeft(s)) == 0 && forall c :: c in TrimLeft(s) ==> c in s
    decreases |s|
  {
    if SpaceLength(s) > 0 { TrimLeftEnds(s[SpaceLength(s)..]); }
  }

  lemma {:induction false} TrimRightEnds(s: string)
    ensures EndSpaceLength(TrimRight(s)) == 0 && TrimRight(s) <= s
    decreases |s|
  {
    if EndSpaceLength(s) > 0 { TrimRightEnds(s[..|s| - EndSpaceLength(s)]); }
  }

  lemma SpacePrefix(s: string, t: string)
    requires t <= s && SpaceLength(s) == 0
    ensures SpaceLength(t) == 0
  {
  }

  /** What is trimmed starts and ends without white space, so trimming it again changes nothing. */
  lemma TrimTwice(s: string)
    ensures TrimSpace(TrimSpace(s)) == TrimSpace(s)
    ensures forall c :: c in TrimSpace(s) ==> c in s
  {
    TrimLeftEnds(s);
    TrimRightEnds(TrimLeft(s));
    SpacePrefix(TrimLeft(s), TrimSpace(s));
    forall c | c in TrimSpace(s) ensures c in s { assert c in TrimLeft(s); }
  }

  // ------------------------------------------------------- what white space is

  /** The UTF-8 encoding of a code point below 0x10000. */
  function Utf8(cp: nat): string
    requires cp < 0xd800
  {
    if cp < 0x80 then [cp as char]
    else if cp < 0x800 then [(0xc0 + cp / 64) as char, (0x80 + cp % 64) as char]
    else [(0xe0 + cp / 4096) as char, (0x80 + (cp / 64) % 64) as char, (0x80 + cp % 64) as char]
  }

  /** The code points with the Unicode property White_Space. */
  predicate WhiteSpace(cp: nat) {
    || 9 <= cp <= 13 || cp == 0x20 || cp == 0x85 || cp == 0xa0 || cp == 0x1680 || 0x2000 <= cp <= 0x200a
    || cp == 0x2028 || cp == 0x2029 || cp == 0x202f || cp == 0x205f || cp == 0x3000
  }

  /** A string starts with a white space character exactly if it starts with the encoding of one. */
  lemma SpaceIsWhiteSpace(s: string, cp: nat)
    ensures WhiteSpace(cp) && Utf8(cp) <= s ==> SpaceLength(s) == |Utf8(cp)|
  {
    if WhiteSpace(cp) && Utf8(cp) <= s {
      assert s[0] == Utf8(cp)[0];
      if |Utf8(cp)| >= 2 { assert s[1] == Utf8(cp)[1]; }
      if |Utf8(cp)| >= 3 { assert s[2] == Utf8(cp)[2]; }
    }
  }

  lemma SpaceHasCodePoint(s: string) returns (cp: nat)
    requires SpaceLength(s) > 0
    ensures WhiteSpace(cp) && Utf8(cp) <= s && SpaceLength(s) == |Utf8(cp)|
  {
    if SpaceLength(s) == 1 {
      cp := s[0] as int;
    } else if SpaceLength(s) == 2 {
      cp := s[1] as int;
    } else {
      cp := (s[0] as int - 0xe0) * 4096 + (s[1] as int - 0x80) * 64 + (s[2] as int - 0x80);
    }
  }

  /** A string that is white space only. */
  predicate AllSpace(s: string)
    decreases |s|
  {
    s == "" || (SpaceLength(s) > 0 && AllSpace(s[SpaceLength(s)..]))
  }

  lemma SpaceOfPrefix(s: string, n: nat, t: string)
    requires SpaceLength(s) == n > 0 && |t| >= n && t[..n] == s[..n]
    ensures SpaceLength(t) == n
  {
    assert t[0] == t[..n][0] == s[..n][0] == s[0];
    if n >= 2 { assert t[1] == t[..n][1] == s[..n][1] == s[1]; }
    if n >= 3 { assert t[2] == t[..n][2] == s[..n][2] == s[2]; }
  }

  lemma Nothing(b: string)
    ensures "" + b == b
  {
  }

  lemma Assoc(x: string, y: string, z: string)
    ensures (x + y) + z == x + (y + z)
  {
  }

  lemma Joined(s: string, a: string, t: string, u: string, b: string)
    requires s == a + t && t == u + b
    ensures s == a + u + b
  {
  }

  lemma AllSpaceCons(piece: string, rest: string)
    requires |piece| > 0 && SpaceLength(piece) == |piece| && AllSpace(rest)
    ensures AllSpace(piece + rest)
  {
    var n := |piece|;
    assert (piece + rest)[..n] == piece[..n] == piece;
    SpaceOfPrefix(piece, n, piece + rest);
    assert (piece + rest)[n..] == rest;
  }

  lemma StartPiece(s: string) returns (piece: string, rest: string)
    requires SpaceLength(s) > 0
    ensures s == piece + rest && |piece| > 0 && SpaceLength(piece) == |piece|
    ensures TrimLeft(s) == TrimLeft(rest) && (AllSpace(s) ==> AllSpace(rest))
  {
    var n := SpaceLength(s);
    piece, rest := s[..n], s[n..];
    SpaceOfPrefix(s, n, piece);
  }

  lemma EndPiece(s: string) returns (rest: string, piece: string)
    requires EndSpaceLength(s) > 0
    ensures s == rest + piece && |piece| == EndSpaceLength(s) == SpaceLength(piece) && rest == s[..|s| - EndSpaceLength(s)]
  {
    var n := EndSpaceLength(s);
    rest, piece := s[..|s| - n], s[|s| - n..];
  }

  lemma {:induction false} AllSpaceAppend(a: string, b: string)
    requires AllSpace(a) && AllSpace(b)
    ensures AllSpace(a + b)
    decreases |a|
  {
    if a == "" {
      Nothing(b);
    } else {
      var piece, rest := StartPiece(a);
      AllSpaceAppend(rest, b);
      AllSpaceCons(piece, rest + b);
      Assoc(piece, rest, b);
    }
  }

  lemma {:induction false} TrimLeftPart(s: string) returns (before: string)
    ensures s == before + TrimLeft(s) && AllSpace(before)
    decreases |s|
  {
    if SpaceLength(s) == 0 {
      before := "";
    } else {
      var piece, rest := StartPiece(s);
      var more := TrimLeftPart(rest);
      before := piece + more;
      AllSpaceCons(piece, more);
      Joined(s, piece, rest, more, TrimLeft(rest));
    }
  }

  lemma {:induction false} TrimRightPart(s: string) returns (after: string)
    ensures s == TrimRight(s) + after && AllSpace(after)
    decreases |s|
  {
    if EndSpaceLength(s) == 0 {
      after := "";
    } else {
      var rest, piece := EndPiece(s);
      var more := TrimRightPart(rest);
      after := more + piece;
      AllSpaceCons(piece, "");
      assert piece + "" == piece;
      AllSpaceAppend(more, piece);
      Assoc(TrimRight(rest), more, piece);
    }
  }

  /** Trimming takes white space off both ends and nothing else. */
  lemma TrimSpaceParts(s: string) returns (before: string, after: string)
    ensures s == before + TrimSpace(s) + after && AllSpace(before) && AllSpace(after)
  {
    before := TrimLeftPart(s);
    after := TrimRightPart(TrimLeft(s));
    Joined(s, before, TrimLeft(s), TrimSpace(s), after);
  }

  /** What is left starts and ends without white space. */
  lemma TrimSpaceEnds(s: string)
    ensures SpaceLength(TrimSpace(s)) == 0 && EndSpaceLength(TrimSpace(s)) == 0
  {
    TrimLeftEnds(s);
    TrimRightEnds(TrimLeft(s));
    SpacePrefix(TrimLeft(s), TrimSpace(s));
  }

  /** A string that does not start with white space is not blank. */
  lemma NotBlank(s: string)
    requires s != "" && SpaceLength(s) == 0
    ensures TrimSpace(s) != ""
  {
    if TrimRight(s) == "" { TrimmedAway(s); }
  }

  lemma {:induction false} TrimmedAway(s: string)
    requires s != "" && TrimRight(s) == ""
    ensures SpaceLength(s) > 0
    decreases |s|
  {
    var n := EndSpaceLength(s);
    var t := s[..|s| - n];
    if t == "" {
      assert s[|s| - n..] == s;
    } else {
      TrimmedAway(t);
      if SpaceLength(s) == 0 { SpacePrefix(s, t); }
    }
  }
}
