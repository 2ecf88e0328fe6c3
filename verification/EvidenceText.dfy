/** The text of a checksum file: which lines list what, how a text falls into lines, and when a listing
    that was written out is accepted. */
module EvidenceText {
  import opened Bytes
  import opened Strings
  import opened EvidenceBundle

  // ------------------------------------------------------- one line

  lemma HexDigits(s: string)
    ensures IsHex64(s) <==> |s| == 64 && forall i :: 0 <= i < |s| ==> s[i] in "0123456789abcdef"
  {
  }

  /** A listed path is a relative path of proper file names without white space, backslash, NUL or
      colon, that does not start with a star. */
  lemma ListableIs(path: string)
    ensures ListablePath(path) <==>
            && (forall i :: 0 <= i < |path| ==> path[i] != ' ' && path[i] != '\t' && path[i] != '\r' && path[i] != '\n')
            && (path == "" || path[0] != '*') && '\\' !in path && '\0' !in path && ':' !in path
            && forall i :: 0 <= i < |Split(path, '/')| ==> FileName(Split(path, '/')[i])
  {
    SafePathNames(path);
    assert forall c: char :: c in " \t\r\n" <==> c == ' ' || c == '\t' || c == '\r' || c == '\n';
  }

  function Line(e: ChecksumEntry): string {
    e.hash + "  " + e.path
  }

  lemma PartsMakeLine(line: string)
    requires Lists(line)
    ensures line == Line(EntryOf(line))
  {
    assert line == line[..64] + line[64..66] + line[66..];
  }

  /** A line that is not blank is good exactly if it is a hash, two spaces and a listable path. */
  lemma GoodLineIs(line: string)
    requires !Blank(line)
    ensures GoodLine(line) <==> exists e: ChecksumEntry :: IsHex64(e.hash) && ListablePath(e.path) && line == Line(e)
  {
    if GoodLine(line) {
      var e := EntryOf(line);
      PartsMakeLine(line);
      assert IsHex64(e.hash) && ListablePath(e.path) && line == Line(e);
    }
    if exists e: ChecksumEntry :: IsHex64(e.hash) && ListablePath(e.path) && line == Line(e) {
      var e: ChecksumEntry :| IsHex64(e.hash) && ListablePath(e.path) && line == Line(e);
      LineParts(e);
    }
  }

  lemma LineParts(e: ChecksumEntry)
    requires |e.hash| == 64 && ListablePath(e.path)
    ensures var line := Line(e); Lists(line) && EntryOf(line) == e && line[..64] == e.hash
  {
    var line := Line(e);
    ListableIs(e.path);
    assert e.path != "";
    assert line[..64] == e.hash && line[64..66] == "  " && line[66..] == e.path;
  }

  /** The line written for an entry yields the entry. */
  lemma LineRoundTrip(e: ChecksumEntry)
    requires IsHex64(e.hash) && ListablePath(e.path)
    ensures GoodLine(Line(e)) && LineEntry(Line(e)) == Some(e)
  {
    LineParts(e);
    assert Line(e)[0] == e.hash[0];
    NotBlank(Line(e));
  }

  /** A line of white space lists nothing and is no defect. */
  lemma BlankLine(lines: seq<string>, line: string)
    requires AllSpace(line)
    ensures GoodLine(line) && EntriesOf(lines + [line]) == EntriesOf(lines)
  {
    SpacesAreBlank(line);
    var with := seq(|lines| + 1, i requires 0 <= i < |lines| + 1 => LineEntry((lines + [line])[i]));
    var without := seq(|lines|, i requires 0 <= i < |lines| => LineEntry(lines[i]));
    assert with[..|lines|] == without && with[|lines|] == None;
  }

  /** Blank lines are the lines of white space only. */
  lemma BlankIs(line: string)
    ensures Blank(line) <==> AllSpace(line)
  {
    if AllSpace(line) { SpacesAreBlank(line); }
    if Blank(line) { NothingLeft(line); }
  }

  lemma NothingLeft(line: string)
    requires TrimSpace(line) == ""
    ensures AllSpace(line)
  {
    var before, after := TrimSpaceParts(line);
    AllSpaceAppend(before, after);
    EmptyMiddle(line, before, TrimSpace(line), after);
  }

  lemma EmptyMiddle(line: string, before: string, middle: string, after: string)
    requires line == before + middle + after && middle == ""
    ensures line == before + after
  {
  }

  lemma SpacesAreBlank(line: string)
    requires AllSpace(line)
    ensures TrimSpace(line) == ""
  {
    AllTrimmed(line);
    assert TrimRight("") == "";
  }

  lemma {:induction false} AllTrimmed(line: string)
    requires AllSpace(line)
    ensures TrimLeft(line) == ""
    decreases |line|
  {
    if line != "" { AllTrimmed(line[SpaceLength(line)..]); }
  }

  // ------------------------------------------------------- lines of a text

  /** A line and whether a carriage return precedes its newline. */
  datatype TextLine = TextLine(line: string, cr: bool) {
    function Raw(): string {
      if cr then line + "\r" else line
    }
  }

  function Text(lines: seq<TextLine>): string {
    if lines == [] then "" else lines[0].Raw() + "\n" + Text(lines[1..])
  }

  function Raws(lines: seq<TextLine>): seq<string> {
    seq(|lines|, i requires 0 <= i < |lines| => lines[i].Raw())
  }

  /** Lines that hold no newline and do not themselves end in a carriage return. */
  predicate Proper(lines: seq<TextLine>) {
    forall i :: 0 <= i < |lines| ==>
      '\n' !in lines[i].line && (lines[i].line == "" || lines[i].line[|lines[i].line| - 1] != '\r')
  }

  lemma {:induction false} TextParts(lines: seq<TextLine>)
    requires Proper(lines)
    ensures Split(Text(lines), '\n') == Raws(lines) + [""]
  {
    if lines != [] {
      var raw := lines[0].Raw();
      TextParts(lines[1..]);
      SplitAtSeparator(raw, Text(lines[1..]), '\n');
      assert raw + ['\n'] + Text(lines[1..]) == Text(lines);
      assert Raws(lines) == [raw] + Raws(lines[1..]);
    }
  }

  /** A text of lines, each ended by a newline or a carriage return and a newline, scans to the lines
      without their endings, unless one fills the scanner's buffer of 65536 bytes. */
  lemma ScanText(lines: seq<TextLine>)
    requires Proper(lines)
    ensures ScanLines(Text(lines)) ==
            if exists i :: 0 <= i < |lines| && |lines[i].Raw()| >= 65536 then None
            else Some(seq(|lines|, i requires 0 <= i < |lines| => lines[i].line))
  {
    TextParts(lines);
    var raw := RawLines(Text(lines));
    assert raw == Raws(lines);
    forall i | 0 <= i < |lines| ensures DropCR(raw[i]) == lines[i].line && |raw[i]| == |lines[i].Raw()| {
      DropsOneCR(lines[i].line, lines[i].cr);
    }
    if exists i :: 0 <= i < |raw| && |raw[i]| >= 65536 {
      var i :| 0 <= i < |raw| && |raw[i]| >= 65536;
      assert |lines[i].Raw()| >= 65536;
    }
    if exists i :: 0 <= i < |lines| && |lines[i].Raw()| >= 65536 {
      var i :| 0 <= i < |lines| && |lines[i].Raw()| >= 65536;
      assert |raw[i]| >= 65536;
    }
    if ScanLines(Text(lines)).Some? {
      assert ScanLines(Text(lines)).value == seq(|lines|, i requires 0 <= i < |lines| => lines[i].line);
    }
  }

  lemma DropsOneCR(line: string, cr: bool)
    requires line == "" || line[|line| - 1] != '\r'
    ensures DropCR(if cr then line + "\r" else line) == line
  {
  }

  /** The newline after the last line may be missing. */
  lemma ScanUnterminated(text: string, last: string)
    requires last != "" && '\n' !in last && (text == "" || text[|text| - 1] == '\n')
    ensures ScanLines(text + last) == ScanLines(text + last + "\n")
  {
    LastRaw(text, last);
    var raw := RawLines(text + last);
    assert ScanLines(text + last) == ScanLines(text + last + "\n") by {
      assert RawLines(text + last + "\n") == raw;
      SameScan(text + last, text + last + "\n");
    }
  }

  lemma SameScan(a: string, b: string)
    requires RawLines(a) == RawLines(b)
    ensures ScanLines(a) == ScanLines(b)
  {
  }

  lemma LastRaw(text: string, last: string)
    requires last != "" && '\n' !in last && (text == "" || text[|text| - 1] == '\n')
    ensures RawLines(text + last) == RawLines(text + last + "\n")
  {
    var parts := Split(text, '\n');
    var init := parts[..|parts| - 1];
    AppendedLine(text, last);
    SplitAtSeparator(last, "", '\n');
    assert Split(text + last, '\n') == init + [last];
    AppendedLine(text, last + "\n");
    assert last + ['\n'] + "" == last + "\n";
    assert text + (last + "\n") == text + last + "\n";
    assert Split(text + last + "\n", '\n') == init + [last, ""];
    RawOf(text + last, init + [last]);
    RawOf(text + last + "\n", init + [last, ""]);
    assert (init + [last, ""])[..|init| + 1] == init + [last];
  }

  lemma RawOf(text: string, parts: seq<string>)
    requires Split(text, '\n') == parts
    ensures RawLines(text) == if parts[|parts| - 1] == "" then parts[..|parts| - 1] else parts
  {
  }

  lemma SplitHead(s: string)
    requires s != ""
    ensures var rest := Split(s[1..], '\n');
            Split(s, '\n') == if s[0] == '\n' then [""] + rest else [[s[0]] + rest[0]] + rest[1..]
  {
  }

  lemma {:induction false} AppendedLine(text: string, more: string)
    requires text == "" || text[|text| - 1] == '\n'
    ensures Split(text + more, '\n') == Split(text, '\n')[..|Split(text, '\n')| - 1] + Split(more, '\n')
  {
    if text == "" {
      EmptyText(more);
    } else {
      var whole := text + more;
      assert whole[1..] == text[1..] + more && whole[0] == text[0];
      AppendedLine(text[1..], more);
      SplitHead(text);
      SplitHead(whole);
      if text[0] != '\n' { SplitEnds(text); }
      AppendParts(text[0], Split(text[1..], '\n'), Split(more, '\n'));
    }
  }

  lemma EmptyText(more: string)
    ensures Split("" + more, '\n') == Split("", '\n')[..|Split("", '\n')| - 1] + Split(more, '\n')
  {
    assert "" + more == more && Split("", '\n') == [""];
    assert [""][..0] + Split(more, '\n') == Split(more, '\n');
  }

  lemma AppendParts(c: char, rest: seq<string>, tail: seq<string>)
    requires |rest| > 0 && (c != '\n' ==> |rest| > 1)
    ensures var all := rest[..|rest| - 1] + tail;
            c == '\n' ==> [""] + all == ([""] + rest)[..|rest|] + tail
    ensures var all := rest[..|rest| - 1] + tail;
            c != '\n' ==> [[c] + all[0]] + all[1..] == ([[c] + rest[0]] + rest[1..])[..|rest| - 1] + tail
  {
  }

  lemma SplitEnds(text: string)
    requires text != "" && text[0] != '\n' && text[|text| - 1] == '\n'
    ensures |Split(text[1..], '\n')| > 1
  {
    TrailingSeparator(text, '\n');
    SplitHead(text);
  }

  // ------------------------------------------------------- a listing that is written out

  lemma {:induction false} SomesAll(es: seq<Option<ChecksumEntry>>, list: seq<ChecksumEntry>)
    requires |es| == |list| && forall i :: 0 <= i < |es| ==> es[i] == Some(list[i])
    ensures Somes(es) == list
  {
    if es != [] {
      SomesAll(es[..|es| - 1], list[..|list| - 1]);
      assert list == list[..|list| - 1] + [list[|list| - 1]];
    }
  }

  function LinesOf(list: seq<ChecksumEntry>): seq<string> {
    seq(|list|, i requires 0 <= i < |list| => Line(list[i]))
  }

  function Written(list: seq<ChecksumEntry>): string {
    Text(seq(|list|, i requires 0 <= i < |list| => TextLine(Line(list[i]), false)))
  }

  /** Entries that can be listed: a hexadecimal hash and a listable path that fits the scanner. */
  predicate Listable(list: seq<ChecksumEntry>) {
    forall i :: 0 <= i < |list| ==> IsHex64(list[i].hash) && ListablePath(list[i].path) && |list[i].path| < 65470
  }

  lemma LineIsProper(e: ChecksumEntry)
    requires IsHex64(e.hash) && ListablePath(e.path)
    ensures '\n' !in Line(e) && Line(e)[|Line(e)| - 1] != '\r'
  {
    ListableIs(e.path);
    forall i | 0 <= i < |Line(e)| ensures Line(e)[i] != '\n' && Line(e)[i] != '\r' {
      if i < 64 { assert Line(e)[i] == e.hash[i]; }
      if i >= 66 { assert Line(e)[i] == e.path[i - 66]; }
    }
  }

  lemma WrittenScans(list: seq<ChecksumEntry>)
    requires Listable(list)
    ensures ScanLines(Written(list)) == Some(LinesOf(list))
  {
    var lines := seq(|list|, i requires 0 <= i < |list| => TextLine(Line(list[i]), false));
    forall i | 0 <= i < |list| ensures '\n' !in lines[i].line && lines[i].line[|lines[i].line| - 1] != '\r' && |lines[i].Raw()| < 65536 {
      LineIsProper(list[i]);
    }
    ScanText(lines);
    assert seq(|lines|, i requires 0 <= i < |lines| => lines[i].line) == LinesOf(list);
  }

  lemma WrittenEntries(list: seq<ChecksumEntry>)
    requires Listable(list)
    ensures EntriesOf(LinesOf(list)) == list && forall i :: 0 <= i < |list| ==> GoodLine(LinesOf(list)[i])
  {
    var lines := LinesOf(list);
    var es := seq(|lines|, i requires 0 <= i < |lines| => LineEntry(lines[i]));
    forall i | 0 <= i < |list| ensures es[i] == Some(list[i]) && GoodLine(lines[i]) {
      LineRoundTrip(list[i]);
    }
    SomesAll(es, list);
  }

  /** The checksum file that lists given entries is accepted exactly if there are entries, no path is
      repeated, every entry matches its file, and every file that needs one has an entry. */
  lemma WrittenSumsConform(digest: string -> string, es: seq<Entry>, list: seq<ChecksumEntry>)
    requires Listable(list)
    ensures SumsConform(digest, es, Written(list)) <==>
            && |list| > 0 && DistinctPaths(list) && (forall i :: 0 <= i < |list| ==> Matches(digest, es, list[i]))
            && Covers(es, PathSet(list))
  {
    WrittenScans(list);
    WrittenEntries(list);
  }
}
