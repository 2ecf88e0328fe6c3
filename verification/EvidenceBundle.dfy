/** The evidence-bundle checker of tools/evidencebaseline/main.go over a static file tree. */
module EvidenceBundle {
  import opened Bytes
  import opened Strings

  // ------------------------------------------------------- trees

  datatype Node = File(content: string) | Dir(entries: seq<Entry>) | Symlink | Other
  datatype Entry = Entry(name: string, node: Node)

  /** Lstat of one name in a directory. */
  function Child(es: seq<Entry>, name: string): Option<Node> {
    if es == [] then None else if es[0].name == name then Some(es[0].node) else Child(es[1..], name)
  }

  /** The node at a path all of whose parents are directories, following no symlink. */
  function At(es: seq<Entry>, names: seq<string>): Option<Node>
    decreases |names|
  {
    if names == [] then None
    else
      match Child(es, names[0])
      case None => None
      case Some(n) => if |names| == 1 then Some(n) else if n.Dir? then At(n.entries, names[1..]) else None
  }

  predicate FileName(name: string) {
    name != "" && '/' !in name && name != "." && name != ".."
  }

  /** What every file system guarantees: proper names, no two alike in one directory. */
  ghost predicate Tree(es: seq<Entry>) {
    && (forall i :: 0 <= i < |es| ==> FileName(es[i].name))
    && (forall i, j :: 0 <= i < j < |es| ==> es[i].name != es[j].name)
    && (forall i :: 0 <= i < |es| && es[i].node.Dir? ==> Tree(es[i].node.entries))
  }

  datatype Visit = Visit(names: seq<string>, node: Node)

  /** filepath.WalkDir: every entry, a directory before its contents; symlinks are not followed. */
  function Walk(prefix: seq<string>, es: seq<Entry>): seq<Visit>
    decreases es
  {
    if es == [] then []
    else
      var at := prefix + [es[0].name];
      [Visit(at, es[0].node)] + (if es[0].node.Dir? then Walk(at, es[0].node.entries) else []) + Walk(prefix, es[1..])
  }

  lemma {:induction false} ChildIndex(es: seq<Entry>, i: nat)
    requires Tree(es) && i < |es|
    ensures Child(es, es[i].name) == Some(es[i].node)
  {
    if i > 0 { ChildIndex(es[1..], i - 1); }
  }

  lemma {:induction false} ChildIs(es: seq<Entry>, name: string) returns (i: nat)
    requires Child(es, name).Some?
    ensures i < |es| && es[i].name == name && Child(es, name) == Some(es[i].node)
  {
    if es[0].name == name {
      i := 0;
    } else {
      var j := ChildIs(es[1..], name);
      i := j + 1;
    }
  }

  /** What the walk visits exists where it says. */
  lemma {:induction false} WalkSound(prefix: seq<string>, es: seq<Entry>, v: Visit)
    requires Tree(es) && v in Walk(prefix, es)
    ensures |prefix| < |v.names| && prefix == v.names[..|prefix|] && At(es, v.names[|prefix|..]) == Some(v.node)
    decreases es
  {
    var k := |prefix|;
    var at := prefix + [es[0].name];
    if v == Visit(at, es[0].node) {
      assert v.names[k..] == [es[0].name];
    } else if es[0].node.Dir? && v in Walk(at, es[0].node.entries) {
      WalkSound(at, es[0].node.entries, v);
      assert v.names[k..][1..] == v.names[k + 1..];
      assert v.names[..k] == v.names[..k + 1][..k] == prefix;
      assert v.names[k] == v.names[..k + 1][k] == es[0].name;
    } else {
      WalkSound(prefix, es[1..], v);
      var i := ChildIs(es[1..], v.names[k..][0]);
      ChildIndex(es, i + 1);
    }
  }

  /** The walk visits everything that exists. */
  lemma {:induction false} WalkComplete(prefix: seq<string>, es: seq<Entry>, names: seq<string>)
    requires Tree(es) && At(es, names).Some?
    ensures Visit(prefix + names, At(es, names).value) in Walk(prefix, es)
    decreases es
  {
    var n := Child(es, names[0]).value;
    if es[0].name == names[0] {
      var at := prefix + [names[0]];
      if |names| == 1 {
        assert prefix + names == at;
      } else {
        WalkComplete(at, n.entries, names[1..]);
        assert at + names[1..] == prefix + names;
      }
    } else {
      WalkComplete(prefix, es[1..], names);
    }
  }

  // ------------------------------------------------------- paths and lines

  /** safeSlashPath */
  predicate SafeSlashPath(ref: string, allowTrailingSlash: bool) {
    if ref == "" || '\\' in ref || '\0' in ref || ':' in ref || ref[0] == '/' then false
    else
      var trimmed := TrimSlash(ref);
      if trimmed != ref && (!allowTrailingSlash || trimmed == "") then false
      else forall p :: p in Split(trimmed, '/') ==> p != "" && p != "." && p != ".."
  }

  /** Without a trailing slash, a safe path is a sequence of proper file names without backslash, NUL
      or colon, so it never leaves the directory it starts from. */
  lemma SafePathNames(ref: string)
    ensures SafeSlashPath(ref, false) <==>
            && '\\' !in ref && '\0' !in ref && ':' !in ref
            && forall i :: 0 <= i < |Split(ref, '/')| ==> FileName(Split(ref, '/')[i])
  {
    var parts := Split(ref, '/');
    forall i | 0 <= i < |parts| ensures '/' !in parts[i] { PartsHaveNoSeparator(ref, '/', i); }
    assert ref == "" ==> parts[0] == "";
    if ref != "" {
      TrailingSeparator(ref, '/');
      assert ref[0] == '/' ==> parts[0] == "";
      assert ref[|ref| - 1] == '/' ==> |TrimSlash(ref)| < |ref|;
      if forall i :: 0 <= i < |parts| ==> FileName(parts[i]) {
        assert FileName(parts[0]) && FileName(parts[|parts| - 1]);
      }
      if SafeSlashPath(ref, false) {
        forall i | 0 <= i < |parts| ensures FileName(parts[i]) { assert parts[i] in parts; }
      }
    }
  }

  /** strings.TrimSuffix of one slash. */
  function TrimSlash(ref: string): string {
    if ref != "" && ref[|ref| - 1] == '/' then ref[..|ref| - 1] else ref
  }

  predicate IsHex64(s: string) {
    |s| == 64 && forall i :: 0 <= i < 64 ==> '0' <= s[i] <= '9' || 'a' <= s[i] <= 'f'
  }

  predicate Blank(line: string) {
    TrimSpace(line) == ""
  }

  datatype ChecksumEntry = ChecksumEntry(hash: string, path: string)

  /** The path conditions of a checksum line. */
  predicate ListablePath(rel: string) {
    && (forall i :: 0 <= i < |rel| ==> rel[i] !in " \t\r\n") && (rel == "" || rel[0] != '*')
    && SafeSlashPath(rel, false)
  }

  /** Sixty-four bytes, two spaces and a listable path. */
  predicate Lists(line: string) {
    |line| >= 67 && line[64..66] == "  " && ListablePath(line[66..])
  }

  function EntryOf(line: string): ChecksumEntry
    requires Lists(line)
  {
    ChecksumEntry(line[..64], line[66..])
  }

  /** What a line contributes: an entry if it is not blank and lists a path. */
  function LineEntry(line: string): Option<ChecksumEntry> {
    if !Blank(line) && Lists(line) then Some(EntryOf(line)) else None
  }

  /** The entries among what the lines contribute, in order. */
  function Somes(es: seq<Option<ChecksumEntry>>): seq<ChecksumEntry> {
    if es == [] then []
    else
      var e := es[|es| - 1];
      Somes(es[..|es| - 1]) + if e.Some? then [e.value] else []
  }

  function EntriesOf(lines: seq<string>): seq<ChecksumEntry> {
    Somes(seq(|lines|, i requires 0 <= i < |lines| => LineEntry(lines[i])))
  }

  /** No path is listed twice. */
  ghost predicate DistinctPaths(es: seq<ChecksumEntry>) {
    forall i, j :: 0 <= i < j < |es| ==> es[i].path != es[j].path
  }

  function PathSet(es: seq<ChecksumEntry>): set<string> {
    if es == [] then {} else PathSet(es[..|es| - 1]) + {es[|es| - 1].path}
  }

  lemma {:induction false} PathSetHas(es: seq<ChecksumEntry>, path: string)
    ensures path in PathSet(es) <==> exists i :: 0 <= i < |es| && es[i].path == path
  {
    if es != [] {
      var init := es[..|es| - 1];
      PathSetHas(init, path);
      if path in PathSet(init) {
        var i :| 0 <= i < |init| && init[i].path == path;
        assert es[i].path == path;
      }
      if exists i :: 0 <= i < |es| && es[i].path == path {
        var i :| 0 <= i < |es| && es[i].path == path;
        if i < |init| { assert init[i].path == path; }
      }
    }
  }

  lemma AddEntry(es: seq<ChecksumEntry>, e: ChecksumEntry)
    ensures PathSet(es + [e]) == PathSet(es) + {e.path}
    ensures DistinctPaths(es + [e]) <==> DistinctPaths(es) && e.path !in PathSet(es)
  {
    var all := es + [e];
    assert all[..|es|] == es;
    PathSetHas(es, e.path);
    if DistinctPaths(all) {
      forall i | 0 <= i < |es| ensures es[i].path != e.path { assert all[i].path != all[|es|].path; }
      forall i, j | 0 <= i < j < |es| ensures es[i].path != es[j].path { assert all[i].path != all[j].path; }
    }
  }

  lemma AddSome(es: seq<Option<ChecksumEntry>>, i: nat)
    requires i < |es|
    ensures Somes(es[..i + 1]) == Somes(es[..i]) + if es[i].Some? then [es[i].value] else []
  {
    assert es[..i + 1][..i] == es[..i];
  }

  predicate GoodLine(line: string) {
    Blank(line) || (Lists(line) && IsHex64(line[..64]))
  }

  /** The raw lines of a text; a final newline ends the last line and starts none. */
  function RawLines(content: string): seq<string> {
    var parts := Split(content, '\n');
    if parts[|parts| - 1] == "" then parts[..|parts| - 1] else parts
  }

  function DropCR(line: string): string {
    if line != "" && line[|line| - 1] == '\r' then line[..|line| - 1] else line
  }

  /** bufio.MaxScanTokenSize: a line that fills the scanner's buffer stops it with an error. */
  const MAX_SCAN_TOKEN := 65536

  /** bufio.Scanner over lines; none when a line is too long. */
  function ScanLines(content: string): Option<seq<string>> {
    var raw := RawLines(content);
    if exists i :: 0 <= i < |raw| && |raw[i]| >= MAX_SCAN_TOKEN then None
    else Some(seq(|raw|, i requires 0 <= i < |raw| => DropCR(raw[i])))
  }

  // ------------------------------------------------------- findings

  datatype Problem =
    | UnsafePath | MissingParent | MissingRoot | SymlinkedParent | ParentNotDirectory | RootSymlink | RootNotDirectory
    | MissingControlFile | ControlSymlink | ControlNotRegular
    | ScanError | BinaryMode | BadFormat | BadHash | PathWhitespace | PathBinaryPrefix | PathUnsafe | DuplicatePath
    | NoEntries | MissingFile | EntrySymlink | EntryNotRegular | HashMismatch
    | RawSymlink | RawNotRegular | NotCovered

  datatype Finding = AtPath(path: string, problem: Problem) | AtLine(line: nat, problem: Problem)

  // ------------------------------------------------------- the checker

  /** The checks on one line, in the source's order. */
  method ParseLine(line: string, number: nat) returns (e: Option<ChecksumEntry>, findings: seq<Finding>)
    ensures e == LineEntry(line) && (findings == [] <==> GoodLine(line))
    ensures Verdict(line, (e, findings))
  {
    e, findings := None, [];
    if Blank(line) {
      return;
    }
    if |line| >= 66 && line[64] == ' ' && line[65] == '*' {
      assert line[64..66][1] == '*';
      return None, [AtLine(number, BinaryMode)];
    }
    if |line| < 67 || line[64..66] != "  " {
      return None, [AtLine(number, BadFormat)];
    }
    var hash, rel := line[..64], line[66..];
    if !IsHex64(hash) {
      findings := [AtLine(number, BadHash)];
    }
    if exists k :: 0 <= k < |rel| && rel[k] in " \t\r\n" {
      return None, findings + [AtLine(number, PathWhitespace)];
    }
    if rel != "" && rel[0] == '*' {
      return None, findings + [AtLine(number, PathBinaryPrefix)];
    }
    if !SafeSlashPath(rel, false) {
      return None, findings + [AtLine(number, PathUnsafe)];
    }
    e := Some(ChecksumEntry(hash, rel));
  }

  /** The bookkeeping over parsed lines: entries are collected and repeated paths reported. */
  method Collect(parsed: seq<(Option<ChecksumEntry>, seq<Finding>)>) returns (entries: seq<ChecksumEntry>, findings: seq<Finding>)
    ensures entries == Somes(seq(|parsed|, i requires 0 <= i < |parsed| => parsed[i].0))
    ensures findings == [] <==> (forall i :: 0 <= i < |parsed| ==> parsed[i].1 == []) && DistinctPaths(entries)
  {
    entries, findings := [], [];
    var seen: set<string> := {};
    ghost var all := seq(|parsed|, i requires 0 <= i < |parsed| => parsed[i].0);
    for i := 0 to |parsed|
      invariant entries == Somes(all[..i])
      invariant seen == PathSet(entries)
      invariant findings == [] <==> (forall j :: 0 <= j < i ==> parsed[j].1 == []) && DistinctPaths(entries)
    {
      AddSome(all, i);
      var (e, problems) := parsed[i];
      findings := findings + problems;
      if e.Some? {
        AddEntry(entries, e.value);
        if e.value.path in seen {
          findings := findings + [AtLine(i + 1, DuplicatePath)];
        }
        seen := seen + {e.value.path};
        entries := entries + [e.value];
      }
    }
    assert all[..|parsed|] == all;
  }

  /** p is what the checks on a line yield. */
  ghost predicate Verdict(line: string, p: (Option<ChecksumEntry>, seq<Finding>)) {
    p.0 == LineEntry(line) && (p.1 == [] <==> GoodLine(line))
  }

  ghost predicate Verdicts(lines: seq<string>, parsed: seq<(Option<ChecksumEntry>, seq<Finding>)>) {
    |parsed| == |lines| && forall j {:trigger Verdict(lines[j], parsed[j])} :: 0 <= j < |lines| ==> Verdict(lines[j], parsed[j])
  }

  lemma VerdictsAppend(lines: seq<string>, parsed: seq<(Option<ChecksumEntry>, seq<Finding>)>, line: string,
                       p: (Option<ChecksumEntry>, seq<Finding>))
    requires Verdicts(lines, parsed) && Verdict(line, p)
    ensures Verdicts(lines + [line], parsed + [p])
  {
    forall j | 0 <= j < |lines| + 1 ensures Verdict((lines + [line])[j], (parsed + [p])[j]) {
      if j < |lines| { assert Verdict(lines[j], parsed[j]); }
    }
  }

  lemma VerdictsMean(lines: seq<string>, parsed: seq<(Option<ChecksumEntry>, seq<Finding>)>)
    requires Verdicts(lines, parsed)
    ensures Somes(seq(|parsed|, i requires 0 <= i < |parsed| => parsed[i].0)) == EntriesOf(lines)
    ensures (forall i :: 0 <= i < |parsed| ==> parsed[i].1 == []) <==> forall i :: 0 <= i < |lines| ==> GoodLine(lines[i])
  {
    forall i | 0 <= i < |lines| ensures parsed[i].0 == LineEntry(lines[i]) && (parsed[i].1 == [] <==> GoodLine(lines[i])) {
      assert Verdict(lines[i], parsed[i]);
    }
    assert seq(|parsed|, i requires 0 <= i < |parsed| => parsed[i].0) == seq(|lines|, i requires 0 <= i < |lines| => LineEntry(lines[i]));
  }

  method ParseEach(lines: seq<string>) returns (parsed: seq<(Option<ChecksumEntry>, seq<Finding>)>)
    ensures Verdicts(lines, parsed)
  {
    parsed := [];
    for i := 0 to |lines|
      invariant Verdicts(lines[..i], parsed)
    {
      var e, problems := ParseLine(lines[i], i + 1);
      VerdictsAppend(lines[..i], parsed, lines[i], (e, problems));
      parsed := parsed + [(e, problems)];
      assert lines[..i + 1] == lines[..i] + [lines[i]];
    }
    assert lines[..|lines|] == lines;
  }

  /** parseSHA256SUMS on scanned lines. There are no findings exactly when every line is blank or well
      formed and no path repeats. */
  method ParseLines(lines: seq<string>) returns (entries: seq<ChecksumEntry>, findings: seq<Finding>)
    ensures entries == EntriesOf(lines)
    ensures findings == [] <==> (forall i :: 0 <= i < |lines| ==> GoodLine(lines[i])) && DistinctPaths(EntriesOf(lines))
  {
    var parsed := ParseEach(lines);
    VerdictsMean(lines, parsed);
    entries, findings := Collect(parsed);
  }

  datatype Lookup = Found(node: Node) | Rejected(problem: Problem)

  /** lstatChecksumEntry: the node at the path, refusing symlinks and parents that are no directory. */
  method LstatChecksumEntry(es: seq<Entry>, rel: string) returns (r: Lookup)
    ensures match At(es, Split(rel, '/'))
            case None => r.Rejected?
            case Some(n) => if n.Symlink? then r == Rejected(EntrySymlink) else r == Found(n)
  {
    var parts := Split(rel, '/');
    var dir := es;
    for i := 0 to |parts|
      invariant i == |parts| ==> At(es, parts).None?
      invariant i < |parts| ==> At(es, parts) == At(dir, parts[i..])
    {
      var info := Child(dir, parts[i]);
      if info.None? {
        return Rejected(MissingFile);
      }
      if info.value.Symlink? {
        return Rejected(if i < |parts| - 1 then SymlinkedParent else EntrySymlink);
      }
      if i < |parts| - 1 && !info.value.Dir? {
        return Rejected(ParentNotDirectory);
      }
      if i == |parts| - 1 {
        return Found(info.value);
      }
      dir := info.value.entries;
      assert parts[i..][1..] == parts[i + 1..];
    }
    return Rejected(MissingFile);
  }

  /** lstatRepoRelative: the parents must be directories; the last node may be anything. */
  method LstatRepoRelative(repo: seq<Entry>, ref: string) returns (r: Lookup)
    ensures r.Found? <==> SafeSlashPath(ref, true) && At(repo, Split(TrimSlash(ref), '/')).Some?
    ensures r.Found? ==> At(repo, Split(TrimSlash(ref), '/')) == Some(r.node)
  {
    if !SafeSlashPath(ref, true) {
      return Rejected(UnsafePath);
    }
    var parts := Split(TrimSlash(ref), '/');
    var dir := repo;
    for i := 0 to |parts|
      invariant i == |parts| ==> At(repo, parts).None?
      invariant i < |parts| ==> At(repo, parts) == At(dir, parts[i..])
    {
      var info := Child(dir, parts[i]);
      if info.None? {
        return Rejected(if i < |parts| - 1 then MissingParent else MissingRoot);
      }
      if i < |parts| - 1 {
        if info.value.Symlink? {
          return Rejected(SymlinkedParent);
        }
        if !info.value.Dir? {
          return Rejected(ParentNotDirectory);
        }
      }
      if i == |parts| - 1 {
        return Found(info.value);
      }
      dir := info.value.entries;
      assert parts[i..][1..] == parts[i + 1..];
    }
    return Rejected(MissingRoot);
  }

  /** The listed path is a regular file behind real directories, and its digest is the listed one. */
  predicate Matches(digest: string -> string, es: seq<Entry>, e: ChecksumEntry) {
    match At(es, Split(e.path, '/'))
    case Some(File(content)) => digest(content) == e.hash
    case _ => false
  }

  method VerifyEntry(digest: string -> string, es: seq<Entry>, e: ChecksumEntry) returns (findings: seq<Finding>)
    ensures findings == [] <==> Matches(digest, es, e)
  {
    var found := LstatChecksumEntry(es, e.path);
    if found.Rejected? {
      return [AtPath(e.path, found.problem)];
    }
    if !found.node.File? {
      return [AtPath(e.path, EntryNotRegular)];
    }
    if digest(found.node.content) != e.hash {
      return [AtPath(e.path, HashMismatch)];
    }
    return [];
  }

  /** ignoredBundleEntry */
  predicate Ignored(rel: string) {
    var parts := Split(rel, '/');
    rel == "README.md" || rel == "SHA256SUMS" || rel == "SHA256SUMS.sig" || parts[|parts| - 1] == ".DS_Store"
  }

  function Rel(v: Visit): string {
    Join(v.names, '/')
  }

  ghost predicate RawOk(visits: seq<Visit>) {
    forall i :: 0 <= i < |visits| && !Ignored(Rel(visits[i])) ==> visits[i].node.File? || visits[i].node.Dir?
  }

  ghost predicate RawFile(visits: seq<Visit>, rel: string) {
    exists i :: 0 <= i < |visits| && Rel(visits[i]) == rel && visits[i].node.File? && !Ignored(rel)
  }

  /** bundleRawFiles: the callback run at every visit of the walk. */
  method BundleRawFiles(visits: seq<Visit>) returns (out: seq<string>, findings: seq<Finding>)
    ensures findings == [] <==> RawOk(visits)
    ensures forall rel :: rel in out <==> RawFile(visits, rel)
  {
    out, findings := [], [];
    for i := 0 to |visits|
      invariant findings == [] <==> RawOk(visits[..i])
      invariant forall k :: 0 <= k < |out| ==> RawFile(visits, out[k])
      invariant forall k :: 0 <= k < i && visits[k].node.File? && !Ignored(Rel(visits[k])) ==> Rel(visits[k]) in out
    {
      var rel := Rel(visits[i]);
      if Ignored(rel) {
        continue;
      }
      if visits[i].node.Symlink? {
        findings := findings + [AtPath(rel, RawSymlink)];
      } else if visits[i].node.Dir? {
        continue;
      } else if !visits[i].node.File? {
        findings := findings + [AtPath(rel, RawNotRegular)];
      } else {
        out := out + [rel];
      }
    }
    assert visits[..|visits|] == visits;
  }

  /** validateBundleControlFile */
  method ControlFile(es: seq<Entry>, name: string) returns (findings: seq<Finding>, ok: bool)
    ensures ok <==> Child(es, name).Some? && Child(es, name).value.File?
    ensures ok <==> findings == []
  {
    var info := Child(es, name);
    if info.None? {
      return [AtPath(name, MissingControlFile)], false;
    }
    if info.value.Symlink? {
      return [AtPath(name, ControlSymlink)], false;
    }
    if !info.value.File? {
      return [AtPath(name, ControlNotRegular)], false;
    }
    return [], true;
  }

  /** validateOptionalBundleControlFile */
  method OptionalControlFile(es: seq<Entry>, name: string) returns (findings: seq<Finding>)
    ensures findings == [] <==> Child(es, name).None? || Child(es, name).value.File?
  {
    if Child(es, name).None? {
      return [];
    }
    var ok;
    findings, ok := ControlFile(es, name);
  }

  /** The entries that need no checksum: the three control files of the bundle itself, and whatever is
      called .DS_Store, in any directory. */
  ghost predicate Exempt(names: seq<string>) {
    || names == ["README.md"] || names == ["SHA256SUMS"] || names == ["SHA256SUMS.sig"]
    || (names != [] && names[|names| - 1] == ".DS_Store")
  }

  /** The path test of the walk is that condition on the names of the path. */
  lemma IgnoredIsExempt(names: seq<string>)
    requires names != [] && forall i :: 0 <= i < |names| ==> FileName(names[i])
    ensures Ignored(Join(names, '/')) <==> Exempt(names)
  {
    ControlNames();
    OneName(names, "README.md");
    OneName(names, "SHA256SUMS");
    OneName(names, "SHA256SUMS.sig");
    PartsOf(names);
    IgnoredOf(names, Join(names, '/'));
  }

  lemma IgnoredOf(names: seq<string>, rel: string)
    requires Split(rel, '/') == names
    requires (rel == "README.md" <==> names == ["README.md"]) && (rel == "SHA256SUMS" <==> names == ["SHA256SUMS"])
    requires rel == "SHA256SUMS.sig" <==> names == ["SHA256SUMS.sig"]
    ensures Ignored(rel) <==> Exempt(names)
  {
  }

  lemma PartsOf(names: seq<string>)
    requires names != [] && forall i :: 0 <= i < |names| ==> FileName(names[i])
    ensures Split(Join(names, '/'), '/') == names
  {
    forall i | 0 <= i < |names| ensures '/' !in names[i] { assert FileName(names[i]); }
    SplitJoin(names, '/');
  }

  lemma ControlNames()
    ensures '/' !in "README.md" && '/' !in "SHA256SUMS" && '/' !in "SHA256SUMS.sig"
  {
  }

  /** A path of file names is a single file name only if it is that one name. */
  lemma OneName(names: seq<string>, name: string)
    requires names != [] && forall i :: 0 <= i < |names| ==> FileName(names[i])
    requires '/' !in name
    ensures Join(names, '/') == name <==> names == [name]
  {
    PartsOf(names);
    SplitAtSeparator(name, "", '/');
  }

  /** Every entry of the bundle is exempt, a directory, or a regular file with a covered path. */
  ghost predicate Covers(es: seq<Entry>, covered: set<string>) {
    forall names: seq<string> :: At(es, names).Some? && !Exempt(names) ==>
      At(es, names).value.Dir? || (At(es, names).value.File? && Join(names, '/') in covered)
  }

  /** A checksum file that says everything right about a bundle. */
  ghost predicate SumsConform(digest: string -> string, es: seq<Entry>, content: string) {
    && ScanLines(content).Some?
    && var lines := ScanLines(content).value;
       var entries := EntriesOf(lines);
       && (forall i :: 0 <= i < |lines| ==> GoodLine(lines[i])) && DistinctPaths(entries) && |entries| > 0
       && (forall i :: 0 <= i < |entries| ==> Matches(digest, es, entries[i]))
       && Covers(es, PathSet(entries))
  }

  /** What an acceptable bundle directory is. */
  ghost predicate Conforms(digest: string -> string, es: seq<Entry>) {
    && Child(es, "README.md").Some? && Child(es, "README.md").value.File?
    && (Child(es, "SHA256SUMS.sig").None? || Child(es, "SHA256SUMS.sig").value.File?)
    && Child(es, "SHA256SUMS").Some? && Child(es, "SHA256SUMS").value.File?
    && SumsConform(digest, es, Child(es, "SHA256SUMS").value.content)
  }

  /** The walk sees what the lookup sees. */
  lemma WalkIsTree(es: seq<Entry>, covered: set<string>)
    requires Tree(es)
    ensures Covers(es, covered) <==> RawOk(Walk([], es)) && forall rel :: RawFile(Walk([], es), rel) ==> rel in covered
  {
    var visits := Walk([], es);
    forall i | 0 <= i < |visits| ensures At(es, visits[i].names) == Some(visits[i].node) {
      WalkSound([], es, visits[i]);
      assert visits[i].names[0..] == visits[i].names;
    }
    forall names: seq<string> | At(es, names).Some? ensures Exempt(names) <==> Ignored(Join(names, '/')) {
      NamesAt(es, names);
      IgnoredIsExempt(names);
    }
    if RawOk(visits) && forall rel :: RawFile(visits, rel) ==> rel in covered {
      forall names: seq<string> | At(es, names).Some? && !Exempt(names)
        ensures At(es, names).value.Dir? || (At(es, names).value.File? && Join(names, '/') in covered)
      {
        WalkComplete([], es, names);
        assert [] + names == names;
        var i :| 0 <= i < |visits| && visits[i] == Visit(names, At(es, names).value);
        assert Rel(visits[i]) == Join(names, '/');
      }
    }
    if Covers(es, covered) {
      forall i | 0 <= i < |visits| && !Ignored(Rel(visits[i]))
        ensures visits[i].node.Dir? || (visits[i].node.File? && Rel(visits[i]) in covered)
      {
        assert Rel(visits[i]) == Join(visits[i].names, '/');
      }
    }
  }

  /** Coverage: the raw files that no entry names. */
  method Uncovered(raw: seq<string>, covered: set<string>) returns (findings: seq<Finding>)
    ensures findings == [] <==> forall rel :: rel in raw ==> rel in covered
  {
    findings := [];
    for i := 0 to |raw|
      invariant findings == [] <==> forall k :: 0 <= k < i ==> raw[k] in covered
    {
      if raw[i] !in covered {
        findings := findings + [AtPath(raw[i], NotCovered)];
      }
    }
  }

  /** The checked entries and the paths they cover. */
  method VerifyAll(digest: string -> string, es: seq<Entry>, entries: seq<ChecksumEntry>)
    returns (covered: set<string>, findings: seq<Finding>)
    ensures covered == PathSet(entries)
    ensures findings == [] <==> forall k :: 0 <= k < |entries| ==> Matches(digest, es, entries[k])
  {
    covered, findings := {}, [];
    for i := 0 to |entries|
      invariant covered == PathSet(entries[..i])
      invariant findings == [] <==> forall k :: 0 <= k < i ==> Matches(digest, es, entries[k])
    {
      covered := covered + {entries[i].path};
      var more := VerifyEntry(digest, es, entries[i]);
      findings := findings + more;
      assert entries[..i + 1][..i] == entries[..i];
    }
    assert entries[..|entries|] == entries;
  }

  /** checkBundle from the scan of SHA256SUMS on. */
  method CheckSums(digest: string -> string, es: seq<Entry>, content: string) returns (findings: seq<Finding>)
    requires Tree(es)
    ensures findings == [] <==> SumsConform(digest, es, content)
  {
    if ScanLines(content).None? {
      return [AtPath("SHA256SUMS", ScanError)];
    }
    var entries;
    entries, findings := ParseLines(ScanLines(content).value);
    if |entries| == 0 {
      findings := findings + [AtPath("SHA256SUMS", NoEntries)];
    }
    var covered, mismatches := VerifyAll(digest, es, entries);
    findings := findings + mismatches;
    var raw, rawFindings := BundleRawFiles(Walk([], es));
    findings := findings + rawFindings;
    var missing := Uncovered(raw, covered);
    findings := findings + missing;
    WalkIsTree(es, covered);
  }

  /** checkBundle: no findings exactly when the bundle is a real directory that conforms. */
  method CheckBundle(digest: string -> string, repo: seq<Entry>, bundle: string) returns (findings: seq<Finding>)
    requires Tree(repo)
    ensures findings == [] <==>
            && SafeSlashPath(bundle, true)
            && var root := At(repo, Split(TrimSlash(bundle), '/'));
               root.Some? && root.value.Dir? && Conforms(digest, root.value.entries)
  {
    var root := LstatRepoRelative(repo, bundle);
    if root.Rejected? {
      return [AtPath(bundle, root.problem)];
    }
    if root.node.Symlink? {
      return [AtPath(bundle, RootSymlink)];
    }
    if !root.node.Dir? {
      return [AtPath(bundle, RootNotDirectory)];
    }
    var es := root.node.entries;
    TreeAt(repo, Split(TrimSlash(bundle), '/'));
    var readme, _ := ControlFile(es, "README.md");
    var sig := OptionalControlFile(es, "SHA256SUMS.sig");
    var sums, ok := ControlFile(es, "SHA256SUMS");
    findings := readme + sig + sums;
    if !ok {
      return;
    }
    var more := CheckSums(digest, es, Child(es, "SHA256SUMS").value.content);
    findings := findings + more;
  }

  lemma {:induction false} TreeAt(es: seq<Entry>, names: seq<string>)
    requires Tree(es)
    ensures At(es, names).Some? && At(es, names).value.Dir? ==> Tree(At(es, names).value.entries)
    decreases |names|
  {
    if At(es, names).Some? {
      var i := ChildIs(es, names[0]);
      if |names| > 1 { TreeAt(es[i].node.entries, names[1..]); }
    }
  }

  // ------------------------------------------------------- what an accepted bundle guarantees

  lemma {:induction false} NamesAt(es: seq<Entry>, names: seq<string>)
    requires Tree(es) && At(es, names).Some?
    ensures names != [] && forall i :: 0 <= i < |names| ==> FileName(names[i])
    decreases |names|
  {
    var i := ChildIs(es, names[0]);
    if |names| > 1 { NamesAt(es[i].node.entries, names[1..]); }
  }

  /** Every proper prefix of an existing path is a directory, so no symlink is on it. */
  lemma {:induction false} ParentsAreDirectories(es: seq<Entry>, names: seq<string>, k: nat)
    requires At(es, names).Some? && 0 < k < |names|
    ensures At(es, names[..k]).Some? && At(es, names[..k]).value.Dir?
    decreases |names|
  {
    if k > 1 {
      ParentsAreDirectories(Child(es, names[0]).value.entries, names[1..], k - 1);
      assert names[1..][..k - 1] == names[..k][1..];
    }
  }

  /** In an accepted bundle every entry that is no directory, no control file of the bundle itself and
      not called .DS_Store is a regular file, listed exactly once, with its own digest beside its path. */
  lemma AcceptedFilesAreListedOnce(digest: string -> string, es: seq<Entry>, names: seq<string>) returns (k: nat)
    requires Tree(es) && Conforms(digest, es)
    requires At(es, names).Some? && !At(es, names).value.Dir?
    requires names != ["README.md"] && names != ["SHA256SUMS"] && names != ["SHA256SUMS.sig"] && names[|names| - 1] != ".DS_Store"
    ensures var entries := EntriesOf(ScanLines(Child(es, "SHA256SUMS").value.content).value);
            && At(es, names).value.File? && k < |entries|
            && entries[k] == ChecksumEntry(digest(At(es, names).value.content), Join(names, '/'))
            && forall j :: 0 <= j < |entries| && entries[j].path == Join(names, '/') ==> j == k
  {
    var entries := EntriesOf(ScanLines(Child(es, "SHA256SUMS").value.content).value);
    PathSetHas(entries, Join(names, '/'));
    k :| 0 <= k < |entries| && entries[k].path == Join(names, '/');
    assert Matches(digest, es, entries[k]);
    NamesAt(es, names);
    SplitJoin(names, '/');
  }

  /** An accepted bundle has its control files, and the exempt ones that matter are regular files. */
  lemma AcceptedControlFiles(digest: string -> string, es: seq<Entry>)
    requires Conforms(digest, es)
    ensures At(es, ["README.md"]).Some? && At(es, ["README.md"]).value.File?
    ensures At(es, ["SHA256SUMS"]).Some? && At(es, ["SHA256SUMS"]).value.File?
    ensures At(es, ["SHA256SUMS.sig"]).None? || At(es, ["SHA256SUMS.sig"]).value.File?
  {
  }

  /** One trailing slash is all that the repository form of a path may add to the bundle form. */
  lemma SafeWithSlash(ref: string)
    ensures SafeSlashPath(ref, true) <==> SafeSlashPath(ref, false) || (ref != "" && ref[|ref| - 1] == '/' && SafeSlashPath(ref[..|ref| - 1], false))
  {
    if ref != "" && ref[|ref| - 1] == '/' {
      var t := ref[..|ref| - 1];
      assert ref == t + "/" && TrimSlash(ref) == t;
      SafePathNames(t);
      forall c: char | c != '/' ensures c in ref <==> c in t { }
      if t != "" {
        TrailingSeparator(t, '/');
        assert ref[0] == t[0];
        assert t[|t| - 1] == '/' ==> Split(t, '/')[|Split(t, '/')| - 1] in Split(t, '/');
        assert t[|t| - 1] == '/' ==> |TrimSlash(t)| < |t|;
      }
    }
  }
}
