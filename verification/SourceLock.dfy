/** The source lock: one line for the entry, one for each root, one for each file with its digest. */
module SourceLock {
  import opened Common

  datatype File = File(path: string, digest: string)

  datatype Lock = Lock(entry: Option<string>, roots: seq<string>, files: seq<File>)

  /** The characters at which Python's `splitlines` ends a line. */
  predicate Break(c: char) {
    var n := c as int;
    (10 <= n <= 13) || (28 <= n <= 30) || n == 0x85 || n == 0x2028 || n == 0x2029
  }

  predicate OneLine(s: string) { forall i :: 0 <= i < |s| ==> !Break(s[i]) }

  function UpToBreak(s: string): (n: nat)
    ensures n <= |s| && (forall i :: 0 <= i < n ==> !Break(s[i])) && (n < |s| ==> Break(s[n]))
  {
    if s == "" || Break(s[0]) then 0 else 1 + UpToBreak(s[1..])
  }

  function SplitLines(s: string): seq<string> {
    if s == "" then []
    else
      var n := UpToBreak(s);
      if n == |s| then [s]
      else [s[..n]] + SplitLines(s[if s[n] == '\r' && n + 1 < |s| && s[n + 1] == '\n' then n + 2 else n + 1..])
  }

  function UpToSpace(s: string): (n: nat)
    ensures n <= |s| && (forall i :: 0 <= i < n ==> s[i] != ' ') && (n < |s| ==> s[n] == ' ')
  {
    if s == "" || s[0] == ' ' then 0 else 1 + UpToSpace(s[1..])
  }

  /** What stands before and after the first space. */
  function SplitOnce(s: string): Option<(string, string)> {
    var n := UpToSpace(s);
    if n == |s| then None else Some((s[..n], s[n + 1..]))
  }

  function Component(s: string): (n: nat)
    ensures n <= |s|
  {
    if s == "" || s[0] == '/' then 0 else 1 + Component(s[1..])
  }

  /** Some part of the path between slashes is `..`. */
  predicate Climbs(s: string) {
    if s == "" then false
    else
      var n := Component(s);
      s[..n] == ".." || (n < |s| && Climbs(s[n + 1..]))
  }

  predicate Sound(path: string) { path != "" && path[0] == '/' && !Climbs(path) }

  /** One record, given which stored files have which digest; `None` when the reader stops. */
  function Record(l: Lock, line: string, stored: (string, string) -> bool): Option<Lock> {
    var p := SplitOnce(line);
    if p.None? then None
    else
      var (kind, value) := p.value;
      if kind == "entry" then Some(l.(entry := Some(value)))
      else if kind == "root" then Some(l.(roots := l.roots + [value]))
      else if kind == "file" then
        var f := SplitOnce(value);
        if f.None? then None
        else
          var (digest, path) := f.value;
          if Sound(path) && stored(path, digest)
          then Some(l.(files := l.files + [File(path, digest)])) else None
      else None
  }

  function Records(l: Lock, lines: seq<string>, stored: (string, string) -> bool): Option<Lock>
    decreases |lines|
  {
    if lines == [] then Some(l)
    else
      var m := Record(l, lines[0], stored);
      if m.None? then None else Records(m.value, lines[1..], stored)
  }

  const MAGIC: string := "KSL1\n"

  method Read(text: string, stored: (string, string) -> bool) returns (r: Option<Lock>)
    ensures r == if "KSL1\n" <= text then Records(Lock(None, [], []), SplitLines(text)[1..], stored) else None
  {
    if !(MAGIC <= text) {
      return None;
    }
    FirstLine(text);
    var l, lines := Lock(None, [], []), SplitLines(text)[1..];
    var i := 0;
    assert lines[0..] == lines;
    while i < |lines|
      invariant 0 <= i <= |lines|
      invariant Records(Lock(None, [], []), lines, stored) == Records(l, lines[i..], stored)
    {
      var p := SplitOnce(lines[i]);
      if p.None? {
        return None;
      }
      var (kind, value) := p.value;
      if kind == "entry" {
        l := l.(entry := Some(value));
      } else if kind == "root" {
        l := l.(roots := l.roots + [value]);
      } else if kind == "file" {
        var f := SplitOnce(value);
        if f.None? {
          return None;
        }
        var (digest, path) := f.value;
        if !(Sound(path) && stored(path, digest)) {
          return None;
        }
        l := l.(files := l.files + [File(path, digest)]);
      } else {
        return None;
      }
      assert lines[i..][1..] == lines[i + 1..];
      i := i + 1;
    }
    return Some(l);
  }

  lemma FirstLine(text: string)
    requires MAGIC <= text
    ensures |SplitLines(text)| > 0
  {
  }

  // ---------------------------------------------------------------- writing

  function Text(lines: seq<string>): string {
    if lines == [] then "" else lines[0] + "\n" + Text(lines[1..])
  }

  function EntryLine(entry: string): string { "entry " + entry }

  function RootLine(root: string): string { "root " + root }

  function FileLine(f: File): string { "file " + f.digest + " " + f.path }

  function RootLines(roots: seq<string>): seq<string> {
    if roots == [] then [] else [RootLine(roots[0])] + RootLines(roots[1..])
  }

  function FileLines(files: seq<File>): seq<string> {
    if files == [] then [] else [FileLine(files[0])] + FileLines(files[1..])
  }

  function Lines(entry: string, roots: seq<string>, files: seq<File>): seq<string> {
    [EntryLine(entry)] + RootLines(roots) + FileLines(files)
  }

  function Write(entry: string, roots: seq<string>, files: seq<File>): string {
    MAGIC + Text(Lines(entry, roots, files))
  }

  predicate Plain(s: string) { OneLine(s) && forall i :: 0 <= i < |s| ==> s[i] != ' ' }

  ghost predicate Writable(entry: string, roots: seq<string>, files: seq<File>) {
    && OneLine(entry) && (forall i :: 0 <= i < |roots| ==> OneLine(roots[i]))
    && forall i :: 0 <= i < |files| ==> OneLine(files[i].path) && Plain(files[i].digest) && Sound(files[i].path)
  }

  ghost predicate Stored(files: seq<File>, stored: (string, string) -> bool) {
    forall i :: 0 <= i < |files| ==> stored(files[i].path, files[i].digest)
  }

  lemma SameBreak(s: string, n: nat)
    requires n < |s| && Break(s[n]) && forall i :: 0 <= i < n ==> !Break(s[i])
    ensures UpToBreak(s) == n
  {
  }

  lemma SameSpace(s: string, n: nat)
    requires n < |s| && s[n] == ' ' && forall i :: 0 <= i < n ==> s[i] != ' '
    ensures UpToSpace(s) == n
  {
  }

  lemma LineThenRest(line: string, rest: string)
    requires OneLine(line)
    ensures SplitLines(line + "\n" + rest) == [line] + SplitLines(rest)
  {
    var s, n := line + "\n" + rest, |line|;
    assert s[..n] == line && s[n] == '\n' && s[n + 1..] == rest;
    SameBreak(s, n);
    hide UpToBreak, Break;
  }

  lemma {:induction false} LinesOfText(lines: seq<string>)
    requires forall i :: 0 <= i < |lines| ==> OneLine(lines[i])
    ensures SplitLines(Text(lines)) == lines
  {
    if lines != [] {
      LinesOfText(lines[1..]);
      hide OneLine, SplitLines;
      LineThenRest(lines[0], Text(lines[1..]));
    }
  }

  lemma SplitPair(a: string, b: string)
    requires forall i :: 0 <= i < |a| ==> a[i] != ' '
    ensures SplitOnce(a + " " + b) == Some((a, b))
  {
    var s := a + " " + b;
    assert s[|a|] == ' ' && s[..|a|] == a && s[|a| + 1..] == b;
    SameSpace(s, |a|);
    hide UpToSpace;
  }

  lemma {:induction false} RecordsAppend(l: Lock, a: seq<string>, b: seq<string>, stored: (string, string) -> bool)
    ensures Records(l, a + b, stored)
         == var m := Records(l, a, stored); if m.None? then None else Records(m.value, b, stored)
    decreases |a|
  {
    hide Record;
    if a == [] {
      assert a + b == b;
    } else {
      assert (a + b)[1..] == a[1..] + b;
      var m := Record(l, a[0], stored);
      if m.Some? {
        RecordsAppend(m.value, a[1..], b, stored);
      }
    }
  }

  lemma RecordsStep(l: Lock, x: string, rest: seq<string>, stored: (string, string) -> bool)
    ensures Records(l, [x] + rest, stored)
         == var m := Record(l, x, stored); if m.None? then None else Records(m.value, rest, stored)
  {
    hide Record;
    assert ([x] + rest)[1..] == rest;
  }

  lemma EntryRecord(l: Lock, entry: string, stored: (string, string) -> bool)
    ensures Record(l, EntryLine(entry), stored) == Some(l.(entry := Some(entry)))
  {
    SplitPair("entry", entry);
    assert "entry" + " " + entry == EntryLine(entry);
    hide SplitOnce, EntryLine;
  }

  lemma RootRecord(l: Lock, root: string, stored: (string, string) -> bool)
    ensures Record(l, RootLine(root), stored) == Some(l.(roots := l.roots + [root]))
  {
    SplitPair("root", root);
    assert "root" + " " + root == RootLine(root);
    hide SplitOnce, RootLine;
  }

  lemma FileRecordIs(l: Lock, line: string, value: string, f: File, stored: (string, string) -> bool)
    requires SplitOnce(line) == Some(("file", value)) && SplitOnce(value) == Some((f.digest, f.path))
    requires Sound(f.path) && stored(f.path, f.digest)
    ensures Record(l, line, stored) == Some(l.(files := l.files + [f]))
  {
    hide SplitOnce, Sound;
  }

  lemma FileText(f: File)
    ensures FileLine(f) == "file" + " " + (f.digest + " " + f.path)
  {
  }

  lemma FileRecord(l: Lock, f: File, stored: (string, string) -> bool)
    requires Plain(f.digest) && Sound(f.path) && stored(f.path, f.digest)
    ensures Record(l, FileLine(f), stored) == Some(l.(files := l.files + [f]))
  {
    hide SplitOnce, Sound, FileLine, Record;
    var kind, value := "file", f.digest + " " + f.path;
    FileText(f);
    SplitPair(f.digest, f.path);
    assert Plain(kind);
    SplitPair(kind, value);
    FileRecordIs(l, FileLine(f), value, f, stored);
  }

  lemma {:induction false} ReadRoots(l: Lock, roots: seq<string>, stored: (string, string) -> bool)
    ensures Records(l, RootLines(roots), stored) == Some(l.(roots := l.roots + roots))
    decreases |roots|
  {
    hide RootLine, Record;
    if roots == [] {
      assert l.roots + [] == l.roots;
    } else {
      RootRecord(l, roots[0], stored);
      ReadRoots(l.(roots := l.roots + [roots[0]]), roots[1..], stored);
      RecordsStep(l, RootLine(roots[0]), RootLines(roots[1..]), stored);
      assert l.roots + [roots[0]] + roots[1..] == l.roots + roots;
    }
  }

  lemma {:induction false} ReadFiles(l: Lock, files: seq<File>, stored: (string, string) -> bool)
    requires Stored(files, stored) && forall i :: 0 <= i < |files| ==> Plain(files[i].digest) && Sound(files[i].path)
    ensures Records(l, FileLines(files), stored) == Some(l.(files := l.files + files))
    decreases |files|
  {
    hide FileLine, Record, Sound, Plain;
    if files == [] {
      assert l.files + [] == l.files;
    } else {
      FileRecord(l, files[0], stored);
      ReadFiles(l.(files := l.files + [files[0]]), files[1..], stored);
      RecordsStep(l, FileLine(files[0]), FileLines(files[1..]), stored);
      assert l.files + [files[0]] + files[1..] == l.files + files;
    }
  }

  lemma ReadAll(entry: string, roots: seq<string>, files: seq<File>, stored: (string, string) -> bool)
    requires Writable(entry, roots, files) && Stored(files, stored)
    ensures Records(Lock(None, [], []), Lines(entry, roots, files), stored) == Some(Lock(Some(entry), roots, files))
  {
    hide Record, Records, RootLines, FileLines, EntryLine, Sound, Plain, OneLine;
    var l, m, n := Lock(None, [], []), Lock(Some(entry), [], []), Lock(Some(entry), roots, []);
    EntryRecord(l, entry, stored);
    ReadRoots(m, roots, stored);
    ReadFiles(n, files, stored);
    assert m.roots + roots == roots && n.files + files == files;
    RecordsAppend(m, RootLines(roots), FileLines(files), stored);
    RecordsStep(l, EntryLine(entry), RootLines(roots) + FileLines(files), stored);
    assert Lines(entry, roots, files) == [EntryLine(entry)] + (RootLines(roots) + FileLines(files));
  }

  lemma {:induction false} RootsPlain(roots: seq<string>)
    requires forall i :: 0 <= i < |roots| ==> OneLine(roots[i])
    ensures forall i :: 0 <= i < |RootLines(roots)| ==> OneLine(RootLines(roots)[i])
  {
    if roots != [] {
      RootsPlain(roots[1..]);
      assert OneLine(RootLine(roots[0]));
      hide RootLine, OneLine;
    }
  }

  lemma {:induction false} FilesPlain(files: seq<File>)
    requires forall i :: 0 <= i < |files| ==> OneLine(files[i].path) && Plain(files[i].digest)
    ensures forall i :: 0 <= i < |FileLines(files)| ==> OneLine(FileLines(files)[i])
  {
    if files != [] {
      FilesPlain(files[1..]);
      assert OneLine(FileLine(files[0]));
      hide FileLine, OneLine, Plain;
    }
  }

  lemma LinesPlain(entry: string, roots: seq<string>, files: seq<File>)
    requires Writable(entry, roots, files)
    ensures forall i :: 0 <= i < |Lines(entry, roots, files)| ==> OneLine(Lines(entry, roots, files)[i])
  {
    RootsPlain(roots);
    FilesPlain(files);
    assert OneLine(EntryLine(entry));
    hide RootLines, FileLines, OneLine, Plain, Sound, EntryLine;
  }

  /** A lock reads back as what it was written from, whatever spaces its paths hold. */
  lemma WriteThenRead(entry: string, roots: seq<string>, files: seq<File>, stored: (string, string) -> bool)
    requires Writable(entry, roots, files) && Stored(files, stored)
    ensures var text := Write(entry, roots, files);
            && "KSL1\n" <= text && |SplitLines(text)| > 0
            && Records(Lock(None, [], []), SplitLines(text)[1..], stored) == Some(Lock(Some(entry), roots, files))
  {
    hide Records, SplitLines, Lines, Text, Plain, Sound, Writable, Stored;
    var lines, head := Lines(entry, roots, files), "KSL1";
    LinesPlain(entry, roots, files);
    LinesOfText(lines);
    LineThenRest(head, Text(lines));
    assert head + "\n" + Text(lines) == Write(entry, roots, files);
    assert ([head] + lines)[1..] == lines;
    ReadAll(entry, roots, files, stored);
  }

  /** So two locks with the same text lock the same things. */
  lemma WriteInjective(e: string, r: seq<string>, f: seq<File>, e': string, r': seq<string>, f': seq<File>)
    requires Writable(e, r, f) && Writable(e', r', f') && Write(e, r, f) == Write(e', r', f')
    ensures e == e' && r == r' && f == f'
  {
    var anything := (p: string, d: string) => true;
    WriteThenRead(e, r, f, anything);
    WriteThenRead(e', r', f', anything);
  }

  // ---------------------------------------------------------------- exactly what is read

  /** Some part of the path between slashes is two dots. */
  ghost predicate GoesUp(s: string) {
    exists i, j :: 0 <= i <= j <= |s| && UpFrom(s, i, j)
  }

  predicate UpFrom(s: string, i: nat, j: nat)
    requires i <= j <= |s|
  {
    s[i..j] == ".." && (i == 0 || s[i - 1] == '/') && (j == |s| || s[j] == '/')
  }

  lemma ComponentIs(s: string)
    ensures var n := Component(s); (n < |s| ==> s[n] == '/') && forall k :: 0 <= k < n ==> s[k] != '/'
  {
  }

  /** Past the first part, the parts of the rest are the parts of the whole. */
  lemma UpLater(s: string, n: nat, i: nat, j: nat)
    requires n < |s| && s[n] == '/' && n < i <= j <= |s|
    ensures UpFrom(s, i, j) <==> UpFrom(s[n + 1..], i - n - 1, j - n - 1)
  {
    assert s[n + 1..][i - n - 1..j - n - 1] == s[i..j];
  }

  lemma {:induction false} ClimbsExact(s: string)
    ensures Climbs(s) <==> GoesUp(s)
    decreases |s|
  {
    if s != "" {
      var n := Component(s);
      ComponentIs(s);
      hide Component;
      if n < |s| {
        ClimbsExact(s[n + 1..]);
      }
      if Climbs(s) {
        if s[..n] == ".." {
          assert UpFrom(s, 0, n);
        } else {
          var i, j :| 0 <= i <= j <= |s| - n - 1 && UpFrom(s[n + 1..], i, j);
          UpLater(s, n, n + 1 + i, n + 1 + j);
        }
      }
      if GoesUp(s) {
        var i, j :| 0 <= i <= j <= |s| && UpFrom(s, i, j);
        if i == 0 {
          assert j == 2;
        } else if i <= n {
          assert s[i - 1] == '/';
        } else {
          UpLater(s, n, i, j);
        }
      }
    }
  }

  /** A file that may be locked: an absolute path with no part `..`, stored with that digest. */
  ghost predicate Kept(f: File, stored: (string, string) -> bool) {
    f.path != "" && f.path[0] == '/' && !GoesUp(f.path) && stored(f.path, f.digest)
  }

  ghost predicate NoSpace(s: string) { forall i :: 0 <= i < |s| ==> s[i] != ' ' }

  /** What one line says, and what the lock is after it. */
  ghost predicate Says(line: string, l: Lock, m: Lock, stored: (string, string) -> bool) {
    || (exists e :: line == "entry " + e && m == l.(entry := Some(e)))
    || (exists r :: line == "root " + r && m == l.(roots := l.roots + [r]))
    || exists f: File :: line == "file " + f.digest + " " + f.path && NoSpace(f.digest) && Kept(f, stored)
                         && m == l.(files := l.files + [f])
  }

  /** A line is taken exactly when it says something, and it says one thing only. */
  lemma RecordExact(l: Lock, line: string, m: Lock, stored: (string, string) -> bool)
    ensures Record(l, line, stored) == Some(m) <==> Says(line, l, m, stored)
  {
    if Record(l, line, stored) == Some(m) {
      RecordSound(l, line, m, stored);
    }
    if Says(line, l, m, stored) {
      RecordComplete(l, line, m, stored);
    }
  }

  lemma OnceSplit(s: string)
    requires SplitOnce(s).Some?
    ensures var (a, b) := SplitOnce(s).value; s == a + " " + b && NoSpace(a)
  {
    var n := UpToSpace(s);
    assert s == s[..n] + [s[n]] + s[n + 1..];
  }

  lemma RecordSound(l: Lock, line: string, m: Lock, stored: (string, string) -> bool)
    requires Record(l, line, stored) == Some(m)
    ensures Says(line, l, m, stored)
  {
    hide SplitOnce, Climbs, GoesUp, NoSpace;
    OnceSplit(line);
    var (kind, value) := SplitOnce(line).value;
    if kind == "entry" {
      assert line == "entry " + value;
    } else if kind == "root" {
      assert line == "root " + value;
    } else {
      OnceSplit(value);
      var (digest, path) := SplitOnce(value).value;
      ClimbsExact(path);
      FileText(File(path, digest));
      assert line == "file " + digest + " " + path;
      assert Kept(File(path, digest), stored);
    }
  }

  lemma RecordComplete(l: Lock, line: string, m: Lock, stored: (string, string) -> bool)
    requires Says(line, l, m, stored)
    ensures Record(l, line, stored) == Some(m)
  {
    hide Record, Climbs, GoesUp;
    if e :| line == "entry " + e && m == l.(entry := Some(e)) {
      EntryRecord(l, e, stored);
    } else if r :| line == "root " + r && m == l.(roots := l.roots + [r]) {
      RootRecord(l, r, stored);
    } else {
      var f: File :| line == "file " + f.digest + " " + f.path && NoSpace(f.digest) && Kept(f, stored)
                     && m == l.(files := l.files + [f]);
      ClimbsExact(f.path);
      FileRead(l, f, stored);
    }
  }

  lemma FileRead(l: Lock, f: File, stored: (string, string) -> bool)
    requires NoSpace(f.digest) && Sound(f.path) && stored(f.path, f.digest)
    ensures Record(l, FileLine(f), stored) == Some(l.(files := l.files + [f]))
  {
    hide SplitOnce, Sound, FileLine, Record;
    var kind, value := "file", f.digest + " " + f.path;
    FileText(f);
    SplitPair(f.digest, f.path);
    assert NoSpace(kind);
    SplitPair(kind, value);
    FileRecordIs(l, FileLine(f), value, f, stored);
  }

  /** A line that says something, whatever was locked before. */
  ghost predicate Good(line: string, stored: (string, string) -> bool) {
    || "entry " <= line || "root " <= line
    || exists f: File :: line == "file " + f.digest + " " + f.path && NoSpace(f.digest) && Kept(f, stored)
  }

  lemma GoodRecord(l: Lock, line: string, stored: (string, string) -> bool)
    ensures Record(l, line, stored).Some? <==> Good(line, stored)
  {
    hide Record, Kept, NoSpace;
    if Record(l, line, stored).Some? {
      RecordExact(l, line, Record(l, line, stored).value, stored);
    }
    if Good(line, stored) {
      if "entry " <= line {
        assert line == "entry " + line[6..];
        RecordExact(l, line, l.(entry := Some(line[6..])), stored);
      } else if "root " <= line {
        assert line == "root " + line[5..];
        RecordExact(l, line, l.(roots := l.roots + [line[5..]]), stored);
      } else {
        var f: File :| line == "file " + f.digest + " " + f.path && NoSpace(f.digest) && Kept(f, stored);
        RecordExact(l, line, l.(files := l.files + [f]), stored);
      }
    }
  }

  /** A lock is read exactly when every line is good. */
  lemma {:induction false} ReadsExactly(l: Lock, lines: seq<string>, stored: (string, string) -> bool)
    ensures Records(l, lines, stored).Some? <==> forall i :: 0 <= i < |lines| ==> Good(lines[i], stored)
    decreases |lines|
  {
    hide Record, Good;
    if lines != [] {
      GoodRecord(l, lines[0], stored);
      var rest := lines[1..];
      if Record(l, lines[0], stored).Some? {
        ReadsExactly(Record(l, lines[0], stored).value, rest, stored);
      }
      assert lines == [lines[0]] + rest;
    }
  }

  /** Whatever files a lock names were stored with that digest when it was read. */
  lemma {:induction false} ReadsStored(l: Lock, lines: seq<string>, stored: (string, string) -> bool)
    requires Records(l, lines, stored).Some? && forall i :: 0 <= i < |l.files| ==> Kept(l.files[i], stored)
    ensures var m := Records(l, lines, stored).value; forall i :: 0 <= i < |m.files| ==> Kept(m.files[i], stored)
    decreases |lines|
  {
    hide Record, Kept;
    if lines != [] {
      var m := Record(l, lines[0], stored).value;
      RecordExact(l, lines[0], m, stored);
      ReadsStored(m, lines[1..], stored);
    }
  }

  // ---------------------------------------------------------------- lines

  /** The characters that end a line, spelled out. */
  const BREAKS: set<int> := {0x0a, 0x0b, 0x0c, 0x0d, 0x1c, 0x1d, 0x1e, 0x85, 0x2028, 0x2029}

  ghost predicate Unbroken(s: string) { forall i :: 0 <= i < |s| ==> s[i] as int !in BREAKS }

  /** Where lines end: at the first break, a carriage return taking a line feed with it. */
  lemma SplitExact(a: string, c: char, b: string)
    requires Unbroken(a) && c as int in BREAKS
    ensures SplitLines("") == [] && (a != "" ==> SplitLines(a) == [a])
    ensures SplitLines(a + [c] + b) == [a] + SplitLines(if c == '\r' && b != "" && b[0] == '\n' then b[1..] else b)
  {
    var s, n := a + [c] + b, |a|;
    assert s[..n] == a && s[n] == c && s[n + 1..] == b && Break(c);
    SameBreak(s, n);
    NoBreak(a);
    hide UpToBreak, Break, Unbroken;
    if b != "" {
      assert s[n + 1] == b[0] && s[n + 2..] == b[1..];
    }
  }

  lemma NoBreak(a: string)
    requires Unbroken(a)
    ensures UpToBreak(a) == |a|
  {
    var n := UpToBreak(a);
    hide UpToBreak;
  }

  lemma OneRoot(root: string)
    ensures RootLines([root]) == [RootLine(root)]
  {
    hide RootLine;
    assert [root][1..] == [] && RootLines([]) == [];
  }

  lemma OneFile(f: File)
    ensures FileLines([f]) == [FileLine(f)]
  {
    hide FileLine;
    assert [f][1..] == [] && FileLines([]) == [];
  }

  /** A lock of one root and one file, as text. */
  lemma WriteIs(entry: string, root: string, f: File)
    ensures Write(entry, [root], [f])
         == "KSL1\n" + ("entry " + entry) + "\n" + ("root " + root) + "\n" + ("file " + f.digest + " " + f.path) + "\n"
  {
    hide RootLines, FileLines, Text;
    OneRoot(root);
    OneFile(f);
    TextOne(EntryLine(entry), RootLine(root), FileLine(f));
    FourLines("KSL1\n", EntryLine(entry), RootLine(root), FileLine(f));
  }

  lemma FourLines(h: string, a: string, b: string, c: string)
    ensures h + (a + "\n" + b + "\n" + c + "\n") == h + a + "\n" + b + "\n" + c + "\n"
  {
  }

  lemma TextOne(a: string, b: string, c: string)
    ensures Text([a] + [b] + [c]) == a + "\n" + b + "\n" + c + "\n"
  {
    assert Text([c]) == c + "\n";
    assert [b, c][1..] == [c];
    assert Text([b, c]) == b + "\n" + c + "\n";
    assert ([a] + [b] + [c])[1..] == [b, c];
  }
}
