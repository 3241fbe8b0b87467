/** Which directories the ld.so.conf files already configure. */
module Ldconfig {
  import opened Wrappers
  import opened Sequences
  import opened Strings

  datatype ConfFile = Unreadable | Readable(content: string)

  /** The files that exist; any other name is skipped without an error. */
  type Files = map<string, ConfFile>

  /** filepath.Glob: the names a pattern stands for; None for an invalid pattern. */
  type Glob = string -> Option<seq<string>>

  datatype Line = Blank | Include(pattern: string) | Directory(path: string)

  const INCLUDE := "include "
  const NEWLINE := '\n'

  function DropCR(line: string): string {
    if line != "" && line[|line| - 1] == '\r' then line[..|line| - 1] else line
  }

  /** The size of a string in UTF-8. */
  function Size(s: string): nat {
    if s == "" then 0
    else
      var c := s[0] as int;
      (if c < 0x80 then 1 else if c < 0x800 then 2 else if c < 0x10000 then 3 else 4) + Size(s[1..])
  }

  /** bufio.MaxScanTokenSize */
  const MAX_SCAN_TOKEN_SIZE := 65536

  /** A scanner stops, silently for the caller, at the first line that does not fit into its buffer. */
  function Scanned(lines: seq<string>): (n: nat)
    ensures n <= |lines| && (forall i :: 0 <= i < n ==> Size(lines[i]) < MAX_SCAN_TOKEN_SIZE)
    ensures n < |lines| ==> Size(lines[n]) >= MAX_SCAN_TOKEN_SIZE
  {
    if lines == [] || Size(lines[0]) >= MAX_SCAN_TOKEN_SIZE then 0 else 1 + Scanned(lines[1..])
  }

  /** bufio.ScanLines: no newlines, no carriage return before them, no empty last line. */
  function ScanLines(content: string): seq<string> {
    var parts := Split(content, NEWLINE);
    var lines := if parts[|parts| - 1] == "" then parts[..|parts| - 1] else parts;
    Map(DropCR, lines[..Scanned(lines)])
  }

  function ParseLine(text: string): Line {
    var line := TrimSpace(text);
    if HasPrefix(line, "#") || line == "" then Blank
    else if HasPrefix(line, INCLUDE) then Include(TrimPrefix(line, INCLUDE))
    else Directory(line)
  }

  function LineDirectories(text: string): seq<string> {
    match ParseLine(text)
    case Directory(path) => [path]
    case _ => []
  }

  function LineIncludes(glob: Glob, text: string): seq<string> {
    match ParseLine(text)
    case Include(pattern) => if glob(pattern).Some? then glob(pattern).value else []
    case _ => []
  }

  function Directories(lines: seq<string>): seq<string> {
    if lines == [] then [] else Directories(lines[..|lines| - 1]) + LineDirectories(lines[|lines| - 1])
  }

  function Includes(glob: Glob, lines: seq<string>): seq<string> {
    if lines == [] then [] else Includes(glob, lines[..|lines| - 1]) + LineIncludes(glob, lines[|lines| - 1])
  }

  method ProcessLdsoconfFile(files: Files, glob: Glob, filename: string) returns (r: Result<(seq<string>, seq<string>)>)
    ensures r.Err? <==> filename in files && files[filename].Unreadable?
    ensures r.Ok? ==> r.value == (FileDirectories(files, filename), FileIncludes(files, glob, filename))
  {
    hide ScanLines, ParseLine;
    if filename !in files { return Ok(([], [])); }
    if files[filename].Unreadable? { return Err("failed to open " + filename); }
    var lines := ScanLines(files[filename].content);
    var directories: seq<string>, includedFilenames: seq<string> := [], [];
    for i := 0 to |lines|
      invariant directories == Directories(lines[..i]) && includedFilenames == Includes(glob, lines[..i])
    {
      assert lines[..i + 1][..i] == lines[..i];
      match ParseLine(lines[i])
      case Blank =>
      case Include(pattern) =>
        var names := glob(pattern);
        if names.Some? { includedFilenames := includedFilenames + names.value; }
      case Directory(path) => directories := directories + [path];
    }
    assert lines[..|lines|] == lines;
    r := Ok((directories, includedFilenames));
  }

  function FileDirectories(files: Files, filename: string): seq<string> {
    if filename in files && files[filename].Readable? then Directories(ScanLines(files[filename].content)) else []
  }

  function FileIncludes(files: Files, glob: Glob, filename: string): seq<string> {
    if filename in files && files[filename].Readable? then Includes(glob, ScanLines(files[filename].content)) else []
  }

  // ----- the graph of includes -----

  /** What the walk over the configuration files needs to know of each file. */
  datatype Graph = Graph(includes: string -> seq<string>, lists: string -> seq<string>, fails: string -> bool)

  /** The empty name stands for no file. */
  function ConfGraph(files: Files, glob: Glob): Graph {
    Graph(name => if name == "" then [] else FileIncludes(files, glob, name),
          name => if name == "" then [] else FileDirectories(files, name),
          name => name != "" && name in files && files[name].Unreadable?)
  }

  /** Each file is included by the one before. */
  ghost predicate IsPath(graph: Graph, path: seq<string>) {
    path != [] && (|path| > 1 ==>
      path[|path| - 1] in graph.includes(path[|path| - 2]) && IsPath(graph, path[..|path| - 1]))
  }

  ghost predicate Reachable(graph: Graph, start: string, name: string) {
    exists path :: IsPath(graph, path) && path[0] == start && path[|path| - 1] == name
  }

  lemma StartIsReachable(graph: Graph, start: string)
    ensures Reachable(graph, start, start)
  {
    assert IsPath(graph, [start]);
  }

  lemma IncludedIsReachable(graph: Graph, start: string, name: string, included: string)
    requires Reachable(graph, start, name) && included in graph.includes(name)
    ensures Reachable(graph, start, included)
  {
    var path :| IsPath(graph, path) && path[0] == start && path[|path| - 1] == name;
    var longer := path + [included];
    assert longer[..|longer| - 1] == path;
    assert IsPath(graph, longer);
  }

  ghost predicate Closed(graph: Graph, names: set<string>) {
    forall p, q :: p in names && q in graph.includes(p) ==> q in names
  }

  lemma {:induction false} ClosedHoldsPath(graph: Graph, names: set<string>, path: seq<string>)
    requires IsPath(graph, path) && path[0] in names && Closed(graph, names)
    ensures path[|path| - 1] in names
  {
    if |path| > 1 { ClosedHoldsPath(graph, names, path[..|path| - 1]); }
  }

  lemma ClosedHoldsReachable(graph: Graph, start: string, names: set<string>, name: string)
    requires Reachable(graph, start, name) && start in names && Closed(graph, names)
    ensures name in names
  {
    var path :| IsPath(graph, path) && path[0] == start && path[|path| - 1] == name;
    ClosedHoldsPath(graph, names, path);
  }

  /** A reachable file that exists and cannot be read. */
  ghost predicate Failing(graph: Graph, start: string, name: string) {
    Reachable(graph, start, name) && graph.fails(name)
  }

  /** `d` is a system path or listed in some reachable file. */
  ghost predicate Configured(graph: Graph, system: seq<string>, start: string, d: string) {
    d in system || exists f :: Reachable(graph, start, f) && d in graph.lists(f)
  }

  // ----- the worklist -----

  datatype Progress = Progress(processed: set<string>, queue: seq<string>, dirs: set<string>)

  /** Whatever a processed file includes is processed or queued. */
  ghost predicate Pending(graph: Graph, w: Progress) {
    forall p, q :: p in w.processed && q in graph.includes(p) ==> q in w.processed || q in w.queue
  }

  /** The directories collected are those of the system and the processed files. */
  ghost predicate Collected(graph: Graph, system: seq<string>, w: Progress) {
    forall d :: d in w.dirs <==> d in system || exists p :: p in w.processed && d in graph.lists(p)
  }

  ghost predicate Sound(graph: Graph, start: string, w: Progress) {
    && (forall q :: q in w.queue ==> Reachable(graph, start, q))
    && (forall p :: p in w.processed ==> Reachable(graph, start, p) && !graph.fails(p))
    && (start in w.processed || start in w.queue)
  }

  ghost predicate Inv(graph: Graph, system: seq<string>, start: string, w: Progress) {
    Sound(graph, start, w) && Pending(graph, w) && Collected(graph, system, w)
  }

  /** Taking the next file off the queue and processing it. */
  function Processed(graph: Graph, w: Progress): Progress
    requires w.queue != []
  {
    var name := w.queue[0];
    if name in w.processed then w.(queue := w.queue[1..])
    else Progress(w.processed + {name}, w.queue[1..] + graph.includes(name), w.dirs + set d | d in graph.lists(name))
  }

  lemma ProcessedNothing(graph: Graph, w: Progress)
    requires w.queue != [] && w.queue[0] !in w.processed
    requires graph.includes(w.queue[0]) == [] == graph.lists(w.queue[0])
    ensures Processed(graph, w) == Progress(w.processed + {w.queue[0]}, w.queue[1..], w.dirs)
  {
    assert w.queue[1..] + [] == w.queue[1..];
  }

  lemma PendingStep(graph: Graph, w: Progress)
    requires w.queue != [] && Pending(graph, w)
    ensures Pending(graph, Processed(graph, w))
  {
    var w' := Processed(graph, w);
    forall p, q | p in w'.processed && q in graph.includes(p) ensures q in w'.processed || q in w'.queue {
      if p in w.processed && q in w.queue && q != w.queue[0] { assert q in w.queue[1..]; }
    }
  }

  lemma CollectedStep(graph: Graph, system: seq<string>, w: Progress)
    requires w.queue != [] && Collected(graph, system, w)
    ensures Collected(graph, system, Processed(graph, w))
  {
    var name, w' := w.queue[0], Processed(graph, w);
    if name !in w.processed {
      forall d ensures d in w'.dirs <==> d in system || exists p :: p in w'.processed && d in graph.lists(p) {
        if d in graph.lists(name) { assert name in w'.processed; }
        if d in w.dirs && d !in system {
          var p :| p in w.processed && d in graph.lists(p);
          assert p in w'.processed;
        }
      }
    }
  }

  lemma SoundStep(graph: Graph, start: string, w: Progress)
    requires w.queue != [] && Sound(graph, start, w) && !graph.fails(w.queue[0])
    ensures Sound(graph, start, Processed(graph, w))
  {
    var name, w' := w.queue[0], Processed(graph, w);
    forall q | q in w'.queue ensures Reachable(graph, start, q) {
      if q !in w.queue[1..] { IncludedIsReachable(graph, start, name, q); }
    }
    assert start in w.queue ==> start == name || start in w.queue[1..];
  }

  lemma InvStep(graph: Graph, system: seq<string>, start: string, w: Progress)
    requires w.queue != [] && Inv(graph, system, start, w) && !graph.fails(w.queue[0])
    ensures Inv(graph, system, start, Processed(graph, w))
  {
    SoundStep(graph, start, w);
    PendingStep(graph, w);
    CollectedStep(graph, system, w);
  }

  lemma InvFails(graph: Graph, system: seq<string>, start: string, w: Progress)
    requires w.queue != [] && Inv(graph, system, start, w) && graph.fails(w.queue[0])
    ensures Failing(graph, start, w.queue[0])
  {
    assert w.queue[0] in w.queue;
  }

  lemma InvStart(graph: Graph, system: seq<string>, start: string)
    ensures Inv(graph, system, start, Progress({}, [start], set d | d in system))
  {
    StartIsReachable(graph, start);
  }

  /** With the queue empty, the processed files are exactly the reachable ones. */
  lemma InvDone(graph: Graph, system: seq<string>, start: string, w: Progress)
    requires w.queue == [] && Inv(graph, system, start, w)
    ensures !exists f :: Failing(graph, start, f)
    ensures forall d :: d in w.dirs <==> Configured(graph, system, start, d)
  {
    forall f ensures f in w.processed <==> Reachable(graph, start, f) {
      if Reachable(graph, start, f) { ClosedHoldsReachable(graph, start, w.processed, f); }
    }
  }

  lemma InvHolds(graph: Graph, system: seq<string>, start: string, w: Progress)
    requires Inv(graph, system, start, w)
    ensures forall p :: p in w.processed ==> !graph.fails(p)
  {
  }

  /** A step either processes one more of the finitely many files or shortens the queue. */
  lemma Step(graph: Graph, system: seq<string>, start: string, files: set<string>, w: Progress) returns (w': Progress)
    requires w.queue != [] && Inv(graph, system, start, w) && !graph.fails(w.queue[0])
    requires w.queue[0] in files || graph.includes(w.queue[0]) == []
    ensures w' == Processed(graph, w) && Inv(graph, system, start, w')
    ensures |files - w'.processed| <= |files - w.processed|
    ensures |files - w'.processed| == |files - w.processed| ==> |w'.queue| < |w.queue|
  {
    hide Inv;
    w' := Processed(graph, w);
    InvStep(graph, system, start, w);
    FewerLeft(files, w.processed, w.queue[0]);
  }

  lemma FewerLeft(files: set<string>, processed: set<string>, name: string)
    ensures name in files && name !in processed ==> |files - (processed + {name})| < |files - processed|
    ensures |files - (processed + {name})| <= |files - processed|
  {
    var left := files - (processed + {name});
    assert files - processed == if name in files && name !in processed then left + {name} else left;
  }

  /** Cycles of includes end: a file is processed once. */
  method GetLdsoconfDirectories(files: Files, glob: Glob, system: seq<string>, start: string)
      returns (r: Result<set<string>>)
    ensures r.Err? <==> exists f :: Failing(ConfGraph(files, glob), start, f)
    ensures r.Ok? ==> forall d :: d in r.value <==> Configured(ConfGraph(files, glob), system, start, d)
    ensures r.Ok? ==>
      forall d :: d in r.value <==> d in system || Chained(files, glob, start, d)
  {
    hide Inv, Configured, Failing;
    ghost var graph := ConfGraph(files, glob);
    var ldconfigDirs := set d | d in system;
    var processed: set<string> := {};
    var queue := [start];
    ghost var w := Progress(processed, queue, ldconfigDirs);
    InvStart(graph, system, start);
    while queue != []
      invariant w == Progress(processed, queue, ldconfigDirs)
      invariant Inv(graph, system, start, w)
      decreases |files.Keys - processed|, |queue|
    {
      var name := queue[0];
      queue := queue[1..];
      if name in processed {
        InvHolds(graph, system, start, w);
        w := Step(graph, system, start, files.Keys, w);
        continue;
      }
      processed := processed + {name};
      if name == "" {
        ProcessedNothing(graph, w);
        w := Step(graph, system, start, files.Keys, w);
        continue;
      }
      var content := ProcessLdsoconfFile(files, glob, name);
      if content.Err? {
        InvFails(graph, system, start, w);
        return Err(content.message);
      }
      var (directories, included) := content.value;
      queue := queue + included;
      ldconfigDirs := ldconfigDirs + set d | d in directories;
      w := Step(graph, system, start, files.Keys, w);
    }
    InvDone(graph, system, start, w);
    AllByText(files, glob, system, start);
    r := Ok(ldconfigDirs);
  }

  // ----- adding directories -----

  ghost function Unconfigured(graph: Graph, system: seq<string>, start: string): string -> bool {
    d => !Configured(graph, system, start, d)
  }

  ghost function NotIn(known: set<string>): string -> bool { d => d !in known }

  method AppendNew(known: set<string>, directories: seq<string>) returns (filtered: seq<string>)
    ensures filtered == Unique(Keep(directories, NotIn(known)))
  {
    filtered := [];
    var ldconfigDirs := known;
    for i := 0 to |directories|
      invariant filtered == Unique(Keep(directories[..i], NotIn(known)))
      invariant forall d :: d in ldconfigDirs <==> d in known || d in filtered
    {
      var d := directories[i];
      UniqueKeepNext(directories, i, NotIn(known));
      if d in ldconfigDirs { continue; }
      filtered := filtered + [d];
      ldconfigDirs := ldconfigDirs + {d};
    }
    assert directories[..|directories|] == directories;
  }

  /** What is left to configure: each new directory once, in the order given. */
  method FilterDirectories(files: Files, glob: Glob, system: seq<string>, start: string, directories: seq<string>)
      returns (r: Result<seq<string>>)
    ensures r.Err? <==> exists f :: Failing(ConfGraph(files, glob), start, f)
    ensures r.Ok? ==> r.value == Unique(Keep(directories, Unconfigured(ConfGraph(files, glob), system, start)))
  {
    var ldconfigDirs := GetLdsoconfDirectories(files, glob, system, start);
    if ldconfigDirs.Err? { return Err(ldconfigDirs.message); }
    var filtered := AppendNew(ldconfigDirs.value, directories);
    KeepSame(directories, NotIn(ldconfigDirs.value), Unconfigured(ConfGraph(files, glob), system, start));
    return Ok(filtered);
  }

  /** One directory on each line. */
  function Lines(dirs: seq<string>): string {
    if dirs == [] then "" else dirs[0] + [NEWLINE] + Lines(dirs[1..])
  }

  lemma {:induction false} LinesSnoc(dirs: seq<string>, d: string)
    ensures Lines(dirs + [d]) == Lines(dirs) + d + [NEWLINE]
  {
    if dirs == [] {
      assert Lines([d][1..]) == "";
    } else {
      LinesSnoc(dirs[1..], d);
      assert (dirs + [d])[1..] == dirs[1..] + [d];
    }
  }

  method OutputListToFile(dirs: seq<string>) returns (content: string)
    ensures content == Lines(Unique(dirs))
  {
    content := "";
    var added: set<string> := {};
    for i := 0 to |dirs|
      invariant content == Lines(Unique(dirs[..i])) && forall d :: d in added <==> d in dirs[..i]
    {
      var dir := dirs[i];
      assert dirs[..i + 1] == dirs[..i] + [dir];
      UniqueSnoc(dirs[..i], dir);
      if dir in added { continue; }
      LinesSnoc(Unique(dirs[..i]), dir);
      content := content + dir + [NEWLINE];
      added := added + {dir};
    }
    assert dirs[..|dirs|] == dirs;
  }

  // ----- reading back what was written -----

  /** A directory that a configuration line can stand for. */
  predicate Plain(d: string) {
    d != "" && TrimSpace(d) == d && !HasPrefix(d, "#") && !HasPrefix(d, INCLUDE) && NEWLINE !in d
    && Size(d) < MAX_SCAN_TOKEN_SIZE
  }

  lemma {:induction false} SplitFirstLine(d: string, rest: string)
    requires NEWLINE !in d
    ensures Split(d + [NEWLINE] + rest, NEWLINE) == [d] + Split(rest, NEWLINE)
  {
    var s := d + [NEWLINE] + rest;
    if d == "" {
      assert s[1..] == rest;
    } else {
      assert s[1..] == d[1..] + [NEWLINE] + rest;
      SplitFirstLine(d[1..], rest);
      assert d == [d[0]] + d[1..];
    }
  }

  lemma {:induction false} SplitLines(dirs: seq<string>)
    requires forall d :: d in dirs ==> NEWLINE !in d
    ensures Split(Lines(dirs), NEWLINE) == dirs + [""]
  {
    if dirs != [] {
      SplitLines(dirs[1..]);
      SplitFirstLine(dirs[0], Lines(dirs[1..]));
      assert [dirs[0]] + (dirs[1..] + [""]) == dirs + [""];
    }
  }

  lemma {:induction false} ScanOfLines(dirs: seq<string>)
    requires forall d :: d in dirs ==> NEWLINE !in d
    ensures ScanLines(Lines(dirs)) == Map(DropCR, dirs[..Scanned(dirs)])
  {
    SplitLines(dirs);
    assert (dirs + [""])[..|dirs|] == dirs;
  }

  lemma {:induction false} DirectoriesHaveNoNewline(lines: seq<string>, d: string)
    requires forall l :: l in lines ==> NEWLINE !in l
    requires d in Directories(lines)
    ensures NEWLINE !in d
  {
    var last := lines[|lines| - 1];
    if d in LineDirectories(last) {
      TrimSpaceWithin(last);
    } else {
      DirectoriesHaveNoNewline(lines[..|lines| - 1], d);
    }
  }

  lemma ScannedLinesHaveNoNewline(content: string)
    ensures forall l :: l in ScanLines(content) ==> NEWLINE !in l
  {
    SplitJoins(content, NEWLINE);
    var parts, lines := Split(content, NEWLINE), ScanLines(content);
    forall i | 0 <= i < |lines| ensures NEWLINE !in lines[i] {
      assert parts[i] in parts && lines[i] == DropCR(parts[i]);
    }
  }

  lemma PlainLine(d: string)
    requires NEWLINE !in d && Size(d) < MAX_SCAN_TOKEN_SIZE
    ensures LineDirectories(DropCR(d)) == [d] <==> Plain(d)
    ensures |LineDirectories(DropCR(d))| <= 1
  {
    assert IsSpace('\r') by { assert "\t\n\r "[2] == '\r'; }
    if Plain(d) {
      TrimSpaceEdges(d);
    } else {
      TrimSpaceWithin(DropCR(d));
    }
  }

  lemma {:induction false} PlainLines(dirs: seq<string>)
    requires forall d :: d in dirs ==> NEWLINE !in d && Size(d) < MAX_SCAN_TOKEN_SIZE
    ensures Directories(Map(DropCR, dirs)) == dirs <==> forall d :: d in dirs ==> Plain(d)
    ensures |Directories(Map(DropCR, dirs))| <= |dirs|
  {
    hide Plain, LineDirectories, DropCR;
    if dirs != [] {
      var init, last := dirs[..|dirs| - 1], dirs[|dirs| - 1];
      assert dirs == init + [last] && Map(DropCR, dirs)[..|dirs| - 1] == Map(DropCR, init);
      PlainLines(init);
      PlainLine(last);
      PlainSnoc(init, last);
      AppendsAgree(Directories(Map(DropCR, init)), LineDirectories(DropCR(last)), init, last);
    }
  }

  lemma PlainSnoc(init: seq<string>, last: string)
    ensures (forall d :: d in init + [last] ==> Plain(d)) <==> (forall d :: d in init ==> Plain(d)) && Plain(last)
  {
    assert last in init + [last];
    assert forall d :: d in init ==> d in init + [last];
  }

  lemma AppendsAgree(s: seq<string>, t: seq<string>, init: seq<string>, last: string)
    requires |s| <= |init| && |t| <= 1
    ensures s + t == init + [last] <==> s == init && t == [last]
  {
    if s + t == init + [last] {
      assert |s + t| == |init| + 1;
      assert (s + t)[..|s|] == s && (s + t)[|s|..] == t;
    }
  }

  /** A drop-in file gives back the directories written to it exactly when each can stand on a line. */
  lemma {:induction false} WrittenReadsBackIff(dirs: seq<string>)
    ensures Directories(ScanLines(Lines(Unique(dirs)))) == Unique(dirs) <==> forall d :: d in dirs ==> Plain(d)
  {
    hide Size, Unique, Split;
    var u := Unique(dirs);
    var n := Scanned(u);
    if forall d :: d in u ==> NEWLINE !in d {
      ScanOfLines(u);
      PlainLines(u[..n]);
      if n == |u| {
        assert u[..n] == u;
      } else {
        assert u[n] in dirs && !Plain(u[n]);
      }
    } else {
      var bad :| bad in u && NEWLINE in bad;
      ScannedLinesHaveNoNewline(Lines(u));
      if Directories(ScanLines(Lines(u))) == u { DirectoriesHaveNoNewline(ScanLines(Lines(u)), bad); }
    }
  }

  // ----- what the text of a file says -----

  /** The line gives the directory `d`. */
  ghost predicate GivesDirectory(line: string, d: string) {
    d != "" && TrimSpace(line) == d && !("#" <= d) && !("include " <= d)
  }

  /** The line includes what the pattern `p` stands for. */
  ghost predicate GivesPattern(line: string, p: string) { TrimSpace(line) == "include " + p }

  /** Comments and blank lines give nothing; no line gives both a directory and a pattern. */
  lemma LineSays(glob: Glob, line: string)
    ensures var t := TrimSpace(line);
      && (t == "" || "#" <= t ==> LineDirectories(line) == [] && LineIncludes(glob, line) == [])
      && (forall p :: GivesPattern(line, p) ==>
            LineDirectories(line) == [] && LineIncludes(glob, line) == if glob(p).Some? then glob(p).value else [])
      && (forall d :: GivesDirectory(line, d) ==> LineDirectories(line) == [d] && LineIncludes(glob, line) == [])
  {
    hide TrimSpace;
    var t := TrimSpace(line);
    PrefixLaws(t, "#");
    PrefixLaws(t, "include ");
    forall p | GivesPattern(line, p) ensures TrimPrefix(t, "include ") == p && t[0] == 'i' {
      PrefixLaws(p, "include ");
    }
  }

  /** Apart from these every line is a comment or blank. */
  lemma LineCases(line: string)
    ensures var t := TrimSpace(line);
      t == "" || "#" <= t || GivesDirectory(line, t) || exists p :: GivesPattern(line, p)
  {
    var t := TrimSpace(line);
    if "include " <= t { assert GivesPattern(line, t[|"include "|..]); }
  }

  lemma CarriageReturnIsBlank(line: string)
    ensures TrimSpace(DropCR(line)) == TrimSpace(line)
  {
    hide TrimSpace;
    if line != "" && line[|line| - 1] == '\r' {
      var init := DropCR(line);
      var left, right := TrimSpaceParts(init);
      SpaceCodes('\r');
      assert line == left + TrimSpace(init) + (right + "\r");
      TrimSpaceAway(left, TrimSpace(init), right + "\r");
    }
  }

  /** One of the lines of the text, with no line before it that the scanner cannot hold. */
  ghost predicate IsLine(content: string, line: string) {
    exists i :: LineAt(Split(content, '\n'), i, line)
  }

  ghost predicate LineAt(parts: seq<string>, i: nat, line: string) {
    i < |parts| && parts[i] == line && forall j :: 0 <= j <= i ==> Size(parts[j]) < 65536
  }

  lemma {:induction false} ScannedAre(parts: seq<string>, i: nat)
    requires i < |parts|
    ensures i < Scanned(parts) <==> forall j :: 0 <= j <= i ==> Size(parts[j]) < 65536
  {
    hide Size;
  }

  lemma {:induction false} ScannedIsLine(content: string, i: nat) returns (raw: string)
    requires i < |ScanLines(content)|
    ensures IsLine(content, raw) && ScanLines(content)[i] == DropCR(raw)
  {
    hide Size, DropCR, Split;
    var parts := Split(content, '\n');
    var lines := if parts[|parts| - 1] == "" then parts[..|parts| - 1] else parts;
    raw := parts[i];
    ScannedAre(lines, i);
    forall j | 0 <= j <= i ensures Size(parts[j]) < 65536 { assert lines[j] == parts[j]; }
    assert LineAt(parts, i, raw);
  }

  lemma {:induction false} LineIsScanned(content: string, raw: string)
    requires IsLine(content, raw) && raw != ""
    ensures DropCR(raw) in ScanLines(content)
  {
    hide Size, DropCR, Split;
    var parts := Split(content, '\n');
    var lines := if parts[|parts| - 1] == "" then parts[..|parts| - 1] else parts;
    var i: nat :| LineAt(parts, i, raw);
    assert forall j :: 0 <= j <= i ==> lines[j] == parts[j];
    ScannedAre(lines, i);
    assert ScanLines(content)[i] == DropCR(raw);
  }

  lemma {:induction false} DirectoriesAre(lines: seq<string>)
    ensures forall d :: d in Directories(lines) <==> exists l :: l in lines && GivesDirectory(l, d)
  {
    hide GivesDirectory, LineDirectories;
    if lines != [] {
      var init, last := lines[..|lines| - 1], lines[|lines| - 1];
      DirectoriesAre(init);
      assert last in lines && forall l :: l in lines <==> l in init || l == last;
      forall d ensures d in LineDirectories(last) <==> GivesDirectory(last, d) { LineDirectoryIs(last, d); }
    }
  }

  lemma LineDirectoryIs(line: string, d: string)
    ensures d in LineDirectories(line) <==> GivesDirectory(line, d)
  {
    var none: Glob := _ => None;
    LineSays(none, line);
    LineCases(line);
  }

  ghost predicate GivesFile(glob: Glob, line: string, name: string) {
    exists p :: GivesPattern(line, p) && glob(p).Some? && name in glob(p).value
  }

  lemma LineFileIs(glob: Glob, line: string, name: string)
    ensures name in LineIncludes(glob, line) <==> GivesFile(glob, line, name)
  {
    LineSays(glob, line);
    LineCases(line);
  }

  lemma {:induction false} IncludesAre(glob: Glob, lines: seq<string>)
    ensures forall q :: q in Includes(glob, lines) <==> exists l :: l in lines && GivesFile(glob, l, q)
  {
    hide GivesFile, LineIncludes;
    if lines != [] {
      var init, last := lines[..|lines| - 1], lines[|lines| - 1];
      IncludesAre(glob, init);
      assert last in lines && forall l :: l in lines <==> l in init || l == last;
      forall q ensures q in LineIncludes(glob, last) <==> GivesFile(glob, last, q) { LineFileIs(glob, last, q); }
    }
  }

  lemma SameWithoutReturn(glob: Glob, line: string)
    ensures forall d :: GivesDirectory(DropCR(line), d) <==> GivesDirectory(line, d)
    ensures forall q :: GivesFile(glob, DropCR(line), q) <==> GivesFile(glob, line, q)
  {
    hide TrimSpace, DropCR;
    CarriageReturnIsBlank(line);
    forall p ensures GivesPattern(DropCR(line), p) <==> GivesPattern(line, p) {}
  }

  lemma NothingOnEmptyLine(glob: Glob)
    ensures (forall d :: !GivesDirectory("", d)) && forall q :: !GivesFile(glob, "", q)
  {
    assert TrimSpace("") == "";
  }

  /** The directories that a file lists, by its text. */
  lemma DirectoriesByText(content: string, d: string)
    ensures d in Directories(ScanLines(content)) <==> exists line :: IsLine(content, line) && GivesDirectory(line, d)
  {
    hide ScanLines, IsLine, DropCR, GivesDirectory, GivesFile;
    var none: Glob := _ => None;
    var scanned := ScanLines(content);
    DirectoriesAre(scanned);
    if d in Directories(scanned) {
      var l :| l in scanned && GivesDirectory(l, d);
      var i :| 0 <= i < |scanned| && scanned[i] == l;
      var raw := ScannedIsLine(content, i);
      SameWithoutReturn(none, raw);
    }
    if line :| IsLine(content, line) && GivesDirectory(line, d) {
      NothingOnEmptyLine(none);
      LineIsScanned(content, line);
      SameWithoutReturn(none, line);
    }
  }

  /** The files that a file includes, by its text. */
  lemma IncludesByText(glob: Glob, content: string, q: string)
    ensures q in Includes(glob, ScanLines(content)) <==> exists line :: IsLine(content, line) && GivesFile(glob, line, q)
  {
    hide ScanLines, IsLine, DropCR, GivesDirectory, GivesFile;
    var scanned := ScanLines(content);
    IncludesAre(glob, scanned);
    if q in Includes(glob, scanned) {
      var l :| l in scanned && GivesFile(glob, l, q);
      var i :| 0 <= i < |scanned| && scanned[i] == l;
      var raw := ScannedIsLine(content, i);
      SameWithoutReturn(glob, raw);
    }
    if line :| IsLine(content, line) && GivesFile(glob, line, q) {
      NothingOnEmptyLine(glob);
      LineIsScanned(content, line);
      SameWithoutReturn(glob, line);
    }
  }

  ghost predicate Says(files: Files, name: string, line: string) {
    name != "" && name in files && files[name].Readable? && IsLine(files[name].content, line)
  }

  /** The graph of the configuration files is what their lines say. */
  lemma {:induction false} GraphByText(files: Files, glob: Glob, name: string)
    ensures var graph := ConfGraph(files, glob);
      && (forall d :: d in graph.lists(name) <==> (exists line :: Says(files, name, line) && GivesDirectory(line, d)))
      && (forall q :: q in graph.includes(name) <==> (exists line :: Says(files, name, line) && GivesFile(glob, line, q)))
      && (graph.fails(name) <==> name != "" && name in files && files[name].Unreadable?)
  {
    hide ScanLines, IsLine, GivesDirectory, GivesFile, Directories, Includes;
    if name != "" && name in files && files[name].Readable? {
      var content := files[name].content;
      forall d
        ensures d in Directories(ScanLines(content)) <==> exists line :: Says(files, name, line) && GivesDirectory(line, d)
      {
        DirectoriesByText(content, d);
        if line :| IsLine(content, line) && GivesDirectory(line, d) { assert Says(files, name, line); }
      }
      forall q
        ensures q in Includes(glob, ScanLines(content)) <==> exists line :: Says(files, name, line) && GivesFile(glob, line, q)
      {
        IncludesByText(glob, content, q);
        if line :| IsLine(content, line) && GivesFile(glob, line, q) { assert Says(files, name, line); }
      }
    }
  }

  /** Some line of the first file includes the second. */
  ghost predicate Links(files: Files, glob: Glob, name: string, included: string) {
    exists line :: Says(files, name, line) && GivesFile(glob, line, included)
  }

  ghost predicate IncludeChain(files: Files, glob: Glob, path: seq<string>) {
    forall i :: 0 < i < |path| ==> Links(files, glob, path[i - 1], path[i])
  }

  lemma {:induction false} PathByText(files: Files, glob: Glob, path: seq<string>)
    ensures IsPath(ConfGraph(files, glob), path) <==> path != [] && IncludeChain(files, glob, path)
  {
    hide Links, Says, GivesFile, ConfGraph;
    if |path| > 1 {
      var n := |path| - 1;
      PathByText(files, glob, path[..n]);
      LinksAre(files, glob, path[n - 1], path[n]);
      ChainSnoc(files, glob, path);
    }
  }

  lemma LinksAre(files: Files, glob: Glob, name: string, included: string)
    ensures included in ConfGraph(files, glob).includes(name) <==> Links(files, glob, name, included)
  {
    GraphByText(files, glob, name);
  }

  lemma ChainSnoc(files: Files, glob: Glob, path: seq<string>)
    requires |path| > 1
    ensures var n := |path| - 1;
      IncludeChain(files, glob, path) <==> IncludeChain(files, glob, path[..n]) && Links(files, glob, path[n - 1], path[n])
  {
    hide Links;
    var n := |path| - 1;
    var init := path[..n];
    forall i | 0 < i < n ensures Links(files, glob, path[i - 1], path[i]) <==> Links(files, glob, init[i - 1], init[i]) {
      assert init[i] == path[i] && init[i - 1] == path[i - 1];
    }
    if IncludeChain(files, glob, init) && Links(files, glob, path[n - 1], path[n]) {
      forall i | 0 < i < |path| ensures Links(files, glob, path[i - 1], path[i]) {
        assert i < n ==> Links(files, glob, init[i - 1], init[i]);
      }
    }
  }

  ghost predicate ChainGives(files: Files, glob: Glob, start: string, path: seq<string>, line: string, d: string) {
    && path != [] && path[0] == start && IncludeChain(files, glob, path)
    && Says(files, path[|path| - 1], line) && GivesDirectory(line, d)
  }

  ghost predicate Chained(files: Files, glob: Glob, start: string, d: string) {
    exists path, line :: ChainGives(files, glob, start, path, line, d)
  }

  lemma AllByText(files: Files, glob: Glob, system: seq<string>, start: string)
    ensures forall d :: Configured(ConfGraph(files, glob), system, start, d) <==> d in system || Chained(files, glob, start, d)
  {
    hide Configured, Chained;
    forall d { ConfiguredByText(files, glob, system, start, d); }
  }

  /** A directory counts as configured exactly when a line of a file says so that a chain of include lines leads to. */
  lemma {:induction false} ConfiguredByText(files: Files, glob: Glob, system: seq<string>, start: string, d: string)
    ensures Configured(ConfGraph(files, glob), system, start, d) <==>
      d in system || Chained(files, glob, start, d)
  {
    hide Says, GivesFile, GivesDirectory, ConfGraph, IncludeChain;
    var graph := ConfGraph(files, glob);
    if d !in system && Configured(graph, system, start, d) {
      var f :| Reachable(graph, start, f) && d in graph.lists(f);
      var path :| IsPath(graph, path) && path[0] == start && path[|path| - 1] == f;
      PathByText(files, glob, path);
      GraphByText(files, glob, f);
      var line :| Says(files, f, line) && GivesDirectory(line, d);
      assert ChainGives(files, glob, start, path, line, d);
    }
    if path, line :| ChainGives(files, glob, start, path, line, d) {
      PathByText(files, glob, path);
      GraphByText(files, glob, path[|path| - 1]);
      assert Reachable(graph, start, path[|path| - 1]);
    }
  }

  /** The drop-in directory: what a reachable file includes by its text counts, with what it lists by its text. */
  lemma {:induction false} DropInIsConfigured(files: Files, glob: Glob, system: seq<string>, start: string,
      name: string, pattern: string, included: string, d: string)
    requires Reachable(ConfGraph(files, glob), start, name)
    requires Says(files, name, "include " + pattern) && pattern != "" && !IsSpace(pattern[|pattern| - 1])
    requires glob(pattern).Some? && included in glob(pattern).value
    requires Says(files, included, d) && d != "" && Trimmed(d) && !("#" <= d) && !("include " <= d)
    ensures Configured(ConfGraph(files, glob), system, start, d)
  {
    hide Says, ConfGraph;
    IncludeLineGives(glob, pattern, included);
    LinksAre(files, glob, name, included);
    IncludedIsReachable(ConfGraph(files, glob), start, name, included);
    TrimSpaceAway("", d, "");
    assert "" + d + "" == d;
    assert GivesDirectory(d, d);
    GraphByText(files, glob, included);
  }

  lemma IncludeLineGives(glob: Glob, pattern: string, included: string)
    requires pattern != "" && !IsSpace(pattern[|pattern| - 1])
    requires glob(pattern).Some? && included in glob(pattern).value
    ensures GivesFile(glob, "include " + pattern, included)
  {
    var line := "include " + pattern;
    assert line[0] == 'i' && line[|line| - 1] == pattern[|pattern| - 1];
    SpaceCodes('i');
    TrimSpaceAway("", line, "");
    assert "" + line + "" == line;
    assert GivesPattern(line, pattern);
  }

  /** Lines written with a newline each are the lines of the text, up to the first that is too long. */
  lemma {:induction false} WrittenLines(lines: seq<string>, line: string)
    requires line != "" && forall l :: l in lines ==> '\n' !in l
    ensures IsLine(Lines(lines), line) <==> exists i :: LineAt(lines, i, line)
  {
    hide Size;
    SplitLines(lines);
    var parts := lines + [""];
    if i: nat :| LineAt(parts, i, line) {
      assert forall j :: 0 <= j <= i ==> parts[j] == lines[j];
      assert LineAt(lines, i, line);
    }
    if i: nat :| LineAt(lines, i, line) {
      assert forall j :: 0 <= j <= i ==> parts[j] == lines[j];
      assert LineAt(parts, i, line);
    }
  }

  /** Characters take one to four bytes, ASCII characters one. */
  lemma {:induction false} SizeLaws(s: string, c: char)
    ensures Size([c] + s) == Size([c]) + Size(s)
    ensures Size([c]) == if c as int < 128 then 1 else if c as int < 2048 then 2 else if c as int < 65536 then 3 else 4
    ensures |s| <= Size(s) <= 4 * |s|
    ensures (forall d :: d in s ==> d as int < 128) ==> Size(s) == |s|
  {
    assert ([c] + s)[1..] == s && [c][1..] == "";
    if s != "" {
      SizeLaws(s[1..], c);
      assert forall d :: d in s[1..] ==> d in s;
      assert s[0] in s;
    }
  }
}
