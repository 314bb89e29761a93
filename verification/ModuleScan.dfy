/** The fold of /proc/self/maps lines into modules (native_process.cc) and the scan of a module's segments
    (native_memory.cc). */
module ModuleScan {
  import opened Results
  import opened Words
  import X86Machine
  import HexText
  import PatternScan

  /** A line of the map: one that does not parse, or a mapping with its path as read ("" if it has none). */
  datatype MapLine = Unparsed | Mapped(start: u64, end: u64, path: string)

  datatype Segment = Segment(base: u64, size: u64)

  datatype Module = Module(name: string, path: string, base: u64, end: u64, segments: seq<Segment>)

  predicate IsFile(path: string) {
    path != "" && path[0] == '/'
  }

  predicate IsMappingOf(line: MapLine, path: string) {
    line.Mapped? && line.path == path
  }

  /** The part of a path after its last '/'. */
  function BaseName(path: string): string {
    if path == "" then ""
    else if path[|path| - 1] == '/' then ""
    else BaseName(path[..|path| - 1]) + [path[|path| - 1]]
  }

  /** A path is its directory part, up to and with the last '/', and its base name, which has none. */
  lemma {:induction false} BaseNameExact(path: string)
    ensures var n := |path| - |BaseName(path)|;
            && 0 <= n && path == path[..n] + BaseName(path)
            && (n > 0 ==> path[n - 1] == '/') && '/' !in BaseName(path)
  {
    if path != "" && path[|path| - 1] != '/' {
      var front := path[..|path| - 1];
      BaseNameExact(front);
      assert front[..|front| - |BaseName(front)|] == path[..|front| - |BaseName(front)|];
      assert path == front + [path[|path| - 1]];
    }
  }

  function SegmentOf(line: MapLine): Segment
    requires line.Mapped?
  {
    Segment(line.start, Wrap(line.end - line.start))
  }

  // ---------- The path of a line ----------

  const PATH_LIMIT := 511

  /** What is left after leading blanks. */
  function Unpadded(text: string): string {
    if text != "" && HexText.IsSpace(text[0]) then Unpadded(text[1..]) else text
  }

  /** At most `limit` characters, up to the first blank. */
  function Word(text: string, limit: nat): (w: string)
    ensures |w| <= limit && w <= text
  {
    if text == "" || limit == 0 || HexText.IsSpace(text[0]) then "" else [text[0]] + Word(text[1..], limit - 1)
  }

  /** What "%511s" stores of the text behind the inode: the path, if that is all of it. */
  function PathField(text: string): string {
    Word(Unpadded(text), PATH_LIMIT)
  }

  predicate NoBlank(path: string) {
    forall i :: 0 <= i < |path| ==> !HexText.IsSpace(path[i])
  }

  lemma {:induction false} WholeWord(text: string, limit: nat)
    ensures Word(text, limit) == text <==> |text| <= limit && NoBlank(text)
    decreases |text|
  {
    if text != "" && limit != 0 && !HexText.IsSpace(text[0]) {
      WholeWord(text[1..], limit - 1);
      assert text == [text[0]] + text[1..];
      assert NoBlank(text) <==> NoBlank(text[1..]) by {
        assert forall i :: 0 < i < |text| ==> text[i] == text[1..][i - 1];
      }
    }
  }

  /** The padding before a path does not matter. */
  lemma {:induction false} PaddingIsSkipped(pad: string, path: string)
    requires (forall i :: 0 <= i < |pad| ==> HexText.IsSpace(pad[i])) && path != "" && !HexText.IsSpace(path[0])
    ensures Unpadded(pad + path) == path
    decreases |pad|
  {
    if pad == "" {
      assert pad + path == path;
    } else {
      assert (pad + path)[1..] == pad[1..] + path;
      PaddingIsSkipped(pad[1..], path);
    }
  }

  /** The path of a mapped file is read in full exactly when it has no blank and at most 511 characters. */
  lemma PathReadIff(pad: string, path: string)
    requires (forall i :: 0 <= i < |pad| ==> HexText.IsSpace(pad[i])) && path != "" && path[0] == '/'
    ensures PathField(pad + path) == path <==> |path| <= 511 && NoBlank(path)
  {
    PaddingIsSkipped(pad, path);
    WholeWord(path, PATH_LIMIT);
  }

  lemma {:induction false} WordStops(word: string, more: string, limit: nat)
    requires NoBlank(word) && |word| <= limit && more != "" && HexText.IsSpace(more[0])
    ensures Word(word + more, limit) == word
    decreases |word|
  {
    if word == "" {
      assert word + more == more;
    } else {
      assert (word + more)[1..] == word[1..] + more;
      assert forall i :: 0 <= i < |word[1..]| ==> word[1..][i] == word[i + 1];
      WordStops(word[1..], more, limit - 1);
      assert word == [word[0]] + word[1..];
    }
  }

  /** Two files whose paths agree up to a blank become one module. */
  lemma BlankMergesFiles(p: string, a: string, b: string)
    requires IsFile(p) && NoBlank(p) && |p| <= PATH_LIMIT
    ensures PathField(p + " " + a) == PathField(p + " " + b) == p
    ensures FilePaths([Mapped(0, 1, PathField(p + " " + a)), Mapped(1, 2, PathField(p + " " + b))]) == [p]
  {
    hide Word;
    assert p + " " + a == p + (" " + a) && p + " " + b == p + (" " + b);
    WordStops(p, " " + a, PATH_LIMIT);
    WordStops(p, " " + b, PATH_LIMIT);
    var first, second := Mapped(0, 1, p), Mapped(1, 2, p);
    assert [first, second][..1] == [first] && [first][..0] == [];
    assert FilePaths([first]) == FilePaths([]) + [p] == [p];
    assert FilePaths([first, second]) == [p];
  }

  // ---------- What the modules are ----------

  predicate Mentions(lines: seq<MapLine>, path: string) {
    exists i :: 0 <= i < |lines| && IsMappingOf(lines[i], path)
  }

  /** Mapped file paths in order of first appearance. */
  function FilePaths(lines: seq<MapLine>): seq<string> {
    if lines == [] then []
    else
      var before, line := FilePaths(lines[..|lines| - 1]), lines[|lines| - 1];
      if line.Mapped? && IsFile(line.path) && line.path !in before then before + [line.path] else before
  }

  function SegmentsOf(lines: seq<MapLine>, path: string): seq<Segment> {
    if lines == [] then []
    else
      var before, line := SegmentsOf(lines[..|lines| - 1], path), lines[|lines| - 1];
      if IsMappingOf(line, path) then before + [SegmentOf(line)] else before
  }

  function Least(lines: seq<MapLine>, path: string): u64
    requires Mentions(lines, path)
  {
    var before, line := lines[..|lines| - 1], lines[|lines| - 1];
    MentionsLast(lines, path);
    if !Mentions(before, path) then line.start
    else if IsMappingOf(line, path) && line.start < Least(before, path) then line.start
    else Least(before, path)
  }

  function Greatest(lines: seq<MapLine>, path: string): u64
    requires Mentions(lines, path)
  {
    var before, line := lines[..|lines| - 1], lines[|lines| - 1];
    MentionsLast(lines, path);
    if !Mentions(before, path) then line.end
    else if IsMappingOf(line, path) && line.end > Greatest(before, path) then line.end
    else Greatest(before, path)
  }

  lemma MentionsLast(lines: seq<MapLine>, path: string)
    requires Mentions(lines, path)
    ensures lines != []
    ensures Mentions(lines[..|lines| - 1], path) || IsMappingOf(lines[|lines| - 1], path)
  {
    var i :| 0 <= i < |lines| && IsMappingOf(lines[i], path);
    if i < |lines| - 1 {
      assert lines[..|lines| - 1][i] == lines[i];
    }
  }

  function ModuleOf(lines: seq<MapLine>, path: string): Module
    requires Mentions(lines, path)
  {
    Module(BaseName(path), path, Least(lines, path), Greatest(lines, path), SegmentsOf(lines, path))
  }

  /** The file paths are distinct, and exactly the mapped ones. */
  lemma {:induction false} FilePathsExact(lines: seq<MapLine>)
    ensures var ps := FilePaths(lines);
            && (forall i, j :: 0 <= i < j < |ps| ==> ps[i] != ps[j])
            && (forall p :: p in ps <==> IsFile(p) && Mentions(lines, p))
  {
    if lines != [] {
      var before, line := lines[..|lines| - 1], lines[|lines| - 1];
      FilePathsExact(before);
      forall p
        ensures Mentions(lines, p) <==> Mentions(before, p) || IsMappingOf(line, p)
      {
        if Mentions(lines, p) {
          MentionsLast(lines, p);
        }
        if i :| 0 <= i < |before| && IsMappingOf(before[i], p) {
          assert lines[i] == before[i];
        }
        assert line == lines[|lines| - 1];
      }
    }
  }

  /** base and end are the least start and the greatest end of the mappings of the path. */
  lemma {:induction false} BoundsExact(lines: seq<MapLine>, path: string)
    requires Mentions(lines, path)
    ensures forall i :: 0 <= i < |lines| && IsMappingOf(lines[i], path) ==>
              Least(lines, path) <= lines[i].start && lines[i].end <= Greatest(lines, path)
    ensures exists i :: 0 <= i < |lines| && IsMappingOf(lines[i], path) && lines[i].start == Least(lines, path)
    ensures exists i :: 0 <= i < |lines| && IsMappingOf(lines[i], path) && lines[i].end == Greatest(lines, path)
  {
    MentionsLast(lines, path);
    var before, n := lines[..|lines| - 1], |lines| - 1;
    assert forall i :: 0 <= i < n ==> before[i] == lines[i];
    if Mentions(before, path) {
      BoundsExact(before, path);
      var i :| 0 <= i < |before| && IsMappingOf(before[i], path) && before[i].start == Least(before, path);
      var j :| 0 <= j < |before| && IsMappingOf(before[j], path) && before[j].end == Greatest(before, path);
      assert lines[i] == before[i] && lines[j] == before[j];
    } else {
      assert forall i :: 0 <= i < n ==> !IsMappingOf(before[i], path);
    }
  }

  /** The segments of a path are its mappings, all of them and in order. */
  lemma {:induction false} SegmentsExact(lines: seq<MapLine>, path: string)
    ensures forall s: Segment :: s in SegmentsOf(lines, path) <==>
              exists i :: 0 <= i < |lines| && IsMappingOf(lines[i], path) &&
                s.base == lines[i].start && s.size == Wrap(lines[i].end - lines[i].start)
  {
    if lines != [] {
      var before, n := lines[..|lines| - 1], |lines| - 1;
      SegmentsExact(before, path);
      assert forall i :: 0 <= i < n ==> before[i] == lines[i];
      forall s: Segment
        ensures s in SegmentsOf(lines, path) <==>
                exists i :: 0 <= i < |lines| && IsMappingOf(lines[i], path) && SegmentOf(lines[i]) == s
      {
        if i :| 0 <= i < |before| && IsMappingOf(before[i], path) && SegmentOf(before[i]) == s {
          assert IsMappingOf(lines[i], path);
        }
      }
    }
  }

  // ---------- The fold ----------

  ghost predicate Describes(modules: seq<Module>, lines: seq<MapLine>) {
    && |modules| == |FilePaths(lines)|
    && forall i :: 0 <= i < |modules| ==>
         Mentions(lines, FilePaths(lines)[i]) && modules[i] == ModuleOf(lines, FilePaths(lines)[i])
  }

  lemma {:induction false} UnmentionedHasNoSegments(lines: seq<MapLine>, path: string)
    requires !Mentions(lines, path)
    ensures SegmentsOf(lines, path) == []
  {
    if lines != [] {
      var before, n := lines[..|lines| - 1], |lines| - 1;
      assert forall i :: 0 <= i < n ==> before[i] == lines[i];
      assert !IsMappingOf(lines[n], path);
      UnmentionedHasNoSegments(before, path);
    }
  }

  function Extend(m: Module, line: MapLine): Module
    requires line.Mapped?
  {
    m.(base := if line.start < m.base then line.start else m.base,
       end := if line.end > m.end then line.end else m.end,
       segments := m.segments + [SegmentOf(line)])
  }

  /** Another line leaves the modules of other paths as they were and extends the module of its own. */
  lemma ModuleAfter(lines: seq<MapLine>, line: MapLine, path: string)
    ensures var all := lines + [line];
            && (Mentions(all, path) <==> Mentions(lines, path) || IsMappingOf(line, path))
            && (Mentions(lines, path) && !IsMappingOf(line, path) ==> ModuleOf(all, path) == ModuleOf(lines, path))
            && (Mentions(lines, path) && IsMappingOf(line, path) ==>
                  ModuleOf(all, path) == Extend(ModuleOf(lines, path), line))
            && (!Mentions(lines, path) && IsMappingOf(line, path) ==>
                  ModuleOf(all, path) == Module(BaseName(path), path, line.start, line.end, [SegmentOf(line)]))
  {
    var all := lines + [line];
    assert all[..|all| - 1] == lines && all[|all| - 1] == line;
    if Mentions(all, path) {
      MentionsLast(all, path);
    }
    if i :| 0 <= i < |lines| && IsMappingOf(lines[i], path) {
      assert all[i] == lines[i];
    } else {
      UnmentionedHasNoSegments(lines, path);
    }
    if IsMappingOf(line, path) {
      assert all[|lines|] == line;
    }
  }

  lemma FilePathsAfter(lines: seq<MapLine>, line: MapLine)
    ensures FilePaths(lines + [line]) ==
              if line.Mapped? && IsFile(line.path) && line.path !in FilePaths(lines)
              then FilePaths(lines) + [line.path] else FilePaths(lines)
  {
    assert (lines + [line])[..|lines|] == lines;
  }

  /** What one line does to the list. */
  ghost predicate Folded(line: MapLine, before: seq<Module>, after: seq<Module>) {
    if line.Mapped? && exists i :: 0 <= i < |before| && before[i].path == line.path then
      exists k {:trigger before[k]} :: 0 <= k < |before| && before[k].path == line.path &&
        after == before[k := Extend(before[k], line)]
    else if line.Mapped? && IsFile(line.path) then
      after == before + [Module(BaseName(line.path), line.path, line.start, line.end, [SegmentOf(line)])]
    else after == before
  }

  lemma FoldStep(lines: seq<MapLine>, line: MapLine, before: seq<Module>, after: seq<Module>)
    requires Describes(before, lines) && Folded(line, before, after)
    ensures Describes(after, lines + [line])
  {
    var ps, all := FilePaths(lines), lines + [line];
    FilePathsExact(lines);
    FilePathsAfter(lines, line);
    assert forall i :: 0 <= i < |before| ==> before[i].path == ps[i];
    forall i | 0 <= i < |after|
      ensures Mentions(all, FilePaths(all)[i]) && after[i] == ModuleOf(all, FilePaths(all)[i])
    {
      ModuleAfter(lines, line, FilePaths(all)[i]);
    }
  }

  /** A bracketed pseudo-path such as [heap] never names a module. */
  lemma PseudoPathsAreNoModules(modules: seq<Module>, lines: seq<MapLine>, i: nat)
    requires Describes(modules, lines) && i < |modules|
    ensures IsFile(modules[i].path) && modules[i].segments != []
  {
    FilePathsExact(lines);
    var p := modules[i].path;
    assert p == FilePaths(lines)[i];
    SegmentsExact(lines, p);
    var k :| 0 <= k < |lines| && IsMappingOf(lines[k], p);
    assert SegmentOf(lines[k]) in SegmentsOf(lines, p);
  }

  method EnumerateModules(lines: seq<MapLine>) returns (modules: seq<Module>)
    ensures Describes(modules, lines)
  {
    modules := [];
    for n := 0 to |lines|
      invariant Describes(modules, lines[..n])
    {
      var line := lines[n];
      var before := modules;
      assert lines[..n + 1] == lines[..n] + [line];
      forall i | 0 <= i < |before|
        ensures IsFile(before[i].path)
      {
        PseudoPathsAreNoModules(before, lines[..n], i);
      }
      if line.Mapped? && line.path != "" && (line.path[0] == '/' || line.path[0] == '[') {
        var k, found := 0, false;
        while k < |modules| && !found
          invariant 0 <= k <= |modules| && modules == before
          invariant !found ==> forall i :: 0 <= i < k ==> modules[i].path != line.path
          invariant found ==> k < |modules| && modules[k].path == line.path
          decreases |modules| - k, !found
        {
          if modules[k].path == line.path {
            found := true;
          } else {
            k := k + 1;
          }
        }
        if found {
          var m := modules[k];
          if line.start < m.base {
            m := m.(base := line.start);
          }
          if line.end > m.end {
            m := m.(end := line.end);
          }
          modules := modules[k := m.(segments := m.segments + [SegmentOf(line)])];
          assert modules == before[k := Extend(before[k], line)];
        } else if line.path[0] == '/' {
          modules := modules + [Module(BaseName(line.path), line.path, line.start, line.end, [SegmentOf(line)])];
        }
      }
      FoldStep(lines[..n], line, before, modules);
    }
    assert lines[..|lines|] == lines;
  }

  // ---------- Scanning a module ----------

  datatype ModuleInfo = ModuleInfo(name: string, base: u64, size: int, path: string, segments: seq<Segment>)

  datatype ScanError = ModuleNotFound(name: string) | BadPattern(error: HexText.ParseError)

  /** static_cast<int> of a 64-bit value. */
  function ToInt(x: u64): int {
    Signed32(x % TWO_32)
  }

  function InfoOf(m: Module): ModuleInfo {
    ModuleInfo(m.name, m.base, ToInt(Wrap(m.end - m.base)), m.path, m.segments)
  }

  /** The size of a module is what its extent leaves in a 32-bit int: the extent itself below 2^31. */
  lemma InfoSize(m: Module)
    ensures var size := InfoOf(m).size; var extent := m.end - m.base;
            && -0x8000_0000 <= size < 0x8000_0000 && (size - extent) % 0x1_0000_0000 == 0
            && (0 <= extent < 0x8000_0000 ==> size == extent)
    ensures InfoOf(m).base == m.base && InfoOf(m).name == m.name && InfoOf(m).segments == m.segments
  {
  }

  ghost predicate FirstNamed(modules: seq<ModuleInfo>, name: string, k: nat) {
    k < |modules| && modules[k].name == name && forall i :: 0 <= i < k ==> modules[i].name != name
  }

  method FindModuleByName(modules: seq<ModuleInfo>, name: string) returns (r: Option<ModuleInfo>)
    ensures r.None? <==> forall i :: 0 <= i < |modules| ==> modules[i].name != name
    ensures r.Some? ==> exists k: nat :: FirstNamed(modules, name, k) && r.value == modules[k]
  {
    for i := 0 to |modules|
      invariant forall j :: 0 <= j < i ==> modules[j].name != name
    {
      if modules[i].name == name {
        assert FirstNamed(modules, name, i);
        return Some(modules[i]);
      }
    }
    return None;
  }

  /** The naive matches inside one segment. */
  ghost function SegmentHits(mem: X86Machine.Memory, seg: Segment, pat: PatternScan.Pattern): seq<PatternScan.ScanMatch>
    requires pat.Valid()
  {
    PatternScan.Found(seg.base, PatternScan.NaiveScan(X86Machine.Fetch(mem, seg.base, seg.size), pat), |pat.bytes|)
  }

  ghost function ModuleHits(mem: X86Machine.Memory, segments: seq<Segment>, pat: PatternScan.Pattern)
    : seq<PatternScan.ScanMatch>
    requires pat.Valid()
  {
    if segments == [] then []
    else ModuleHits(mem, segments[..|segments| - 1], pat) + SegmentHits(mem, segments[|segments| - 1], pat)
  }

  /** The ranges scanned: the segments, or the whole extent where the platform reports none. */
  function ScannedRanges(m: ModuleInfo): seq<Segment> {
    if m.segments == [] then [Segment(m.base, Wrap(m.size))] else m.segments
  }

  method ScanModule(mem: X86Machine.Memory, modules: seq<ModuleInfo>, name: string, text: string)
    returns (r: Result<seq<PatternScan.ScanMatch>, ScanError>)
    ensures match r
            case Failure(ModuleNotFound(n)) => n == name && forall i :: 0 <= i < |modules| ==> modules[i].name != name
            case Failure(BadPattern(e)) =>
              PatternScan.Parse(text) == Failure(e) && exists k: nat :: FirstNamed(modules, name, k)
            case Success(hits) =>
              exists k: nat :: FirstNamed(modules, name, k) &&
                var p := PatternScan.Parse(text);
                p.Success? && p.value.Valid() && hits == ModuleHits(mem, ScannedRanges(modules[k]), p.value)
  {
    var found := FindModuleByName(modules, name);
    if found.None? {
      return Failure(ModuleNotFound(name));
    }
    var m := found.value;
    var p := PatternScan.ParsePattern(text);
    if p.Failure? {
      return Failure(BadPattern(p.error));
    }
    var pat := p.value;
    if m.segments == [] {
      var whole := Segment(m.base, Wrap(m.size));
      var hits := PatternScan.BmhScan(m.base, X86Machine.Fetch(mem, m.base, Wrap(m.size)), pat);
      assert ModuleHits(mem, [whole], pat) == hits by {
        assert [whole][..0] == [];
      }
      return Success(hits);
    }
    var results := [];
    for i := 0 to |m.segments|
      invariant results == ModuleHits(mem, m.segments[..i], pat)
    {
      var seg := m.segments[i];
      var hits := PatternScan.BmhScan(seg.base, X86Machine.Fetch(mem, seg.base, seg.size), pat);
      assert m.segments[..i + 1][..i] == m.segments[..i];
      results := results + hits;
    }
    assert m.segments[..|m.segments|] == m.segments;
    return Success(results);
  }

  /** A match of the pattern inside `size` bytes of memory at `base`: it ends before they do, and every byte the pattern
      fixes is in memory at its place. */
  ghost predicate RangeMatch(
    mem: X86Machine.Memory, base: int, size: nat, pat: PatternScan.Pattern, hit: PatternScan.ScanMatch)
    requires |pat.mask| == |pat.bytes|
  {
    && hit.size == |pat.bytes| > 0 && base <= hit.address && hit.address + hit.size <= base + size
    && forall j :: 0 <= j < hit.size && pat.mask[j] ==> X86Machine.Peek(mem, Wrap(hit.address + j)) == pat.bytes[j]
  }

  lemma SegmentHitsExact(mem: X86Machine.Memory, seg: Segment, pat: PatternScan.Pattern)
    requires pat.Valid()
    ensures |pat.mask| == |pat.bytes|
    ensures forall hit :: hit in SegmentHits(mem, seg, pat) <==> RangeMatch(mem, seg.base, seg.size, pat, hit)
  {
    var h := X86Machine.Fetch(mem, seg.base, seg.size);
    PatternScan.FoundLists(seg.base, h, pat);
    forall hit: PatternScan.ScanMatch
      ensures hit in SegmentHits(mem, seg, pat) <==> RangeMatch(mem, seg.base, seg.size, pat, hit)
    {
      assert hit == PatternScan.ScanMatch(hit.address, hit.size);
      FitsInMemory(mem, seg.base, seg.size, pat, hit);
    }
  }

  lemma FitsInMemory(
    mem: X86Machine.Memory, base: int, size: nat, pat: PatternScan.Pattern, hit: PatternScan.ScanMatch)
    requires |pat.mask| == |pat.bytes|
    ensures RangeMatch(mem, base, size, pat, hit) <==>
              hit.size == |pat.bytes| > 0 &&
              PatternScan.FitsAt(X86Machine.Fetch(mem, base, size), pat, hit.address - base)
  {
    var h, k := X86Machine.Fetch(mem, base, size), hit.address - base;
    if 0 <= k && k + |pat.bytes| <= size {
      assert forall j :: 0 <= j < |pat.bytes| ==>
               (h[k + j] == pat.bytes[j] <==> X86Machine.Peek(mem, Wrap(hit.address + j)) == pat.bytes[j]);
    }
  }

  /** A module scan reports exactly the matches that lie inside one of its mapped segments. */
  lemma {:induction false} ModuleHitsExact(mem: X86Machine.Memory, segments: seq<Segment>, pat: PatternScan.Pattern)
    requires pat.Valid()
    ensures |pat.mask| == |pat.bytes|
    ensures forall hit :: hit in ModuleHits(mem, segments, pat) <==>
              exists seg :: seg in segments && RangeMatch(mem, seg.base, seg.size, pat, hit)
  {
    if segments != [] {
      var before, last := segments[..|segments| - 1], segments[|segments| - 1];
      ModuleHitsExact(mem, before, pat);
      SegmentHitsExact(mem, last, pat);
      hide RangeMatch, SegmentHits;
      assert segments == before + [last];
      assert ModuleHits(mem, segments, pat) == ModuleHits(mem, before, pat) + SegmentHits(mem, last, pat);
    }
  }

  // ---------- From the map to the matches ----------

  /** Of the mapped files with a name, `path` is the one mentioned first. */
  ghost predicate FirstFileNamed(lines: seq<MapLine>, name: string, path: string) {
    var ps := FilePaths(lines);
    exists k: nat :: k < |ps| && ps[k] == path && BaseName(path) == name && forall i :: 0 <= i < k ==>
      BaseName(ps[i]) != name
  }

  /** A match of the pattern inside some mapping of the path. */
  ghost predicate MappingMatch(
      mem: X86Machine.Memory, lines: seq<MapLine>, path: string, pat: PatternScan.Pattern, hit: PatternScan.ScanMatch)
    requires |pat.mask| == |pat.bytes|
  {
    exists i :: 0 <= i < |lines| && IsMappingOf(lines[i], path) &&
      RangeMatch(mem, lines[i].start, Wrap(lines[i].end - lines[i].start), pat, hit)
  }

  /** What the scan of the module built from the map lines of a path reports. */
  lemma MapHitsExact(mem: X86Machine.Memory, lines: seq<MapLine>, path: string, pat: PatternScan.Pattern)
    requires pat.Valid() && Mentions(lines, path)
    ensures SegmentsOf(lines, path) != [] && |pat.mask| == |pat.bytes|
    ensures forall hit :: hit in ModuleHits(mem, SegmentsOf(lines, path), pat) <==>
              MappingMatch(mem, lines, path, pat, hit)
  {
    hide RangeMatch, ModuleHits, SegmentsOf;
    var segments := SegmentsOf(lines, path);
    ModuleHitsExact(mem, segments, pat);
    SegmentsExact(lines, path);
    forall i | 0 <= i < |lines| && IsMappingOf(lines[i], path)
      ensures Segment(lines[i].start, Wrap(lines[i].end - lines[i].start)) in segments
    {
    }
  }

  /** scanModule over the process's own map: the modules are enumerated afresh, and the hits are exactly the places, in
      some mapping of the first file of that name, at which the pattern that the text notates fits. */
  method ScanModuleOfMap(mem: X86Machine.Memory, lines: seq<MapLine>, name: string, text: string)
    returns (r: Result<seq<PatternScan.ScanMatch>, ScanError>)
    ensures match r
            case Failure(ModuleNotFound(n)) =>
              n == name && forall path :: IsFile(path) && Mentions(lines, path) ==> BaseName(path) != name
            case Failure(BadPattern(e)) =>
              && PatternScan.Parse(text) == Failure(e) && (exists path :: FirstFileNamed(lines, name, path))
              && forall pat: PatternScan.Pattern :: pat.Valid() ==> !PatternScan.Notates(text, pat)
            case Success(hits) =>
              exists path, pat: PatternScan.Pattern ::
                && FirstFileNamed(lines, name, path) && pat.Valid() && PatternScan.Notates(text, pat)
                && |pat.mask| == |pat.bytes| && forall hit :: hit in hits <==> MappingMatch(mem, lines, path, pat, hit)
  {
    hide ModuleHits, MappingMatch, SegmentsOf, Least, Greatest, PatternScan.Parse, PatternScan.Notates, BaseName;
    var modules := EnumerateModules(lines);
    var infos := seq(|modules|, i requires 0 <= i < |modules| => InfoOf(modules[i]));
    FilePathsExact(lines);
    r := ScanModule(mem, infos, name, text);
    ghost var ps := FilePaths(lines);
    assert forall i :: 0 <= i < |infos| ==>
             infos[i].name == BaseName(ps[i]) && infos[i].segments == SegmentsOf(lines, ps[i]);
    if r.Success? || r.error.BadPattern? {
      ghost var k: nat :| FirstNamed(infos, name, k) && (r.Success? ==>
        var p := PatternScan.Parse(text);
        p.Success? && p.value.Valid() && r.value == ModuleHits(mem, ScannedRanges(infos[k]), p.value));
      assert FirstFileNamed(lines, name, ps[k]);
      forall pat: PatternScan.Pattern | pat.Valid()
        ensures PatternScan.Parse(text) == Success(pat) <==> PatternScan.Notates(text, pat)
      {
        PatternScan.ParseExact(text, pat);
      }
      if r.Success? {
        MapHitsExact(mem, lines, ps[k], PatternScan.Parse(text).value);
      }
    }
  }
}
