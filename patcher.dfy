/**
 * The source patcher (patch_openwebui.py): it finds the statement that
 * creates the FastAPI application in the host's main.py, and splices in an
 * import of the extension system and a call that wraps the application.
 */
module Patcher {
  import opened Wrappers
  import opened Strings

  // ---------------------------------------------------------------------------
  // Finding the application
  // ---------------------------------------------------------------------------

  /** The pattern `app\s*=\s*FastAPI\s*\(` matches at the start of `s`. Each
      `\s*` is followed by a character that is not whitespace, so skipping
      all leading whitespace is the only way it can match. */
  predicate PatternAt(s: string) {
    "app" <= s &&
    var a := TrimLeft(s[3..]);
    "=" <= a &&
    var b := TrimLeft(a[1..]);
    "FastAPI" <= b &&
    var c := TrimLeft(b[7..]);
    "(" <= c
  }

  /** `app_pattern.search(line)`: the pattern matches somewhere in the line. */
  predicate AppLine(line: string)
    decreases |line|
  {
    PatternAt(line) || (line != [] && AppLine(line[1..]))
  }

  /** The search finds exactly the positions where the pattern matches. */
  lemma {:induction false} AppLineSearches(line: string)
    ensures AppLine(line) <==> exists p :: 0 <= p <= |line| && PatternAt(line[p..])
    decreases |line|
  {
    assert line[0..] == line;
    if line != [] {
      AppLineSearches(line[1..]);
      if exists p :: 0 <= p <= |line[1..]| && PatternAt(line[1..][p..]) {
        var p :| 0 <= p <= |line[1..]| && PatternAt(line[1..][p..]);
        assert line[p + 1..] == line[1..][p..];
      }
      if exists p :: 0 <= p <= |line| && PatternAt(line[p..]) {
        var p :| 0 <= p <= |line| && PatternAt(line[p..]);
        if p > 0 {
          assert line[1..][p - 1..] == line[p..];
        }
      }
    }
  }

  /** `line.count('(') - line.count(')')`. */
  function Net(line: string): int {
    Count(line, '(') as int - Count(line, ')') as int
  }

  /** The running parenthesis count of lines `i` to `k`. */
  function Balance(lines: seq<string>, i: nat, k: nat): int
    requires i <= k < |lines|
    decreases k
  {
    if k == i then Net(lines[i]) else Balance(lines, i, k - 1) + Net(lines[k])
  }

  /** The first line at or after `from` that the pattern matches. */
  function FirstApp(lines: seq<string>, from: nat): (r: Option<nat>)
    requires from <= |lines|
    ensures r.Some? ==> from <= r.value < |lines| && AppLine(lines[r.value])
    ensures r.Some? ==> forall k :: from <= k < r.value ==> !AppLine(lines[k])
    ensures r.None? ==> forall k :: from <= k < |lines| ==> !AppLine(lines[k])
    decreases |lines| - from
  {
    if from == |lines| then None
    else if AppLine(lines[from]) then Some(from)
    else FirstApp(lines, from + 1)
  }

  /** The continuation loop: from line `e` with running count `count`. */
  function StatementEnd(lines: seq<string>, e: nat, count: int): nat
    requires e < |lines|
    decreases |lines| - e
  {
    if count > 0 && e < |lines| - 1 then StatementEnd(lines, e + 1, count + Net(lines[e + 1]))
    else e
  }

  /** `find_app_creation` on the lines of the content. */
  function AppCreation(lines: seq<string>): Option<(nat, nat)> {
    match FirstApp(lines, 0)
    case None => None
    case Some(i) => Some((i, StatementEnd(lines, i, Net(lines[i]))))
  }

  /** The continuation loop stops at the first line whose running count is
      not positive, or at the last line. */
  lemma {:induction false} StatementEndStops(lines: seq<string>, i: nat, e: nat, count: int)
    requires i <= e < |lines| && count == Balance(lines, i, e)
    requires forall k :: i <= k < e ==> Balance(lines, i, k) > 0
    ensures var r := StatementEnd(lines, e, count);
      e <= r < |lines| && (Balance(lines, i, r) <= 0 || r == |lines| - 1) &&
      forall k :: i <= k < r ==> Balance(lines, i, k) > 0
    decreases |lines| - e
  {
    if count > 0 && e < |lines| - 1 {
      StatementEndStops(lines, i, e + 1, count + Net(lines[e + 1]));
    }
  }

  /** No line matches and the result is None; or the result is the first
      matching line `i` and the first line `e` at or after it where the
      parenthesis count of lines `i..e` is no longer positive (the last line
      when that never happens). */
  lemma AppCreationShape(lines: seq<string>)
    ensures AppCreation(lines).None? <==> forall k :: 0 <= k < |lines| ==> !AppLine(lines[k])
    ensures AppCreation(lines).Some? ==>
      var (i, e) := AppCreation(lines).value;
      i <= e < |lines| && AppLine(lines[i]) && (forall k :: 0 <= k < i ==> !AppLine(lines[k])) &&
      (Balance(lines, i, e) <= 0 || e == |lines| - 1) &&
      forall k :: i <= k < e ==> Balance(lines, i, k) > 0
  {
    match FirstApp(lines, 0)
    case None =>
    case Some(i) => StatementEndStops(lines, i, i, Net(lines[i]));
  }

  /** `find_app_creation(content)`. */
  method FindAppCreation(content: string) returns (r: Option<(nat, nat)>)
    ensures r == AppCreation(SplitLines(content))
  {
    var lines := SplitLines(content);
    var i := 0;
    while i < |lines|
      invariant 0 <= i <= |lines|
      invariant FirstApp(lines, i) == FirstApp(lines, 0)
    {
      if AppLine(lines[i]) {
        var endLine := i;
        var count := Net(lines[i]);
        while count > 0 && endLine < |lines| - 1
          invariant i <= endLine < |lines|
          invariant StatementEnd(lines, endLine, count) == StatementEnd(lines, i, Net(lines[i]))
          decreases |lines| - endLine
        {
          endLine := endLine + 1;
          count := count + Net(lines[endLine]);
        }
        return Some((i, endLine));
      }
      i := i + 1;
    }
    return None;
  }

  // ---------------------------------------------------------------------------
  // Splicing the lines
  // ---------------------------------------------------------------------------

  /** Text whose presence means the file is already patched. */
  const Marker: string := "open_webui_extensions.plugin"

  const ImportLine: string := "from " + Marker + " import initialize_extension_system"

  const ImportBlock: seq<string> := ["# Extension system import", ImportLine, ""]

  const InitBlock: seq<string> := ["# Initialize extension system", "app = initialize_extension_system(app)", ""]

  /** `line.strip().startswith(('import ', 'from '))`. */
  predicate IsImport(line: string) {
    var s := Strip(line);
    StartsWith(s, "import ") || StartsWith(s, "from ")
  }

  /** The loop's `last_import_line`: the last import line, 0 when there is none. */
  function LastImport(lines: seq<string>): (r: nat)
    ensures r < |lines| || r == 0
    decreases |lines|
  {
    if lines == [] then 0
    else if IsImport(lines[|lines| - 1]) then |lines| - 1
    else LastImport(lines[..|lines| - 1])
  }

  /** The last import line is an import and none follows it; without an
      import line the result is 0. */
  lemma {:induction false} LastImportShape(lines: seq<string>)
    ensures (exists k :: 0 <= k < |lines| && IsImport(lines[k])) ==>
      LastImport(lines) < |lines| && IsImport(lines[LastImport(lines)]) &&
      forall k :: LastImport(lines) < k < |lines| ==> !IsImport(lines[k])
    ensures (forall k :: 0 <= k < |lines| ==> !IsImport(lines[k])) ==> LastImport(lines) == 0
    decreases |lines|
  {
    if lines != [] {
      var init := lines[..|lines| - 1];
      LastImportShape(init);
      assert forall k :: 0 <= k < |init| ==> init[k] == lines[k];
    }
  }

  /** `list.insert(i, x)` for an index that is not negative: past the end
      it appends. */
  function Insert(s: seq<string>, i: nat, x: string): seq<string> {
    if i >= |s| then s + [x] else s[..i] + [x] + s[i..]
  }

  /** The three consecutive inserts at `i`, `i + 1` and `i + 2`. */
  function InsertBlock(s: seq<string>, i: nat, block: seq<string>): seq<string>
    requires |block| == 3
  {
    Insert(Insert(Insert(s, i, block[0]), i + 1, block[1]), i + 2, block[2])
  }

  /** The three inserts put the block before line `i`, or at the end when
      `i` is past it. */
  lemma InsertBlockSplices(s: seq<string>, i: nat, block: seq<string>)
    requires |block| == 3
    ensures var j := if i <= |s| then i else |s|;
      InsertBlock(s, i, block) == s[..j] + block + s[j..]
  {
    var j := if i <= |s| then i else |s|;
    var s1 := Insert(s, i, block[0]);
    assert s1 == s[..j] + [block[0]] + s[j..];
    var s2 := Insert(s1, i + 1, block[1]);
    assert s2 == s[..j] + [block[0], block[1]] + s[j..] by {
      if i < |s| {
        assert s1[..i + 1] == s[..i] + [block[0]];
        assert s1[i + 1..] == s[i..];
      }
    }
    var s3 := Insert(s2, i + 2, block[2]);
    assert s3 == s[..j] + block + s[j..] by {
      if i < |s| {
        assert s2[..i + 2] == s[..i] + [block[0], block[1]];
        assert s2[i + 2..] == s[i..];
      }
    }
  }

  /** The lines after the import block has gone in. */
  function WithImports(lines: seq<string>): seq<string> {
    InsertBlock(lines, LastImport(lines) + 1, ImportBlock)
  }

  /** The patched lines as written: the init block goes in at `end_line + 1`
      of the list that already holds the import block, with `end_line`
      computed on the original lines. */
  function PatchLines(lines: seq<string>, endLine: nat): seq<string> {
    InsertBlock(WithImports(lines), endLine + 1, InitBlock)
  }

  /** What a run of `patch_main_file` does to a main.py holding `content`. */
  datatype PatchOutcome = PatchOutcome(ok: bool, backedUp: bool, written: Option<string>)

  /** Where the init block goes: `AsWritten` is `end_line + 1` of the list
      extended by the import block, `Corrected` the line right after the
      application statement in that list. */
  datatype Splice = AsWritten | Corrected

  function SpliceInit(lines: seq<string>, endLine: nat, how: Splice): seq<string> {
    match how
    case AsWritten => PatchLines(lines, endLine)
    case Corrected => PatchLinesFixed(lines, endLine)
  }

  /** `patch_main_file` on `content`, with the init block placed as `how`
      says; `backupOk` says whether the copy to `main.py.bak` succeeds. */
  function Patch(content: string, backupOk: bool, how: Splice): PatchOutcome {
    if Contains(content, Marker) then PatchOutcome(true, false, None)
    else if !backupOk then PatchOutcome(false, false, None)
    else
      var lines := SplitLines(content);
      match AppCreation(lines)
      case None => PatchOutcome(false, true, None)
      case Some((_, e)) => PatchOutcome(true, true, Some(JoinLines(SpliceInit(lines, e, how))))
  }

  /** `patch_main_file(main_path)` for a file holding `content`, with the
      init block placed after the application statement. */
  method PatchMainFile(content: string, backupOk: bool) returns (r: PatchOutcome)
    ensures r == Patch(content, backupOk, Corrected)
  {
    if Contains(content, Marker) {
      return PatchOutcome(true, false, None);
    }
    if !backupOk {
      return PatchOutcome(false, false, None);
    }
    var lines := SplitLines(content);
    var lastImportLine := 0;
    var i := 0;
    while i < |lines|
      invariant 0 <= i <= |lines|
      invariant lastImportLine == LastImport(lines[..i])
    {
      assert lines[..i + 1][..i] == lines[..i];
      if IsImport(lines[i]) {
        lastImportLine := i;
      }
      i := i + 1;
    }
    assert lines[..|lines|] == lines;
    var out := SpliceImports(lines, lastImportLine);
    var appLines := FindAppCreation(content);
    if appLines.None? {
      return PatchOutcome(false, true, None);
    }
    out := SpliceInitAfter(lines, out, lastImportLine, appLines.value.1);
    return PatchOutcome(true, true, Some(JoinLines(out)));
  }

  /** The three inserts of the import block after the last import line. */
  method SpliceImports(lines: seq<string>, lastImportLine: nat) returns (out: seq<string>)
    requires lastImportLine == LastImport(lines)
    ensures out == WithImports(lines)
  {
    out := lines;
    out := Insert(out, lastImportLine + 1, ImportBlock[0]);
    out := Insert(out, lastImportLine + 2, ImportBlock[1]);
    out := Insert(out, lastImportLine + 3, ImportBlock[2]);
  }

  /** The three inserts of the init block after the application statement
      ending at `endLine`, which has moved down by three when the import
      block went in before it. */
  method SpliceInitAfter(lines: seq<string>, withImports: seq<string>, lastImportLine: nat, endLine: nat)
    returns (out: seq<string>)
    requires lastImportLine == LastImport(lines) && withImports == WithImports(lines)
    ensures out == SpliceInit(lines, endLine, Corrected)
  {
    var at := endLine;
    if lastImportLine < endLine {
      at := endLine + 3;
    }
    out := withImports;
    out := Insert(out, at + 1, InitBlock[0]);
    out := Insert(out, at + 2, InitBlock[1]);
    out := Insert(out, at + 3, InitBlock[2]);
  }

  // ---------------------------------------------------------------------------
  // What patching promises
  // ---------------------------------------------------------------------------

  /** The import block goes right after the last import line (after line 0
      when there is none), and nothing else moves. */
  lemma ImportsAfterLastImport(lines: seq<string>)
    requires lines != []
    ensures var l := LastImport(lines);
      WithImports(lines) == lines[..l + 1] + ImportBlock + lines[l + 1..]
  {
    LastImportShape(lines);
    InsertBlockSplices(lines, LastImport(lines) + 1, ImportBlock);
  }

  /** The patched lines are the original ones plus six: the import block
      after the last import and the init block at `end_line + 1` of the
      extended list. */
  lemma PatchLinesShape(lines: seq<string>, e: nat)
    requires e < |lines|
    ensures |PatchLines(lines, e)| == |lines| + 6
    ensures PatchLines(lines, e) == WithImports(lines)[..e + 1] + InitBlock + WithImports(lines)[e + 1..]
  {
    ImportsAfterLastImport(lines);
    InsertBlockSplices(WithImports(lines), e + 1, InitBlock);
  }

  /** Nothing is written when the file is already patched, when the backup
      fails, or when no application creation is found; only the last of
      these reports failure after taking a backup. */
  lemma PatchRefuses(content: string, backupOk: bool, how: Splice)
    ensures Contains(content, Marker) ==> Patch(content, backupOk, how) == PatchOutcome(true, false, None)
    ensures !Contains(content, Marker) && !backupOk ==> Patch(content, backupOk, how) == PatchOutcome(false, false, None)
    ensures !Contains(content, Marker) && backupOk && AppCreation(SplitLines(content)).None? ==>
      Patch(content, backupOk, how) == PatchOutcome(false, true, None)
    ensures Patch(content, backupOk, how).written.Some? <==>
      !Contains(content, Marker) && backupOk && AppCreation(SplitLines(content)).Some?
  {
  }

  /** The patched lines hold the plugin import line, wherever the init
      block goes. */
  lemma PatchedHasImport(lines: seq<string>, e: nat, how: Splice)
    requires e < |lines|
    ensures ImportLine in SpliceInit(lines, e, how)
  {
    var l := LastImport(lines);
    ImportsAfterLastImport(lines);
    assert WithImports(lines)[l + 2] == ImportLine;
    SpliceInitKeeps(lines, e, how, ImportLine);
  }

  /** Either splice keeps every line of the list holding the import block. */
  lemma SpliceInitKeeps(lines: seq<string>, e: nat, how: Splice, x: string)
    requires x in WithImports(lines)
    ensures x in SpliceInit(lines, e, how)
  {
    match how
    case AsWritten => InsertBlockKeeps(WithImports(lines), e + 1, InitBlock, x);
    case Corrected => InsertBlockKeeps(WithImports(lines), Shifted(lines, e) + 1, InitBlock, x);
  }

  /** Inserting a block loses no line. */
  lemma InsertBlockKeeps(w: seq<string>, p: nat, block: seq<string>, x: string)
    requires |block| == 3 && x in w
    ensures x in InsertBlock(w, p, block)
  {
    InsertBlockSplices(w, p, block);
    var j := if p <= |w| then p else |w|;
    assert w == w[..j] + w[j..];
    assert x in w[..j] || x in w[j..];
  }

  /** The plugin import line contains the marker. */
  lemma ImportLineHasMarker()
    ensures Contains(ImportLine, Marker)
  {
    assert ImportLine[5..] == Marker + " import initialize_extension_system";
  }

  /** Patched text contains the marker. */
  lemma PatchedHasMarker(lines: seq<string>, e: nat, how: Splice)
    requires e < |lines|
    ensures Contains(JoinLines(SpliceInit(lines, e, how)), Marker)
  {
    var out := SpliceInit(lines, e, how);
    PatchedHasImport(lines, e, how);
    var k :| 0 <= k < |out| && out[k] == ImportLine;
    ImportLineHasMarker();
    JoinLinesContains(out, k, Marker);
  }

  /** Patched text contains the marker, so patching it again returns true
      and writes nothing: patching is idempotent. */
  lemma PatchIdempotent(content: string, backupOk: bool, again: bool, how: Splice)
    requires Patch(content, backupOk, how).written.Some?
    ensures Patch(Patch(content, backupOk, how).written.value, again, how) == PatchOutcome(true, false, None)
  {
    var lines := SplitLines(content);
    AppCreationShape(lines);
    PatchedHasMarker(lines, AppCreation(lines).value.1, how);
  }

  // ---------------------------------------------------------------------------
  // The init block's position
  // ---------------------------------------------------------------------------

  /** As written, when an import line comes before the end of the
      application statement, the init block lands before that statement's
      last line: the wrapping call runs before the application exists. */
  lemma InitBeforeStatementEnd(lines: seq<string>, e: nat)
    requires e < |lines| && LastImport(lines) < e
    ensures var out := PatchLines(lines, e);
      |out| == |lines| + 6 && out[e + 2] == InitBlock[1] && out[e + 6] == lines[e]
  {
    ShiftedLine(lines, e);
    SpliceAfter(WithImports(lines), e, InitBlock);
    SpliceShifts(WithImports(lines), e, InitBlock, e + 3);
  }

  /** A main.py of an import line followed by a one-line application
      statement, such as `import os` and `app = FastAPI()`: patching it puts
      the wrapping call at line 3, before the plugin import (line 5) and
      before the application statement (line 7). */
  lemma InitMisplacedExample(imp: string, app: string)
    requires IsImport(imp) && !AppLine(imp)
    requires !IsImport(app) && AppLine(app) && Net(app) <= 0
    ensures AppCreation([imp, app]) == Some((1, 1))
    ensures var out := PatchLines([imp, app], 1);
      |out| == 8 && out[3] == InitBlock[1] && out[5] == ImportLine && out[7] == app
  {
    var lines := [imp, app];
    assert FirstApp(lines, 0) == Some(1);
    assert LastImport(lines) == 0 by {
      assert lines[..1] == [imp];
    }
    InitBeforeStatementEnd(lines, 1);
    ImportsAfterLastImport(lines);
    PatchLinesShape(lines, 1);
  }

  /** `import os` is an import line. */
  lemma ExampleImportLine()
    ensures IsImport("import os")
  {
  }

  /** `app = FastAPI()` is not an import line. */
  lemma ExampleAppLine()
    ensures !IsImport("app = FastAPI()")
  {
  }

  /** Where the original line `e` sits once the import block is in. */
  function Shifted(lines: seq<string>, e: nat): nat {
    if LastImport(lines) < e then e + 3 else e
  }

  /** The intended splice: the init block goes right after the application
      statement wherever the import block went. */
  function PatchLinesFixed(lines: seq<string>, endLine: nat): seq<string> {
    InsertBlock(WithImports(lines), Shifted(lines, endLine) + 1, InitBlock)
  }

  /** With the corrected splice, six lines are added and the init block
      follows the statement's last line directly. */
  lemma FixedInitFollowsStatement(lines: seq<string>, e: nat)
    requires e < |lines|
    ensures var out := PatchLinesFixed(lines, e);
      var p := Shifted(lines, e);
      |out| == |lines| + 6 && out[p] == lines[e] && out[p + 1..p + 4] == InitBlock
  {
    ShiftedLine(lines, e);
    SpliceAfter(WithImports(lines), Shifted(lines, e), InitBlock);
  }

  /** When the imports come first, the corrected splice leaves the import
      block whole, right after the last import and before the init block. */
  lemma FixedKeepsImports(lines: seq<string>, e: nat)
    requires e < |lines| && LastImport(lines) < e
    ensures var out := PatchLinesFixed(lines, e);
      var l := LastImport(lines);
      |out| == |lines| + 6 && out[l + 1..l + 4] == ImportBlock && l + 4 <= Shifted(lines, e) + 1
  {
    var l := LastImport(lines);
    FixedInitFollowsStatement(lines, e);
    ImportBlockAt(lines);
    SpliceKeepsBefore(WithImports(lines), Shifted(lines, e) + 1, InitBlock, l + 1, l + 4);
  }

  /** When an import line follows the application statement's end (an
      indented import inside a function, say), both splices agree: the init
      block follows the statement directly, and the import block, placed
      after the last import, comes after the init block. */
  lemma LateImportSplicesAgree(lines: seq<string>, e: nat)
    requires e < |lines| && e <= LastImport(lines)
    ensures PatchLinesFixed(lines, e) == PatchLines(lines, e)
    ensures var out := PatchLines(lines, e);
      var l := LastImport(lines);
      |out| == |lines| + 6 && out[e] == lines[e] && out[e + 1..e + 4] == InitBlock &&
      out[l + 4..l + 7] == ImportBlock
  {
    assert Shifted(lines, e) == e;
    SplicesAgree(lines, e);
    FixedInitFollowsStatement(lines, e);
    ImportBlockAfterInit(lines, e);
    ImportBlockAt(lines);
  }

  /** The as-written splice before the last import shifts the lines after
      it down by the three init lines. */
  lemma ImportBlockAfterInit(lines: seq<string>, e: nat)
    requires e < |lines| && Shifted(lines, e) == e
    ensures var l, w := LastImport(lines), WithImports(lines);
      l + 4 <= |w| && |PatchLines(lines, e)| == |w| + 3 && PatchLines(lines, e)[l + 4..l + 7] == w[l + 1..l + 4]
  {
    PatchLinesUnfold(lines, e);
    LastImportBelow(lines);
    SpliceMovesLater(WithImports(lines), e, InitBlock, LastImport(lines) + 1);
  }

  /** The as-written splice is the init block put in after line `e` of the
      lines that already hold the import block. */
  lemma PatchLinesUnfold(lines: seq<string>, e: nat)
    ensures PatchLines(lines, e) == InsertBlock(WithImports(lines), e + 1, InitBlock)
  {
  }

  /** The import block adds three lines, and the last import is a line. */
  lemma LastImportBelow(lines: seq<string>)
    requires lines != []
    ensures LastImport(lines) < |lines| && |WithImports(lines)| == |lines| + 3
  {
    InsertBlockSplices(lines, LastImport(lines) + 1, ImportBlock);
  }

  /** Where the statement's line does not move, the two splices are one. */
  lemma SplicesAgree(lines: seq<string>, e: nat)
    requires Shifted(lines, e) == e
    ensures PatchLinesFixed(lines, e) == PatchLines(lines, e)
  {
  }

  /** A splice after line `p` moves the three lines at `i > p` down by three. */
  lemma SpliceMovesLater(w: seq<string>, p: nat, block: seq<string>, i: nat)
    requires |block| == 3 && p < i && i + 3 <= |w|
    ensures |InsertBlock(w, p + 1, block)| == |w| + 3
    ensures InsertBlock(w, p + 1, block)[i + 3..i + 6] == w[i..i + 3]
  {
    InsertBlockSplices(w, p + 1, block);
    var a := w[..p + 1] + block;
    var b := w[p + 1..];
    SliceAfter(a, b, i - p - 1);
    assert b[i - p - 1..i - p + 2] == w[i..i + 3];
  }

  /** Three lines of `b` keep their order after `a` is put in front. */
  lemma SliceAfter(a: seq<string>, b: seq<string>, x: nat)
    requires x + 3 <= |b|
    ensures (a + b)[|a| + x..|a| + x + 3] == b[x..x + 3]
  {
  }

  /** The import block sits right after the last import line. */
  lemma ImportBlockAt(lines: seq<string>)
    requires lines != []
    ensures var l := LastImport(lines);
      l + 4 <= |WithImports(lines)| && WithImports(lines)[l + 1..l + 4] == ImportBlock
  {
    var l := LastImport(lines);
    ImportsAfterLastImport(lines);
    MiddleSlice(lines[..l + 1], ImportBlock, lines[l + 1..]);
  }

  /** Line `e` of the original sits at `Shifted(lines, e)` once the import
      block is in. */
  lemma ShiftedLine(lines: seq<string>, e: nat)
    requires e < |lines|
    ensures |WithImports(lines)| == |lines| + 3 && WithImports(lines)[Shifted(lines, e)] == lines[e]
  {
    var l := LastImport(lines);
    ImportsAfterLastImport(lines);
    if l < e {
      assert WithImports(lines)[e + 3] == lines[l + 1..][e - l - 1];
    } else {
      assert WithImports(lines)[e] == lines[..l + 1][e];
    }
  }

  /** A block spliced in after line `p` directly follows it. */
  lemma SpliceAfter(w: seq<string>, p: nat, block: seq<string>)
    requires |block| == 3 && p < |w|
    ensures var out := InsertBlock(w, p + 1, block);
      |out| == |w| + 3 && out[p] == w[p] && out[p + 1..p + 4] == block
  {
    InsertBlockSplices(w, p + 1, block);
    MiddleSlice(w[..p + 1], block, w[p + 1..]);
  }

  /** The lines after the splice point move down by three. */
  lemma SpliceShifts(w: seq<string>, p: nat, block: seq<string>, k: nat)
    requires |block| == 3 && p < k < |w|
    ensures InsertBlock(w, p + 1, block)[k + 3] == w[k]
  {
    InsertBlockSplices(w, p + 1, block);
    var a := w[..p + 1] + block;
    assert |a| == p + 4;
    assert InsertBlock(w, p + 1, block) == a + w[p + 1..];
    assert (a + w[p + 1..])[k + 3] == w[p + 1..][k - p - 1];
  }

  /** The middle part of a concatenation is found at its offset. */
  lemma MiddleSlice(a: seq<string>, b: seq<string>, c: seq<string>)
    ensures (a + b + c)[|a|..|a| + |b|] == b
  {
  }

  /** Lines before the splice point keep their places. */
  lemma SpliceKeepsBefore(w: seq<string>, p: nat, block: seq<string>, i: nat, j: nat)
    requires |block| == 3 && i <= j <= p <= |w|
    ensures InsertBlock(w, p, block)[i..j] == w[i..j]
  {
    InsertBlockSplices(w, p, block);
    assert InsertBlock(w, p, block)[..p] == w[..p];
  }
}
