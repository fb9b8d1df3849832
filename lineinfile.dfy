/**
 * `docker_exec_lineinfile`: makes sure a line is present in, or absent
 * from, a file inside a container, changing the file only when needed.
 *
 * The container is a `Container` object: its regular files, the paths
 * whose probe, read or write fails, and the shell scripts run so far. The
 * decision and the new content are pure functions over the file's lines;
 * `EnsureLinePresent` and `EnsureLineAbsent` run the read, backup and write
 * steps against the container and are proved to do what `PresentEffect`
 * and `AbsentEffect` describe.
 */
module LineInFile {
  import opened Wrappers
  import opened Lines
  import Text
  import Timestamp

  /** `re.match(pattern, text)` is truthy: the pattern matches at the start of `text`. */
  type Matcher = (string, string) -> bool

  datatype State = Present | Absent

  /** `if regexp:` in Python: a pattern was given and it is not empty. */
  predicate HasPattern(regexp: Option<string>) {
    regexp.Some? && regexp.value != ""
  }

  function PatternOf(regexp: Option<string>): string {
    if regexp.Some? then regexp.value else ""
  }

  // ---------------------------------------------------------------------
  // Looking for the line

  /** The index of the first line whose text (newlines stripped) the pattern matches. */
  function FirstMatch(lines: seq<string>, pattern: string, matches: Matcher): (r: Option<nat>)
    ensures r.Some? ==> r.value < |lines| && matches(pattern, StripNewlines(lines[r.value]))
    ensures r.Some? ==> forall j | 0 <= j < r.value :: !matches(pattern, StripNewlines(lines[j]))
    ensures r.None? ==> forall j | 0 <= j < |lines| :: !matches(pattern, StripNewlines(lines[j]))
  {
    if lines == [] then None
    else if matches(pattern, StripNewlines(lines[0])) then Some(0)
    else
      match FirstMatch(lines[1..], pattern, matches)
      case None => None
      case Some(i) => Some(i + 1)
  }

  /** `line_present`: whether the line is there, and with a pattern the text of the first match. */
  function LinePresent(lines: seq<string>, line: Option<string>, regexp: Option<string>, matches: Matcher)
    : (r: (bool, Option<string>))
    ensures r.1.Some? <==> HasPattern(regexp) && r.0
  {
    if HasPattern(regexp) then
      match FirstMatch(lines, regexp.value, matches)
      case Some(i) => (true, Some(StripNewlines(lines[i])))
      case None => (false, None)
    else
      (line.Some? && line.value in Texts(lines), None)
  }

  /**
   * With a pattern, the line is present when some line matches it, and the
   * text reported is that of the first match; without one, when some
   * line's text is exactly `line`.
   */
  lemma LinePresentMeaning(lines: seq<string>, line: Option<string>, regexp: Option<string>, matches: Matcher)
    ensures var r := LinePresent(lines, line, regexp, matches);
      HasPattern(regexp) && r.0 ==>
        exists i | 0 <= i < |lines| ::
          && matches(regexp.value, StripNewlines(lines[i]))
          && r.1 == Some(StripNewlines(lines[i]))
          && forall j | 0 <= j < i :: !matches(regexp.value, StripNewlines(lines[j]))
    ensures var r := LinePresent(lines, line, regexp, matches);
      HasPattern(regexp) && !r.0 ==>
        forall i | 0 <= i < |lines| :: !matches(regexp.value, StripNewlines(lines[i]))
    ensures var r := LinePresent(lines, line, regexp, matches);
      !HasPattern(regexp) ==>
        (r.0 <==> line.Some? && exists i | 0 <= i < |lines| :: StripNewlines(lines[i]) == line.value)
  {
    if HasPattern(regexp) {
      var found := FirstMatch(lines, regexp.value, matches);
      if found.Some? {
        var i := found.value;
        assert matches(regexp.value, StripNewlines(lines[i]));
      }
    } else {
      var texts := Texts(lines);
      assert forall i | 0 <= i < |lines| :: texts[i] == StripNewlines(lines[i]);
    }
  }

  /**
   * Whether `ensure_line_absent` drops a line: by the pattern when one is
   * given, otherwise by the line's text being exactly `line`.
   */
  predicate Selected(l: string, line: Option<string>, regexp: Option<string>, matches: Matcher) {
    if HasPattern(regexp) then matches(regexp.value, StripNewlines(l))
    else line.Some? && StripNewlines(l) == line.value
  }

  /** The line is "present" exactly when some line would be dropped by an absent edit. */
  lemma PresentIffSelected(lines: seq<string>, line: Option<string>, regexp: Option<string>, matches: Matcher)
    ensures LinePresent(lines, line, regexp, matches).0 <==>
      exists i | 0 <= i < |lines| :: Selected(lines[i], line, regexp, matches)
  {
    LinePresentMeaning(lines, line, regexp, matches);
    if LinePresent(lines, line, regexp, matches).0 {
      var i :| 0 <= i < |lines| &&
        if HasPattern(regexp) then matches(regexp.value, StripNewlines(lines[i]))
        else StripNewlines(lines[i]) == line.value;
      assert Selected(lines[i], line, regexp, matches);
    }
  }

  // ---------------------------------------------------------------------
  // The new content

  /** Every line the pattern matches replaced by `line + "\n"`, the others kept. */
  function Rewrite(lines: seq<string>, line: string, pattern: string, matches: Matcher): seq<string> {
    seq(|lines|, i requires 0 <= i < |lines| =>
      if matches(pattern, StripNewlines(lines[i])) then line + "\n" else lines[i])
  }

  /** The replace loop of `ensure_line_present`. */
  method RewriteMatching(lines: seq<string>, line: string, pattern: string, matches: Matcher)
    returns (newLines: seq<string>)
    ensures |newLines| == |lines|
    ensures forall i | 0 <= i < |lines| && matches(pattern, StripNewlines(lines[i])) :: newLines[i] == line + "\n"
    ensures forall i | 0 <= i < |lines| && !matches(pattern, StripNewlines(lines[i])) :: newLines[i] == lines[i]
  {
    newLines := [];
    var k := 0;
    while k < |lines|
      invariant 0 <= k <= |lines| && |newLines| == k
      invariant forall i | 0 <= i < k :: newLines[i] == if matches(pattern, StripNewlines(lines[i])) then line + "\n" else lines[i]
    {
      if matches(pattern, StripNewlines(lines[k])) {
        newLines := newLines + [line + "\n"];
      } else {
        newLines := newLines + [lines[k]];
      }
      k := k + 1;
    }
  }

  /** The lines an absent edit keeps, in their original order. */
  function Kept(lines: seq<string>, line: Option<string>, regexp: Option<string>, matches: Matcher)
    : (r: seq<string>)
    ensures |r| <= |lines|
  {
    if lines == [] then []
    else
      var init := lines[..|lines| - 1];
      var last := lines[|lines| - 1];
      var r := Kept(init, line, regexp, matches);
      if Selected(last, line, regexp, matches) then r else r + [last]
  }

  /** The kept lines are exactly the lines that are not selected, and nothing selected is kept. */
  lemma {:induction false} KeptMeaning(lines: seq<string>, line: Option<string>, regexp: Option<string>, matches: Matcher)
    ensures var r := Kept(lines, line, regexp, matches);
      && (forall x | x in r :: x in lines && !Selected(x, line, regexp, matches))
      && (forall i | 0 <= i < |lines| && !Selected(lines[i], line, regexp, matches) :: lines[i] in r)
      && ((forall i | 0 <= i < |lines| :: !Selected(lines[i], line, regexp, matches)) ==> r == lines)
  {
    if lines != [] {
      var init := lines[..|lines| - 1];
      var last := lines[|lines| - 1];
      assert lines == init + [last];
      KeptMeaning(init, line, regexp, matches);
      forall i | 0 <= i < |init| ensures init[i] == lines[i] { }
    }
  }

  /** The filter loop of `ensure_line_absent`. */
  method DropSelected(lines: seq<string>, line: Option<string>, regexp: Option<string>, matches: Matcher)
    returns (newLines: seq<string>)
    ensures newLines == Kept(lines, line, regexp, matches)
  {
    newLines := [];
    var k := 0;
    while k < |lines|
      invariant 0 <= k <= |lines|
      invariant newLines == Kept(lines[..k], line, regexp, matches)
    {
      assert lines[..k + 1][..k] == lines[..k];
      if HasPattern(regexp) {
        if !matches(regexp.value, StripNewlines(lines[k])) {
          newLines := newLines + [lines[k]];
        }
      } else {
        if !(line.Some? && StripNewlines(lines[k]) == line.value) {
          newLines := newLines + [lines[k]];
        }
      }
      k := k + 1;
    }
    assert lines[..k] == lines;
  }

  /** The append rule: the content, a "\n" if it lacks a final one, then the line. */
  function AppendLine(content: string, line: string): string {
    content + (if content != "" && content[|content| - 1] != '\n' then "\n" else "") + line + "\n"
  }

  lemma AppendExamples()
    ensures AppendLine("x\n", "y") == "x\ny\n"
    ensures AppendLine("x", "y") == "x\ny\n"
    ensures AppendLine("", "y") == "y\n"
  {
  }

  /** After an append the file's lines are the old ones, the last closed, and then the new line. */
  lemma AppendedLines(content: string, line: string)
    requires '\n' !in line
    ensures SplitLines(AppendLine(content, line)) == CloseLast(SplitLines(content)) + [line + "\n"]
  {
    var lines := SplitLines(content);
    var added := line + "\n";
    SplitWellFormed(content);
    JoinOfSplit(content);
    assert IsLine(added) && Terminated(added) by {
      forall i | 0 <= i < |added| - 1 ensures added[i] != '\n' { assert added[i] == line[i]; }
    }
    CloseLastWellFormed(lines, added);
    CloseLastJoin(lines);
    JoinAppend(CloseLast(lines), [added]);
    assert Join([added]) == added;
    assert AppendLine(content, line) == Join(CloseLast(lines)) + added;
    SplitOfJoin(CloseLast(lines) + [added]);
  }

  lemma NoNewlineText(line: string)
    requires '\n' !in line
    ensures StripNewlines(line + "\n") == line
  {
    StripNewlinesAppended(line);
    if line != "" {
      assert line[|line| - 1] in line;
    }
  }

  /** After an append, the texts the editor compares are the old ones followed by the line. */
  lemma AppendedTexts(content: string, line: string)
    requires '\n' !in line
    ensures Texts(SplitLines(AppendLine(content, line))) == Texts(SplitLines(content)) + [line]
  {
    var lines := SplitLines(content);
    AppendedLines(content, line);
    CloseLastTexts(lines);
    NoNewlineText(line);
    var after := CloseLast(lines) + [line + "\n"];
    assert Texts(after) == Texts(CloseLast(lines)) + [line] by {
      forall i | 0 <= i < |after| ensures Texts(after)[i] == (Texts(CloseLast(lines)) + [line])[i] {
        if i < |CloseLast(lines)| {
          assert after[i] == CloseLast(lines)[i];
        }
      }
    }
  }

  lemma RewriteWellFormed(lines: seq<string>, line: string, pattern: string, matches: Matcher)
    requires WellFormed(lines) && '\n' !in line
    ensures WellFormed(Rewrite(lines, line, pattern, matches))
  {
    var added := line + "\n";
    assert IsLine(added) && Terminated(added) by {
      forall i | 0 <= i < |added| - 1 ensures added[i] != '\n' { assert added[i] == line[i]; }
    }
  }

  /** Replacing keeps the number of lines; each matched line becomes the new line. */
  lemma RewrittenLines(content: string, line: string, pattern: string, matches: Matcher)
    requires '\n' !in line
    ensures SplitLines(Join(Rewrite(SplitLines(content), line, pattern, matches)))
         == Rewrite(SplitLines(content), line, pattern, matches)
    ensures |Rewrite(SplitLines(content), line, pattern, matches)| == |SplitLines(content)|
  {
    SplitWellFormed(content);
    RewriteWellFormed(SplitLines(content), line, pattern, matches);
    SplitOfJoin(Rewrite(SplitLines(content), line, pattern, matches));
  }

  lemma {:induction false} KeptWellFormed(lines: seq<string>, line: Option<string>, regexp: Option<string>,
                                          matches: Matcher)
    requires WellFormed(lines)
    ensures WellFormed(Kept(lines, line, regexp, matches))
  {
    if lines != [] {
      var init := lines[..|lines| - 1];
      var last := lines[|lines| - 1];
      var r := Kept(init, line, regexp, matches);
      assert WellFormed(init);
      KeptWellFormed(init, line, regexp, matches);
      KeptMeaning(init, line, regexp, matches);
      assert forall x | x in init :: Terminated(x);
      assert forall i | 0 <= i < |r| :: r[i] in r;
    }
  }

  /** After a removal no line of the written file would be dropped again. */
  lemma RemovedLines(content: string, line: Option<string>, regexp: Option<string>, matches: Matcher)
    ensures var kept := Kept(SplitLines(content), line, regexp, matches);
      && SplitLines(Join(kept)) == kept
      && !LinePresent(kept, line, regexp, matches).0
  {
    var kept := Kept(SplitLines(content), line, regexp, matches);
    SplitWellFormed(content);
    KeptWellFormed(SplitLines(content), line, regexp, matches);
    KeptMeaning(SplitLines(content), line, regexp, matches);
    SplitOfJoin(kept);
    PresentIffSelected(kept, line, regexp, matches);
    assert forall i | 0 <= i < |kept| :: kept[i] in kept;
  }

  // ---------------------------------------------------------------------
  // Decisions

  /** The eight ways an invocation ends, one per message of the module. */
  datatype Outcome =
    | MissingNoCreate   // present, no file, create=false
    | Created           // present, no file, create=true
    | AlreadyPresent    // present, the line (or the first match) is already there
    | Replaced          // present, the first match differs from the line
    | Appended          // present, nothing matches
    | MissingAbsent     // absent, no file
    | AlreadyAbsent     // absent, nothing to drop
    | Removed           // absent, some line dropped
  {
    predicate Changes() {
      Created? || Replaced? || Appended? || Removed?
    }

    /** The outcomes that take a backup when one is requested. */
    predicate BacksUp() {
      Replaced? || Appended?
    }
  }

  /** What `ensure_line_present` finds in an existing file with content `content`. */
  function PresentDecision(content: string, line: string, regexp: Option<string>, matches: Matcher): (o: Outcome)
    ensures o.Appended? || o.Replaced? || o.AlreadyPresent?
  {
    var found := LinePresent(SplitLines(content), Some(line), regexp, matches);
    if !found.0 then Appended
    else if HasPattern(regexp) && found.1 != Some(line) then Replaced
    else AlreadyPresent
  }

  function PlanPresent(files: map<string, string>, faults: Faults, path: string, line: string, regexp: Option<string>,
                       matches: Matcher, create: bool): Outcome
  {
    if !Seen(files, faults, path) then (if create then Created else MissingNoCreate)
    else PresentDecision(ReadContent(files, faults, path), line, regexp, matches)
  }

  /** What `ensure_line_absent` finds in an existing file with content `content`. */
  function AbsentDecision(content: string, line: Option<string>, regexp: Option<string>, matches: Matcher): (o: Outcome)
    ensures o.Removed? || o.AlreadyAbsent?
  {
    if LinePresent(SplitLines(content), line, regexp, matches).0 then Removed else AlreadyAbsent
  }

  function PlanAbsent(files: map<string, string>, faults: Faults, path: string, line: Option<string>, regexp: Option<string>,
                      matches: Matcher): Outcome
  {
    if !Seen(files, faults, path) then MissingAbsent
    else AbsentDecision(ReadContent(files, faults, path), line, regexp, matches)
  }

  /** The whole content `ensure_line_present` writes for a changing outcome. */
  function PresentContent(o: Outcome, content: string, line: string, regexp: Option<string>,
                          matches: Matcher): string
  {
    match o
    case Created => line + "\n"
    case Replaced => Join(Rewrite(SplitLines(content), line, PatternOf(regexp), matches))
    case _ => AppendLine(content, line)
  }

  function Message(o: Outcome, path: string): string {
    match o
    case MissingNoCreate => "File " + path + " does not exist and create=false"
    case Created => "File created with line"
    case AlreadyPresent => "Line already present"
    case Replaced => "Line replaced (regexp matched)"
    case Appended => "Line added to file"
    case MissingAbsent => "File " + path + " does not exist"
    case AlreadyAbsent => "Line already absent"
    case Removed => "Line removed from file"
  }

  function FailureMessage(o: Outcome, path: string): string {
    if o.Created? then "Failed to create file " + path else "Failed to update file " + path
  }

  // ---------------------------------------------------------------------
  // The container and the scripts run in it

  function ExistsScript(path: string): string {
    "test -f " + path + " && echo exists || echo missing"
  }

  function ReadScript(path: string): string {
    "cat " + path + " 2>/dev/null || true"
  }

  function WriteScript(path: string, content: string): string {
    "cat > " + path + " << 'EOF'\n" + content + "EOF"
  }

  function CopyScript(path: string, target: string): string {
    "cp " + path + " " + target
  }

  /** `create_backup`'s target: the path, ".backup." and the fourteen-digit clock reading. */
  function BackupName(path: string, now: Timestamp.DateTime): string
    requires Timestamp.Valid(now)
  {
    path + ".backup." + Timestamp.Stamp(now)
  }

  lemma BackupNameShape(path: string, now: Timestamp.DateTime, later: Timestamp.DateTime)
    requires Timestamp.Valid(now) && Timestamp.Valid(later)
    ensures var name := BackupName(path, now);
      && name[..|path| + 8] == path + ".backup."
      && |name| == |path| + 22
      && Text.AllDigits(name[|path| + 8..])
      && name != path
    ensures BackupName(path, now) == BackupName(path, later) ==> now == later
  {
    var name := BackupName(path, now);
    assert name[|path| + 8..] == Timestamp.Stamp(now);
    if BackupName(path, now) == BackupName(path, later) {
      assert BackupName(path, later)[|path| + 8..] == Timestamp.Stamp(later);
      Timestamp.StampInjective(now, later);
    }
  }

  /**
   * How the container's shell lets the module down, path by path.
   * - `blind`: the existence probe fails (the `docker` call errors or
   *   raises), so `file_exists` reports the file missing.
   * - `unreadable`: the read yields "" although the file is there; either
   *   `docker_exec` catches an exception (a file that is not UTF-8 makes
   *   the decoding raise) and reports status 1, or `cat` fails and
   *   `|| true` turns that into status 0 with no output.
   * - `denied`: the write is refused.
   */
  datatype Faults = Faults(blind: set<string>, unreadable: set<string>, denied: set<string>)

  /** What `file_exists` reports: the file is there and its probe went through. */
  predicate Seen(files: map<string, string>, faults: Faults, path: string) {
    path in files && path !in faults.blind
  }

  /** What `read_file` hands back: the content, or "" when there is no file or the read fails. */
  function ReadContent(files: map<string, string>, faults: Faults, path: string): string {
    if path in files && path !in faults.unreadable then files[path] else ""
  }

  /** A container reached through `docker exec … sh -c <script>`. */
  class Container {
    /** The regular files, by path. */
    var files: map<string, string>
    /** The paths whose probe, read or write fails. */
    const faults: Faults
    /** The scripts run so far, oldest first. */
    var issued: seq<string>

    constructor (files: map<string, string>, faults: Faults)
      ensures this.files == files && this.faults == faults && issued == []
    {
      this.files := files;
      this.faults := faults;
      issued := [];
    }

    /** `file_exists`: `test -f` and look for "exists" in the output, which a failed call lacks. */
    method FileExists(path: string) returns (found: bool)
      modifies this`issued
      ensures found == Seen(files, faults, path)
      ensures issued == old(issued) + [ExistsScript(path)]
    {
      issued := issued + [ExistsScript(path)];
      found := Seen(files, faults, path);
    }

    /** `read_file`: the content, or "" when there is nothing to read or the read fails. */
    method ReadFile(path: string) returns (content: string)
      modifies this`issued
      ensures content == ReadContent(files, faults, path)
      ensures issued == old(issued) + [ReadScript(path)]
    {
      issued := issued + [ReadScript(path)];
      content := ReadContent(files, faults, path);
    }

    /** `write_file`: overwrite the whole file; succeeds unless the path is refused. */
    method WriteFile(path: string, content: string) returns (ok: bool)
      modifies this`files, this`issued
      ensures ok == (path !in faults.denied)
      ensures files == if ok then old(files)[path := content] else old(files)
      ensures issued == old(issued) + [WriteScript(path, content)]
    {
      issued := issued + [WriteScript(path, content)];
      ok := path !in faults.denied;
      if ok {
        files := files[path := content];
      }
    }

    /** `create_backup`: copy the file to its timestamped name; the name only if the copy worked. */
    method CreateBackup(path: string, now: Timestamp.DateTime) returns (backup: Option<string>)
      requires Timestamp.Valid(now)
      modifies this`files, this`issued
      ensures var name := BackupName(path, now);
        var ok := path in old(files) && name !in faults.denied;
        && backup == (if ok then Some(name) else None)
        && files == (if ok then old(files)[name := old(files)[path]] else old(files))
        && issued == old(issued) + [CopyScript(path, name)]
    {
      var name := BackupName(path, now);
      issued := issued + [CopyScript(path, name)];
      if path in files && name !in faults.denied {
        files := files[name := files[path]];
        backup := Some(name);
      } else {
        backup := None;
      }
    }
  }

  // ---------------------------------------------------------------------
  // What one invocation does

  datatype EditResult = EditResult(changed: bool, msg: string, backupFile: Option<string>)

  /** The files afterwards, the scripts run, and the result reported. */
  datatype Effect = Effect(files: map<string, string>, scripts: seq<string>, result: EditResult)

  /**
   * The steps after the decision: nothing for an unchanging outcome; in
   * check mode only the report; otherwise the backup (when `backupName` is
   * given), then the write of `content`.
   */
  function Apply(files: map<string, string>, faults: Faults, path: string, o: Outcome,
                 content: string, backupName: Option<string>, checkMode: bool, scripts: seq<string>): Effect
  {
    if !o.Changes() then Effect(files, scripts, EditResult(false, Message(o, path), None))
    else if checkMode then Effect(files, scripts, EditResult(true, Message(o, path), None))
    else
      var copied := backupName.Some? && path in files && backupName.value !in faults.denied;
      var backedUp := if copied then files[backupName.value := files[path]] else files;
      var copyScripts := if backupName.Some? then [CopyScript(path, backupName.value)] else [];
      var written := path !in faults.denied;
      Effect(if written then backedUp[path := content] else backedUp,
             scripts + copyScripts + [WriteScript(path, content)],
             EditResult(written, if written then Message(o, path) else FailureMessage(o, path),
                        if copied then backupName else None))
  }

  /** The backup target when a backup is taken at clock reading `at`. */
  function BackupTarget(path: string, at: Option<Timestamp.DateTime>): Option<string>
    requires at.Some? ==> Timestamp.Valid(at.value)
  {
    if at.Some? then Some(BackupName(path, at.value)) else None
  }

  function ProbeScripts(files: map<string, string>, faults: Faults, path: string): seq<string> {
    if Seen(files, faults, path) then [ExistsScript(path), ReadScript(path)] else [ExistsScript(path)]
  }

  /** `ensure_line_present` against the files `files`. */
  function PresentEffect(files: map<string, string>, faults: Faults, path: string, line: string,
                         regexp: Option<string>, matches: Matcher, create: bool, backup: bool,
                         checkMode: bool, now: Timestamp.DateTime): Effect
    requires Timestamp.Valid(now)
  {
    var o := PlanPresent(files, faults, path, line, regexp, matches, create);
    var content := ReadContent(files, faults, path);
    Apply(files, faults, path, o, PresentContent(o, content, line, regexp, matches),
          BackupTarget(path, if backup && o.BacksUp() then Some(now) else None),
          checkMode, ProbeScripts(files, faults, path))
  }

  /** `ensure_line_absent` against the files `files`; it is never given a backup. */
  function AbsentEffect(files: map<string, string>, faults: Faults, path: string, line: Option<string>,
                        regexp: Option<string>, matches: Matcher, checkMode: bool): Effect
  {
    var o := PlanAbsent(files, faults, path, line, regexp, matches);
    var content := ReadContent(files, faults, path);
    Apply(files, faults, path, o, Join(Kept(SplitLines(content), line, regexp, matches)), None,
          checkMode, ProbeScripts(files, faults, path))
  }

  /** `PresentEffect` on a file the probe finds, once its outcome is known. */
  lemma PresentEffectExisting(files: map<string, string>, faults: Faults, path: string, line: string,
                              regexp: Option<string>, matches: Matcher, create: bool, backup: bool,
                              checkMode: bool, now: Timestamp.DateTime)
    requires Timestamp.Valid(now) && Seen(files, faults, path)
    ensures var content := ReadContent(files, faults, path);
      var o := PresentDecision(content, line, regexp, matches);
      PresentEffect(files, faults, path, line, regexp, matches, create, backup, checkMode, now)
      == if o.Changes() then
           Apply(files, faults, path, o, PresentContent(o, content, line, regexp, matches),
                 BackupTarget(path, if backup then Some(now) else None), checkMode,
                 [ExistsScript(path), ReadScript(path)])
         else
           Effect(files, [ExistsScript(path), ReadScript(path)], EditResult(false, "Line already present", None))
  {
  }

  /** `PresentEffect` on a file the probe reports missing. */
  lemma PresentEffectMissing(files: map<string, string>, faults: Faults, path: string, line: string,
                             regexp: Option<string>, matches: Matcher, create: bool, backup: bool,
                             checkMode: bool, now: Timestamp.DateTime)
    requires Timestamp.Valid(now) && !Seen(files, faults, path)
    ensures PresentEffect(files, faults, path, line, regexp, matches, create, backup, checkMode, now)
      == if create then
           Apply(files, faults, path, Created, line + "\n", BackupTarget(path, None), checkMode, [ExistsScript(path)])
         else
           Effect(files, [ExistsScript(path)], EditResult(false, "File " + path + " does not exist and create=false", None))
  {
  }

  /** `AbsentEffect` on a file the probe reports missing. */
  lemma AbsentEffectMissing(files: map<string, string>, faults: Faults, path: string, line: Option<string>,
                            regexp: Option<string>, matches: Matcher, checkMode: bool)
    requires !Seen(files, faults, path)
    ensures AbsentEffect(files, faults, path, line, regexp, matches, checkMode)
      == Effect(files, [ExistsScript(path)], EditResult(false, "File " + path + " does not exist", None))
  {
  }

  /** `AbsentEffect` on a file the probe finds, once its outcome is known. */
  lemma AbsentEffectExisting(files: map<string, string>, faults: Faults, path: string, line: Option<string>,
                             regexp: Option<string>, matches: Matcher, checkMode: bool)
    requires Seen(files, faults, path)
    ensures var content := ReadContent(files, faults, path);
      var o := AbsentDecision(content, line, regexp, matches);
      AbsentEffect(files, faults, path, line, regexp, matches, checkMode)
      == if o.Changes() then
           Apply(files, faults, path, o, Join(Kept(SplitLines(content), line, regexp, matches)),
                 BackupTarget(path, None), checkMode, [ExistsScript(path), ReadScript(path)])
         else
           Effect(files, [ExistsScript(path), ReadScript(path)], EditResult(false, "Line already absent", None))
  {
  }

  /**
   * The tail both edits share once they know the outcome: in check mode
   * only the report; otherwise the backup when one is wanted, then the write.
   * `before + probe` are the scripts run up to this point.
   */
  method Commit(c: Container, path: string, o: Outcome, content: string,
                backupAt: Option<Timestamp.DateTime>, checkMode: bool,
                ghost before: seq<string>, ghost probe: seq<string>)
    returns (result: EditResult)
    requires o.Changes()
    requires backupAt.Some? ==> Timestamp.Valid(backupAt.value)
    requires c.issued == before + probe
    modifies c`files, c`issued
    ensures var e := Apply(old(c.files), c.faults, path, o, content,
                           BackupTarget(path, backupAt),
                           checkMode, probe);
      c.files == e.files && c.issued == before + e.scripts && result == e.result
  {
    ghost var copied: seq<string> := [];
    result := EditResult(false, "", None);
    if !checkMode {
      if backupAt.Some? {
        var backupFile := c.CreateBackup(path, backupAt.value);
        copied := [CopyScript(path, BackupName(path, backupAt.value))];
        if backupFile.Some? {
          result := result.(backupFile := backupFile);
        }
      }
      var ok := c.WriteFile(path, content);
      assert c.issued == before + (probe + copied + [WriteScript(path, content)]);
      if !ok {
        result := result.(msg := FailureMessage(o, path));
        return;
      }
    }
    result := result.(changed := true, msg := Message(o, path));
  }

  /**
   * The part of `ensure_line_present` that looks at an existing file's
   * content: whether the line is there, and the content to write if not.
   */
  method DecidePresent(content: string, line: string, regexp: Option<string>, matches: Matcher)
    returns (o: Outcome, newContent: string)
    ensures o == PresentDecision(content, line, regexp, matches)
    ensures o.Changes() ==> newContent == PresentContent(o, content, line, regexp, matches)
  {
    var lines := SplitLines(content);
    var present := LinePresent(lines, Some(line), regexp, matches);
    if present.0 {
      if HasPattern(regexp) && present.1 != Some(line) {
        var newLines := RewriteMatching(lines, line, regexp.value, matches);
        assert newLines == Rewrite(lines, line, PatternOf(regexp), matches);
        return Replaced, Join(newLines);
      }
      return AlreadyPresent, content;
    }
    newContent := content;
    if !(content != "" && content[|content| - 1] == '\n') && content != "" {
      newContent := newContent + "\n";
    }
    newContent := newContent + line + "\n";
    o := Appended;
  }

  /**
   * Whether `line_present` raises: it compiles a given pattern only once
   * the file was found and read, and `re.compile` rejects the pattern.
   */
  predicate Raises(files: map<string, string>, faults: Faults, path: string, regexp: Option<string>,
                   compiles: bool)
  {
    Seen(files, faults, path) && HasPattern(regexp) && !compiles
  }

  /**
   * `ensure_line_present`; `compiles` says whether `re.compile` accepts the
   * pattern. When `line_present` raises, the method returns `raised` and
   * the container has seen only the probe and the read.
   */
  method EnsureLinePresent(c: Container, path: string, line: string, regexp: Option<string>,
                           matches: Matcher, compiles: bool, create: bool, backup: bool, checkMode: bool,
                           now: Timestamp.DateTime)
    returns (result: EditResult, raised: bool)
    requires Timestamp.Valid(now)
    modifies c
    ensures raised == Raises(old(c.files), c.faults, path, regexp, compiles)
    ensures raised ==> c.files == old(c.files) && c.issued == old(c.issued) + ProbeScripts(old(c.files), c.faults, path)
    ensures !raised ==>
      var e := PresentEffect(old(c.files), c.faults, path, line, regexp, matches, create, backup, checkMode, now);
      c.files == e.files && c.issued == old(c.issued) + e.scripts && result == e.result
  {
    result, raised := EditResult(false, "", None), false;
    var found := c.FileExists(path);
    if !found {
      PresentEffectMissing(old(c.files), c.faults, path, line, regexp, matches, create, backup, checkMode, now);
      if !create {
        return EditResult(false, "File " + path + " does not exist and create=false", None), false;
      }
      result := Commit(c, path, Created, line + "\n", None, checkMode, old(c.issued), [ExistsScript(path)]);
      return;
    }

    var content := c.ReadFile(path);
    if HasPattern(regexp) && !compiles {
      return result, true;
    }
    PresentEffectExisting(old(c.files), c.faults, path, line, regexp, matches, create, backup, checkMode, now);
    var o, newContent := DecidePresent(content, line, regexp, matches);
    if o == AlreadyPresent {
      return EditResult(false, "Line already present", None), false;
    }
    result := Commit(c, path, o, newContent, if backup then Some(now) else None, checkMode,
                     old(c.issued), [ExistsScript(path), ReadScript(path)]);
  }

  /**
   * The part of `ensure_line_absent` that looks at an existing file's
   * content: whether the line is there, and the content to write if so.
   */
  method DecideAbsent(content: string, line: Option<string>, regexp: Option<string>, matches: Matcher)
    returns (o: Outcome, newContent: string)
    ensures o == AbsentDecision(content, line, regexp, matches)
    ensures o.Removed? ==> newContent == Join(Kept(SplitLines(content), line, regexp, matches))
  {
    var lines := SplitLines(content);
    var present := LinePresent(lines, line, regexp, matches);
    if !present.0 {
      return AlreadyAbsent, content;
    }
    var newLines := DropSelected(lines, line, regexp, matches);
    return Removed, Join(newLines);
  }

  /** `ensure_line_absent`, with `compiles` and `raised` as for `EnsureLinePresent`. */
  method EnsureLineAbsent(c: Container, path: string, line: Option<string>, regexp: Option<string>,
                          matches: Matcher, compiles: bool, checkMode: bool)
    returns (result: EditResult, raised: bool)
    modifies c
    ensures raised == Raises(old(c.files), c.faults, path, regexp, compiles)
    ensures raised ==> c.files == old(c.files) && c.issued == old(c.issued) + ProbeScripts(old(c.files), c.faults, path)
    ensures !raised ==>
      var e := AbsentEffect(old(c.files), c.faults, path, line, regexp, matches, checkMode);
      c.files == e.files && c.issued == old(c.issued) + e.scripts && result == e.result
  {
    result, raised := EditResult(false, "", None), false;
    var found := c.FileExists(path);
    if !found {
      AbsentEffectMissing(old(c.files), c.faults, path, line, regexp, matches, checkMode);
      return EditResult(false, "File " + path + " does not exist", None), false;
    }

    var content := c.ReadFile(path);
    if HasPattern(regexp) && !compiles {
      return result, true;
    }
    AbsentEffectExisting(old(c.files), c.faults, path, line, regexp, matches, checkMode);
    var o, newContent := DecideAbsent(content, line, regexp, matches);
    if o == AlreadyAbsent {
      return EditResult(false, "Line already absent", None), false;
    }
    result := Commit(c, path, Removed, newContent, None, checkMode, old(c.issued), [ExistsScript(path), ReadScript(path)]);
  }

  /** The module's parameters, less the container, which is the `Container` object. */
  datatype Request = Request(path: string, line: Option<string>, regexp: Option<string>, state: State,
                             create: bool, backup: bool)

  /** How `run_module` ends: `fail_json`, `exit_json`, or an exception nothing catches. */
  datatype ModuleResult = Failed(msg: string) | Exited(result: EditResult) | Crashed

  /** The keys of `run_module`'s `result` until an edit returns. */
  const InitialKeys: set<string> := {"changed", "msg"}

  /**
   * `module.fail_json(msg=text, **fields)`: when `fields` also holds `msg`
   * the keyword is given twice, and Python raises TypeError before the call.
   */
  function FailJson(text: string, fields: set<string>): (r: ModuleResult)
    ensures r.Crashed? <==> "msg" in fields
    ensures !r.Crashed? ==> r == Failed(text)
  {
    if "msg" in fields then Crashed else Failed(text)
  }

  /** The `except Exception` handler of `run_module` as written: it unpacks the initial `result`. */
  function ErrorHandlerAsWritten(error: string): ModuleResult {
    FailJson("Error: " + error, InitialKeys)
  }

  /** As written, the handler raises in turn, so the module ends in a traceback, not in its report. */
  lemma ErrorHandlerCrashes(error: string)
    ensures ErrorHandlerAsWritten(error) == Crashed
  {
  }

  /** The handler as intended: a failure whose message is "Error: " and the exception's text. */
  function ErrorHandler(error: string): (r: ModuleResult)
    ensures r == Failed("Error: " + error)
  {
    FailJson("Error: " + error, InitialKeys - {"msg"})
  }

  /**
   * `run_module`: validate, then dispatch on `state`; `backup` only reaches
   * the present edit. A pattern `re.compile` rejects (`compiles` false,
   * with message `compileError`) raises once the file was found and read,
   * and the handler reports it.
   */
  method RunModule(c: Container, r: Request, matches: Matcher, compiles: bool, compileError: string,
                   checkMode: bool, now: Timestamp.DateTime)
    returns (outcome: ModuleResult)
    requires Timestamp.Valid(now)
    modifies c
    ensures r.state == Present && (r.line.None? || r.line.value == "") ==>
      outcome == Failed("line is required when state=present")
      && c.files == old(c.files) && c.issued == old(c.issued)
    ensures r.state == Absent || (r.line.Some? && r.line.value != "") ==>
      Raises(old(c.files), c.faults, r.path, r.regexp, compiles) ==>
      outcome == ErrorHandler(compileError)
      && c.files == old(c.files) && c.issued == old(c.issued) + ProbeScripts(old(c.files), c.faults, r.path)
    ensures r.state == Present && r.line.Some? && r.line.value != "" ==>
      !Raises(old(c.files), c.faults, r.path, r.regexp, compiles) ==>
      var e := PresentEffect(old(c.files), c.faults, r.path, r.line.value, r.regexp, matches,
                             r.create, r.backup, checkMode, now);
      outcome == Exited(e.result) && c.files == e.files && c.issued == old(c.issued) + e.scripts
    ensures r.state == Absent ==>
      !Raises(old(c.files), c.faults, r.path, r.regexp, compiles) ==>
      var e := AbsentEffect(old(c.files), c.faults, r.path, r.line, r.regexp, matches, checkMode);
      outcome == Exited(e.result) && c.files == e.files && c.issued == old(c.issued) + e.scripts
  {
    if r.state == Present && (r.line.None? || r.line.value == "") {
      return Failed("line is required when state=present");
    }
    var result, raised;
    if r.state == Present {
      result, raised := EnsureLinePresent(c, r.path, r.line.value, r.regexp, matches, compiles,
                                          r.create, r.backup, checkMode, now);
    } else {
      result, raised := EnsureLineAbsent(c, r.path, r.line, r.regexp, matches, compiles, checkMode);
    }
    if raised {
      return ErrorHandler(compileError);
    }
    return Exited(result);
  }

  // ---------------------------------------------------------------------
  // Properties

  /**
   * A file the probe reports missing is left alone unless `create`; with it
   * the file is exactly the line.
   */
  lemma PresentMissingFile(files: map<string, string>, faults: Faults, path: string, line: string,
                           regexp: Option<string>, matches: Matcher, create: bool, backup: bool,
                           now: Timestamp.DateTime)
    requires Timestamp.Valid(now) && !Seen(files, faults, path)
    ensures var e := PresentEffect(files, faults, path, line, regexp, matches, create, backup, false, now);
      !create ==>
        e == Effect(files, [ExistsScript(path)],
                    EditResult(false, "File " + path + " does not exist and create=false", None))
    ensures var e := PresentEffect(files, faults, path, line, regexp, matches, create, backup, false, now);
      create ==>
        && e.scripts == [ExistsScript(path), WriteScript(path, line + "\n")]
        && e.result.backupFile.None?
        && (path !in faults.denied ==> e.files == files[path := line + "\n"] && e.result.changed)
        && (path in faults.denied ==> e.files == files && !e.result.changed)
  {
    PresentEffectMissing(files, faults, path, line, regexp, matches, create, backup, false, now);
  }

  /** A matching line with no match before it is the one `FirstMatch` finds. */
  lemma FirstMatchIsFirst(lines: seq<string>, pattern: string, matches: Matcher, i: nat)
    requires i < |lines| && matches(pattern, StripNewlines(lines[i]))
    requires forall j | 0 <= j < i :: !matches(pattern, StripNewlines(lines[j]))
    ensures FirstMatch(lines, pattern, matches) == Some(i)
  {
    var r := FirstMatch(lines, pattern, matches);
    if r.Some? {
      assert !(r.value < i);
    }
  }

  /** `PresentDecision` leaves the file alone exactly when the line is present and, with a pattern, is the first match. */
  predicate LeftAlone(lines: seq<string>, line: string, regexp: Option<string>, matches: Matcher) {
    var found := LinePresent(lines, Some(line), regexp, matches);
    found.0 && !(HasPattern(regexp) && found.1 != Some(line))
  }

  lemma {:induction false} LeftAloneIff(lines: seq<string>, line: string, regexp: Option<string>, matches: Matcher)
    ensures HasPattern(regexp) ==>
      (LeftAlone(lines, line, regexp, matches) <==>
        exists i | 0 <= i < |lines| ::
          && matches(regexp.value, StripNewlines(lines[i]))
          && (forall j | 0 <= j < i :: !matches(regexp.value, StripNewlines(lines[j])))
          && StripNewlines(lines[i]) == line)
    ensures !HasPattern(regexp) ==>
      (LeftAlone(lines, line, regexp, matches) <==> exists i | 0 <= i < |lines| :: StripNewlines(lines[i]) == line)
  {
    var present := LinePresent(lines, Some(line), regexp, matches);
    if HasPattern(regexp) {
      var found := FirstMatch(lines, regexp.value, matches);
      if found.Some? {
        assert present == (true, Some(StripNewlines(lines[found.value])));
      } else {
        assert !present.0;
      }
      if LeftAlone(lines, line, regexp, matches) {
        var i := found.value;
        assert StripNewlines(lines[i]) == line;
        assert matches(regexp.value, StripNewlines(lines[i]));
        assert forall j | 0 <= j < i :: !matches(regexp.value, StripNewlines(lines[j]));
      }
      if exists i | 0 <= i < |lines| ::
            && matches(regexp.value, StripNewlines(lines[i]))
            && (forall j | 0 <= j < i :: !matches(regexp.value, StripNewlines(lines[j])))
            && StripNewlines(lines[i]) == line
      {
        var i :| 0 <= i < |lines|
            && matches(regexp.value, StripNewlines(lines[i]))
            && (forall j | 0 <= j < i :: !matches(regexp.value, StripNewlines(lines[j])))
            && StripNewlines(lines[i]) == line;
        FirstMatchIsFirst(lines, regexp.value, matches, i);
      }
    } else {
      LinePresentMeaning(lines, Some(line), regexp, matches);
    }
  }

  /**
   * An existing file is left alone exactly when, without a pattern, some
   * line's text is the line, or, with one, the first matching line's text
   * is the line (later matches are not looked at).
   */
  lemma AlreadyPresentIff(content: string, lines: seq<string>, line: string, regexp: Option<string>, matches: Matcher)
    requires lines == SplitLines(content)
    ensures HasPattern(regexp) ==>
      (PresentDecision(content, line, regexp, matches) == AlreadyPresent <==>
        exists i | 0 <= i < |lines| ::
          && matches(regexp.value, StripNewlines(lines[i]))
          && (forall j | 0 <= j < i :: !matches(regexp.value, StripNewlines(lines[j])))
          && StripNewlines(lines[i]) == line)
    ensures !HasPattern(regexp) ==>
      (PresentDecision(content, line, regexp, matches) == AlreadyPresent <==>
        exists i | 0 <= i < |lines| :: StripNewlines(lines[i]) == line)
  {
    assert PresentDecision(content, line, regexp, matches) == AlreadyPresent <==> LeftAlone(lines, line, regexp, matches);
    LeftAloneIff(lines, line, regexp, matches);
  }

  /** The first matching line of the text, when it is the line itself: nothing is replaced. */
  lemma FirstMatchIsLine(lines: seq<string>, line: string, pattern: string, matches: Matcher, i: nat)
    requires i < |lines| && StripNewlines(lines[i]) == line && matches(pattern, line)
    requires forall j | 0 <= j < i :: !matches(pattern, StripNewlines(lines[j]))
    ensures pattern != "" && SplitLines(Join(lines)) == lines ==>
      PresentDecision(Join(lines), line, Some(pattern), matches) == AlreadyPresent
  {
    if pattern != "" && SplitLines(Join(lines)) == lines {
      FirstMatchIsFirst(lines, pattern, matches, i);
    }
  }

  /** After a replace, the first matching line is the new line itself. */
  lemma ReplacedSettles(content: string, line: string, pattern: string, matches: Matcher)
    requires '\n' !in line && pattern != "" && matches(pattern, line)
    requires FirstMatch(SplitLines(content), pattern, matches).Some?
    ensures PresentDecision(Join(Rewrite(SplitLines(content), line, pattern, matches)), line, Some(pattern), matches)
         == AlreadyPresent
  {
    var lines := SplitLines(content);
    var i := FirstMatch(lines, pattern, matches).value;
    var rewritten := Rewrite(lines, line, pattern, matches);
    RewrittenLines(content, line, pattern, matches);
    NoNewlineText(line);
    assert StripNewlines(rewritten[i]) == line;
    forall j | 0 <= j < i ensures !matches(pattern, StripNewlines(rewritten[j])) {
      assert rewritten[j] == lines[j];
    }
    FirstMatchIsLine(rewritten, line, pattern, matches, i);
  }

  /** After an append, the appended line is found: without a pattern as text, with one as the first match. */
  lemma AppendedSettles(content: string, line: string, regexp: Option<string>, matches: Matcher)
    requires '\n' !in line
    requires HasPattern(regexp) ==> matches(regexp.value, line)
    requires PresentDecision(content, line, regexp, matches) == Appended
    ensures PresentDecision(AppendLine(content, line), line, regexp, matches) == AlreadyPresent
  {
    var lines := SplitLines(content);
    var after := SplitLines(AppendLine(content, line));
    AppendedTexts(content, line);
    LinePresentMeaning(lines, Some(line), regexp, matches);
    var i := |lines|;
    assert Texts(after)[i] == line;
    assert StripNewlines(after[i]) == line;
    forall j | 0 <= j < i ensures StripNewlines(after[j]) == StripNewlines(lines[j]) {
      assert Texts(after)[j] == Texts(lines)[j];
    }
    AlreadyPresentIff(AppendLine(content, line), after, line, regexp, matches);
  }

  /** The content a replace or an append writes holds the line as the edit looks for it. */
  lemma ContentSettles(content: string, line: string, regexp: Option<string>, matches: Matcher)
    requires '\n' !in line
    requires HasPattern(regexp) ==> matches(regexp.value, line)
    requires PresentDecision(content, line, regexp, matches).Changes()
    ensures var o := PresentDecision(content, line, regexp, matches);
      PresentDecision(PresentContent(o, content, line, regexp, matches), line, regexp, matches) == AlreadyPresent
  {
    var o := PresentDecision(content, line, regexp, matches);
    if o == Replaced {
      LinePresentMeaning(SplitLines(content), Some(line), regexp, matches);
      ReplacedSettles(content, line, regexp.value, matches);
    } else {
      AppendedSettles(content, line, regexp, matches);
    }
  }

  /** A created file holds the line as the edit looks for it. */
  lemma CreatedSettles(line: string, regexp: Option<string>, matches: Matcher)
    requires '\n' !in line
    requires HasPattern(regexp) ==> matches(regexp.value, line)
    ensures PresentDecision(line + "\n", line, regexp, matches) == AlreadyPresent
  {
    assert SplitLines("") == [];
    assert PresentDecision("", line, regexp, matches) == Appended;
    AppendedSettles("", line, regexp, matches);
    assert AppendLine("", line) == line + "\n";
  }

  /**
   * After a present edit whose write went through, the file holds the line
   * as the edit looks for it, unless the probe missed a file that `create`
   * then did not replace.
   */
  lemma PresentSettles(files: map<string, string>, faults: Faults, path: string, line: string,
                       regexp: Option<string>, matches: Matcher, create: bool, backup: bool,
                       now: Timestamp.DateTime)
    requires Timestamp.Valid(now)
    requires path !in faults.denied && '\n' !in line
    requires HasPattern(regexp) ==> matches(regexp.value, line)
    requires Seen(files, faults, path) || create
    requires path in PresentEffect(files, faults, path, line, regexp, matches, create, backup, false, now).files
    ensures var e := PresentEffect(files, faults, path, line, regexp, matches, create, backup, false, now);
      PresentDecision(e.files[path], line, regexp, matches) == AlreadyPresent
  {
    if !Seen(files, faults, path) {
      CreatedSettles(line, regexp, matches);
    } else {
      var content := ReadContent(files, faults, path);
      PresentEffectExisting(files, faults, path, line, regexp, matches, create, backup, false, now);
      if PresentDecision(content, line, regexp, matches).Changes() {
        BackupNameShape(path, now, now);
        ContentSettles(content, line, regexp, matches);
      }
    }
  }

  /**
   * Running the present edit a second time changes nothing, provided the
   * write went through, the probe and the read go through, the line is a
   * single line, and a given pattern matches the line itself.
   */
  lemma PresentIdempotent(files: map<string, string>, faults: Faults, path: string, line: string,
                          regexp: Option<string>, matches: Matcher, create: bool, backup: bool,
                          now1: Timestamp.DateTime, now2: Timestamp.DateTime)
    requires Timestamp.Valid(now1) && Timestamp.Valid(now2)
    requires path !in faults.denied && path !in faults.blind && path !in faults.unreadable && '\n' !in line
    requires HasPattern(regexp) ==> matches(regexp.value, line)
    ensures var e1 := PresentEffect(files, faults, path, line, regexp, matches, create, backup, false, now1);
      var e2 := PresentEffect(e1.files, faults, path, line, regexp, matches, create, backup, false, now2);
      !e2.result.changed && e2.files == e1.files
  {
    var e1 := PresentEffect(files, faults, path, line, regexp, matches, create, backup, false, now1);
    if path in e1.files {
      PresentSettles(files, faults, path, line, regexp, matches, create, backup, now1);
      PresentEffectExisting(e1.files, faults, path, line, regexp, matches, create, backup, false, now2);
    } else {
      assert !create;
    }
  }

  /**
   * A file the probe finds but whose read fails is taken as empty: the
   * present edit appends the line to "" and so replaces the whole file with
   * the line alone, and it does so again on every later run. Only a
   * requested backup keeps the old content.
   */
  lemma UnreadableOverwritten(files: map<string, string>, faults: Faults, path: string, line: string,
                              regexp: Option<string>, matches: Matcher, create: bool, backup: bool,
                              now1: Timestamp.DateTime, now2: Timestamp.DateTime)
    requires Timestamp.Valid(now1) && Timestamp.Valid(now2)
    requires Seen(files, faults, path) && path in faults.unreadable && path !in faults.denied
    ensures var e1 := PresentEffect(files, faults, path, line, regexp, matches, create, backup, false, now1);
      var e2 := PresentEffect(e1.files, faults, path, line, regexp, matches, create, backup, false, now2);
      && path in e1.files && e1.files[path] == line + "\n"
      && e1.result.changed && e1.result.msg == "Line added to file"
      && (backup && BackupName(path, now1) !in faults.denied ==>
            BackupName(path, now1) in e1.files && e1.files[BackupName(path, now1)] == files[path])
      && e2.result == EditResult(true, "Line added to file", e2.result.backupFile)
      && path in e2.files && e2.files[path] == line + "\n"
  {
    UnreadableOverwrittenOnce(files, faults, path, line, regexp, matches, create, backup, now1);
    var e1 := PresentEffect(files, faults, path, line, regexp, matches, create, backup, false, now1);
    UnreadableOverwrittenOnce(e1.files, faults, path, line, regexp, matches, create, backup, now2);
  }

  /** One present run on a found but unreadable file: the optional backup, then the line alone. */
  lemma UnreadableOverwrittenOnce(files: map<string, string>, faults: Faults, path: string, line: string,
                                  regexp: Option<string>, matches: Matcher, create: bool, backup: bool,
                                  now: Timestamp.DateTime)
    requires Timestamp.Valid(now)
    requires Seen(files, faults, path) && path in faults.unreadable && path !in faults.denied
    ensures var e := PresentEffect(files, faults, path, line, regexp, matches, create, backup, false, now);
      var name := BackupName(path, now);
      var copied := backup && name !in faults.denied;
      && e.files == (if copied then files[name := files[path]] else files)[path := line + "\n"]
      && e.result == EditResult(true, "Line added to file", if copied then Some(name) else None)
  {
    assert ReadContent(files, faults, path) == "";
    assert SplitLines("") == [];
    assert PresentDecision("", line, regexp, matches) == Appended;
    assert PresentContent(Appended, "", line, regexp, matches) == line + "\n";
    PresentEffectExisting(files, faults, path, line, regexp, matches, create, backup, false, now);
  }

  /**
   * A file whose probe fails is taken as missing: with `create` the present
   * edit replaces it with the line alone, and it does so on every run.
   */
  lemma BlindOverwritten(files: map<string, string>, faults: Faults, path: string, line: string,
                         regexp: Option<string>, matches: Matcher, backup: bool, now: Timestamp.DateTime)
    requires Timestamp.Valid(now)
    requires path in files && path in faults.blind && path !in faults.denied
    ensures var e := PresentEffect(files, faults, path, line, regexp, matches, true, backup, false, now);
      && e.files == files[path := line + "\n"]
      && e.result == EditResult(true, "File created with line", None)
      && PresentEffect(e.files, faults, path, line, regexp, matches, true, backup, false, now).result == e.result
  {
    PresentEffectMissing(files, faults, path, line, regexp, matches, true, backup, false, now);
    var e := PresentEffect(files, faults, path, line, regexp, matches, true, backup, false, now);
    PresentEffectMissing(e.files, faults, path, line, regexp, matches, true, backup, false, now);
  }

  /**
   * Without the pattern matching the line, the idempotence above fails:
   * a file with no matching line gets the line appended again on every run.
   */
  lemma AppendRepeatsWhenPatternMissesLine(content: string, line: string, pattern: string, matches: Matcher)
    requires '\n' !in line && pattern != "" && !matches(pattern, line)
    requires PresentDecision(content, line, Some(pattern), matches) == Appended
    ensures PresentDecision(AppendLine(content, line), line, Some(pattern), matches) == Appended
  {
    var lines := SplitLines(content);
    var after := SplitLines(AppendLine(content, line));
    AppendedTexts(content, line);
    LinePresentMeaning(lines, Some(line), Some(pattern), matches);
    LinePresentMeaning(after, Some(line), Some(pattern), matches);
    forall j | 0 <= j < |after| ensures !matches(pattern, StripNewlines(after[j])) {
      assert Texts(after)[j] == StripNewlines(after[j]);
      if j < |lines| {
        assert Texts(lines)[j] == StripNewlines(lines[j]);
      }
    }
  }

  /** The compared text of a split line never holds "\n". */
  lemma TextHasNoNewline(l: string)
    requires IsLine(l)
    ensures '\n' !in StripNewlines(l)
  {
    var r := StripNewlines(l);
    forall i | 0 <= i < |r| ensures r[i] != '\n' {
      assert r[i] == l[i];
      if |r| == |l| {
        assert r[|r| - 1] != '\n';
      }
    }
  }

  /**
   * `line_present` compares one line at a time, so a `line` holding "\n"
   * is never found as it is: the present edit replaces or appends it on
   * every run, whatever the content.
   */
  lemma MultiLineNeverPresent(content: string, line: string, regexp: Option<string>, matches: Matcher)
    requires '\n' in line
    ensures PresentDecision(content, line, regexp, matches) != AlreadyPresent
  {
    var lines := SplitLines(content);
    SplitWellFormed(content);
    AlreadyPresentIff(content, lines, line, regexp, matches);
    forall i | 0 <= i < |lines| ensures StripNewlines(lines[i]) != line {
      TextHasNoNewline(lines[i]);
    }
  }

  /**
   * So on a file the probe and the read reach, with the write allowed, a
   * multi-line `line` is reported as a change on every run.
   */
  lemma MultiLineAlwaysChanges(files: map<string, string>, faults: Faults, path: string, line: string,
                               regexp: Option<string>, matches: Matcher, create: bool, backup: bool,
                               now: Timestamp.DateTime)
    requires Timestamp.Valid(now) && Seen(files, faults, path) && path !in faults.denied && '\n' in line
    ensures PresentEffect(files, faults, path, line, regexp, matches, create, backup, false, now).result.changed
  {
    MultiLineNeverPresent(ReadContent(files, faults, path), line, regexp, matches);
    PresentEffectExisting(files, faults, path, line, regexp, matches, create, backup, false, now);
  }

  /** The absent filter splits over concatenation: it keeps the order of the lines it keeps. */
  lemma {:induction false} KeptConcat(a: seq<string>, b: seq<string>, line: Option<string>,
                                      regexp: Option<string>, matches: Matcher)
    ensures Kept(a + b, line, regexp, matches) == Kept(a, line, regexp, matches) + Kept(b, line, regexp, matches)
  {
    if b == [] {
      assert a + b == a;
    } else {
      var init := b[..|b| - 1];
      var last := b[|b| - 1];
      assert (a + b)[..|a + b| - 1] == a + init;
      assert (a + b)[|a + b| - 1] == last;
      KeptConcat(a, init, line, regexp, matches);
    }
  }

  lemma KeptSingle(x: string, line: Option<string>, regexp: Option<string>, matches: Matcher)
    ensures Kept([x], line, regexp, matches) == if Selected(x, line, regexp, matches) then [] else [x]
  {
    assert [x][..0] == [];
  }

  /**
   * Running the absent edit a second time never reports a change and
   * never alters the files, whether or not the first write went through.
   */
  lemma AbsentIdempotent(files: map<string, string>, faults: Faults, path: string, line: Option<string>,
                         regexp: Option<string>, matches: Matcher)
    ensures var e1 := AbsentEffect(files, faults, path, line, regexp, matches, false);
      var e2 := AbsentEffect(e1.files, faults, path, line, regexp, matches, false);
      !e2.result.changed && e2.files == e1.files
  {
    var e1 := AbsentEffect(files, faults, path, line, regexp, matches, false);
    if Seen(files, faults, path) && PlanAbsent(files, faults, path, line, regexp, matches) == Removed
       && path !in faults.denied {
      RemovedLines(ReadContent(files, faults, path), line, regexp, matches);
    }
  }

  /**
   * The absent edit never writes a file whose probe or read fails: it
   * reports the file missing, or the line absent whatever the file holds.
   */
  lemma AbsentOnFaults(files: map<string, string>, faults: Faults, path: string, line: Option<string>,
                       regexp: Option<string>, matches: Matcher, checkMode: bool)
    requires path in files && (path in faults.blind || path in faults.unreadable)
    ensures var e := AbsentEffect(files, faults, path, line, regexp, matches, checkMode);
      && e.files == files && !e.result.changed
      && e.result.msg == if path in faults.blind then "File " + path + " does not exist" else "Line already absent"
  {
    if path in faults.blind {
      AbsentEffectMissing(files, faults, path, line, regexp, matches, checkMode);
    } else {
      assert SplitLines("") == [];
      AbsentEffectExisting(files, faults, path, line, regexp, matches, checkMode);
    }
  }

  /** The absent edit takes no backup and creates no file: at most it rewrites `path`. */
  lemma AbsentNeverBacksUp(files: map<string, string>, faults: Faults, path: string, line: Option<string>,
                           regexp: Option<string>, matches: Matcher, checkMode: bool)
    ensures var e := AbsentEffect(files, faults, path, line, regexp, matches, checkMode);
      && e.result.backupFile.None?
      && e.files.Keys == files.Keys
      && (forall p | p in files && p != path :: e.files[p] == files[p])
      && (|| e.scripts == ProbeScripts(files, faults, path)
          || (Seen(files, faults, path) &&
              e.scripts == ProbeScripts(files, faults, path)
                           + [WriteScript(path, Join(Kept(SplitLines(ReadContent(files, faults, path)), line, regexp, matches)))]))
  {
    if Seen(files, faults, path) {
      AbsentEffectExisting(files, faults, path, line, regexp, matches, checkMode);
    } else {
      AbsentEffectMissing(files, faults, path, line, regexp, matches, checkMode);
    }
  }

  /**
   * A requested backup on a replace or append copies the old content to
   * the timestamped name before the write, and is reported only when the
   * copy went through. The copy is of the file itself, not of what the
   * read returned.
   */
  lemma BackupBeforeWrite(files: map<string, string>, faults: Faults, path: string, line: string,
                          regexp: Option<string>, matches: Matcher, create: bool, now: Timestamp.DateTime)
    requires Timestamp.Valid(now) && Seen(files, faults, path)
    requires PresentDecision(ReadContent(files, faults, path), line, regexp, matches).BacksUp()
    ensures var e := PresentEffect(files, faults, path, line, regexp, matches, create, true, false, now);
      var content := ReadContent(files, faults, path);
      var o := PresentDecision(content, line, regexp, matches);
      var name := BackupName(path, now);
      && e.scripts == [ExistsScript(path), ReadScript(path), CopyScript(path, name),
                       WriteScript(path, PresentContent(o, content, line, regexp, matches))]
      && (name !in faults.denied ==> name in e.files && e.files[name] == files[path] && e.result.backupFile == Some(name))
      && (name in faults.denied ==> e.result.backupFile.None?)
  {
    BackupNameShape(path, now, now);
    PresentEffectExisting(files, faults, path, line, regexp, matches, create, true, false, now);
  }

  /** A backup is reported only when one was asked for, outside check mode, on a replace or append. */
  lemma BackupOnlyWhenEditing(files: map<string, string>, faults: Faults, path: string, line: string,
                              regexp: Option<string>, matches: Matcher, create: bool, backup: bool,
                              checkMode: bool, now: Timestamp.DateTime)
    requires Timestamp.Valid(now)
    ensures var e := PresentEffect(files, faults, path, line, regexp, matches, create, backup, checkMode, now);
      e.result.backupFile.Some? ==>
        && backup && !checkMode
        && PlanPresent(files, faults, path, line, regexp, matches, create).BacksUp()
        && e.result.backupFile == Some(BackupName(path, now))
  {
    if Seen(files, faults, path) {
      PresentEffectExisting(files, faults, path, line, regexp, matches, create, backup, checkMode, now);
    } else {
      PresentEffectMissing(files, faults, path, line, regexp, matches, create, backup, checkMode, now);
    }
  }

  /**
   * In check mode the present edit writes nothing and takes no backup, yet
   * its report is the one a successful real run gives.
   */
  lemma CheckModePresent(files: map<string, string>, faults: Faults, path: string, line: string,
                         regexp: Option<string>, matches: Matcher, create: bool, backup: bool,
                         now: Timestamp.DateTime)
    requires Timestamp.Valid(now)
    ensures var c := PresentEffect(files, faults, path, line, regexp, matches, create, backup, true, now);
      var r := PresentEffect(files, faults, path, line, regexp, matches, create, backup, false, now);
      && c.files == files && c.scripts == ProbeScripts(files, faults, path) && c.result.backupFile.None?
      && (path !in faults.denied ==> c.result.changed == r.result.changed && c.result.msg == r.result.msg)
  {
    if Seen(files, faults, path) {
      PresentEffectExisting(files, faults, path, line, regexp, matches, create, backup, true, now);
      PresentEffectExisting(files, faults, path, line, regexp, matches, create, backup, false, now);
    }
  }

  /** In check mode the absent edit writes nothing, yet reports what a successful real run reports. */
  lemma CheckModeAbsent(files: map<string, string>, faults: Faults, path: string, line: Option<string>,
                        regexp: Option<string>, matches: Matcher)
    ensures var c := AbsentEffect(files, faults, path, line, regexp, matches, true);
      var r := AbsentEffect(files, faults, path, line, regexp, matches, false);
      && c.files == files && c.scripts == ProbeScripts(files, faults, path)
      && (path !in faults.denied ==> c.result == r.result)
  {
    if Seen(files, faults, path) {
      AbsentEffectExisting(files, faults, path, line, regexp, matches, true);
      AbsentEffectExisting(files, faults, path, line, regexp, matches, false);
    }
  }

  /** A write the container refuses leaves the file as it was and reports a failure. */
  lemma FailedPresentWrite(files: map<string, string>, faults: Faults, path: string, line: string,
                           regexp: Option<string>, matches: Matcher, create: bool, backup: bool,
                           now: Timestamp.DateTime)
    requires Timestamp.Valid(now) && path in faults.denied
    ensures var e := PresentEffect(files, faults, path, line, regexp, matches, create, backup, false, now);
      var o := PlanPresent(files, faults, path, line, regexp, matches, create);
      && !e.result.changed
      && (path in files <==> path in e.files)
      && (path in files ==> e.files[path] == files[path])
      && (o.Changes() ==> e.result.msg == FailureMessage(o, path))
  {
    BackupNameShape(path, now, now);
    if Seen(files, faults, path) {
      PresentEffectExisting(files, faults, path, line, regexp, matches, create, backup, false, now);
    }
  }

  /**
   * A refused write with `backup` still leaves a copy: the copy runs before
   * the write and succeeds on its own, so the run reports no change yet
   * adds the backup file and names it.
   */
  lemma RefusedWriteBacksUp(files: map<string, string>, faults: Faults, path: string, line: string,
                            regexp: Option<string>, matches: Matcher, create: bool, now: Timestamp.DateTime)
    requires Timestamp.Valid(now) && Seen(files, faults, path) && path in faults.denied
    requires PresentDecision(ReadContent(files, faults, path), line, regexp, matches).BacksUp()
    requires BackupName(path, now) !in faults.denied
    ensures var e := PresentEffect(files, faults, path, line, regexp, matches, create, true, false, now);
      var o := PresentDecision(ReadContent(files, faults, path), line, regexp, matches);
      var name := BackupName(path, now);
      && e.files == files[name := files[path]]
      && e.result == EditResult(false, FailureMessage(o, path), Some(name))
  {
    PresentEffectExisting(files, faults, path, line, regexp, matches, create, true, false, now);
  }

  /**
   * So the present edit with `backup` against a refused write never settles:
   * every run at a new clock reading adds one more backup of the unchanged
   * file while reporting no change.
   */
  lemma RefusedWriteBacksUpEveryRun(files: map<string, string>, faults: Faults, path: string, line: string,
                                    regexp: Option<string>, matches: Matcher, create: bool,
                                    now1: Timestamp.DateTime, now2: Timestamp.DateTime)
    requires Timestamp.Valid(now1) && Timestamp.Valid(now2) && now1 != now2
    requires Seen(files, faults, path) && path in faults.denied
    requires PresentDecision(ReadContent(files, faults, path), line, regexp, matches).BacksUp()
    requires BackupName(path, now1) !in faults.denied && BackupName(path, now2) !in faults.denied
    ensures var e1 := PresentEffect(files, faults, path, line, regexp, matches, create, true, false, now1);
      var e2 := PresentEffect(e1.files, faults, path, line, regexp, matches, create, true, false, now2);
      var name1 := BackupName(path, now1);
      var name2 := BackupName(path, now2);
      && name1 != name2
      && e2.files == files[name1 := files[path]][name2 := files[path]]
      && !e1.result.changed && !e2.result.changed
      && e1.result.backupFile == Some(name1) && e2.result.backupFile == Some(name2)
  {
    var name1 := BackupName(path, now1);
    BackupNameShape(path, now1, now2);
    RefusedWriteBacksUp(files, faults, path, line, regexp, matches, create, now1);
    var files1 := files[name1 := files[path]];
    assert files1[path] == files[path];
    assert ReadContent(files1, faults, path) == ReadContent(files, faults, path);
    RefusedWriteBacksUp(files1, faults, path, line, regexp, matches, create, now2);
  }

  /** A refused write in the absent edit leaves every file as it was. */
  lemma FailedAbsentWrite(files: map<string, string>, faults: Faults, path: string, line: Option<string>,
                          regexp: Option<string>, matches: Matcher)
    requires path in faults.denied
    ensures var e := AbsentEffect(files, faults, path, line, regexp, matches, false);
      && !e.result.changed && e.files == files
      && (PlanAbsent(files, faults, path, line, regexp, matches).Removed? ==> e.result.msg == "Failed to update file " + path)
  {
    if Seen(files, faults, path) {
      AbsentEffectExisting(files, faults, path, line, regexp, matches, false);
    }
  }
}
