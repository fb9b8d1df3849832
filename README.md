# Homelab container modules in Dafny

This project models three Ansible modules that act on containers only through `docker exec`. Each module decides whether anything needs doing and then does it. The model proves what the decisions and their effects are.

- **`docker_exec_lineinfile`** (`lineinfile.dfy`) keeps a line present in, or absent from, a file inside a container.
  - The container is a `Container` object holding its regular files, the paths whose probe, read or write fails, and the shell scripts run so far.
  - The methods `EnsureLinePresent`, `EnsureLineAbsent` and `RunModule` follow the module step by step: existence probe, read, optional timestamped backup, whole-file write.
  - They are proved to leave the container exactly as the pure functions `PresentEffect` and `AbsentEffect` describe.
  - The lemmas about those functions cover:
    - the first-match rule;
    - that a replace rewrites every matching line;
    - the append rule;
    - that an absent edit drops every selected line and keeps the others in order;
    - backups, check mode and refused writes;
    - idempotence. A second present run changes nothing when the probe, the read and the write go through, the line is one line, and a given pattern matches it. A second absent run never changes anything.
    - where present runs never settle: a `line` holding "\n" is never found, and a refused write with `backup` adds a fresh backup on every run while reporting no change.
- **`docker_swarm_container_exec`** (`container_exec.dfy`) runs a command in a container unless a `creates` or `removes` guard says it was already done.
  - The runtime is a `Target` object: a fixed reply for every invocation, and the invocations made so far.
  - `Run` is proved to do what `RunSpec` says.
  - The lemmas cover:
    - when each guard skips, and that a probe that fails, times out or raises never skips (the gate fails open);
    - that check mode runs no command;
    - how timeouts and exceptions become status 124 or 1;
    - that the argument vector and the shell text read back as exactly the user, the variables, the container, the directory and the command's arguments.
  - `shlex.quote` and the shell's word splitting are in `shell.dfy`.
- **`pihole_adlist`** (`adlist.dfy`) keeps one row of Pi-hole's `adlist` table present or absent.
  - The gravity database is a `GravityDb` object: rows keyed by address, the next fresh id, and the statements run so far.
  - The module hands SQLite only literal text. The table reads `''` back as `'` and rejects a lone quote.
  - `Reconcile` follows `main` and is proved to do what `ReconcileSpec` says.
  - The lemmas cover:
    - add, update and remove, each touching one row by its id;
    - check mode;
    - that the lookup never raises on what the table holds;
    - that escaping round-trips.
  - They also prove a limit on idempotence. A comment that holds a `|` or ends in whitespace does not read back as itself. So every later present run updates the row again (`SecondPresentRun`).

Shared pieces:
- `text.dfy`: Python's `str(n)`, `int(s)`, `strip`, `split` and `in`.
- `lines.dfy`: `splitlines(keepends=True)`, `"".join` and `rstrip("\n")`.
- `timestamp.dfy`: the `%Y%m%d%H%M%S` stamp.
- `seqs.dfy`: one sequence fact.
- `wrappers.dfy`: `Option` and `Result`.

On these points the line editor behaves as follows:
- A present edit with a pattern rewrites every matching line. `RewriteMatching` states this.
- A missing file with `create=false` is reported with `changed=false` and a message.
- The absent edit never takes a backup.
- The existence probe is `test -f`.
- A refused write is reported as `changed=false` with a "Failed to …" message. The remote error text is dropped.
- A failed probe reads as a missing file, and a failed read reads as an empty file. So a present edit can replace a whole file with the line alone (`UnreadableOverwritten`, `BlindOverwritten`).

## Model

| member | source | states |
|---|---|---|
| Text.ParseIntToString | roles/pihole_config/library/pihole_adlist.py:149-150 | `int()` reads back what `str()` printed for every integer |
| Text.Split | roles/pihole_config/library/pihole_adlist.py:147 | `split` gives at least one piece, and no piece holds the separator |
| Text.JoinSplit | roles/pihole_config/library/pihole_adlist.py:147 | joining the pieces of a split with the separator gives the text back |
| Text.StripEndMeaning | roles/pihole_config/library/pihole_adlist.py:130 | `rstrip` drops only whitespace, and what it keeps does not end in whitespace |
| Text.StripStartMeaning | roles/pihole_config/library/pihole_adlist.py:130 | `lstrip` drops only whitespace, and what it keeps does not start with whitespace |
| Timestamp.Stamp | roles/pihole_config/library/docker_exec_lineinfile.py:163 | the clock reading is rendered as exactly fourteen decimal digits |
| Timestamp.StampRoundTrip | roles/pihole_config/library/docker_exec_lineinfile.py:163 | the fourteen digits give back every field of the clock reading |
| Timestamp.StampInjective | roles/pihole_config/library/docker_exec_lineinfile.py:163-164 | two different clock readings never give the same stamp |
| Shell.QuoteRoundTrip | library/docker_swarm_container_exec.py:204-208 | the shell reads a `shlex.quote`d string back as one word, equal to the string |
| Shell.JoinQuotedRoundTrip | library/docker_swarm_container_exec.py:210-211 | a space-joined list of quoted arguments is read back as exactly that list |
| Lines.StripNewlines | roles/pihole_config/library/docker_exec_lineinfile.py:176 | `rstrip("\n")` is a prefix that does not end in "\n", and only "\n"s were dropped |
| Lines.SplitLines | roles/pihole_config/library/docker_exec_lineinfile.py:210 | the content has no lines exactly when it is empty |
| Lines.JoinOfSplit | roles/pihole_config/library/docker_exec_lineinfile.py:210 | joining the lines gives the content back |
| Lines.SplitWellFormed | roles/pihole_config/library/docker_exec_lineinfile.py:210 | every line is non-empty and every line but the last ends in its only "\n" |
| Lines.SplitOfJoin | roles/pihole_config/library/docker_exec_lineinfile.py:234 | well-formed lines survive a join and a new split unchanged |
| Lines.CloseLastJoin | roles/pihole_config/library/docker_exec_lineinfile.py:258-260 | closing the last line adds a "\n" to the content only when it is non-empty and lacks a final one |
| LineInFile.FirstMatch | roles/pihole_config/library/docker_exec_lineinfile.py:174-178 | the index found is a matching line with no match before it; none is found only when no line matches |
| LineInFile.LinePresent | roles/pihole_config/library/docker_exec_lineinfile.py:171-180 | a matched text is reported exactly when a pattern was given and the line counts as present |
| LineInFile.LinePresentMeaning | roles/pihole_config/library/docker_exec_lineinfile.py:171-180 | with a pattern: present iff some line matches, and the reported text is the first match's; without one: present iff some line's text equals `line` |
| LineInFile.PresentIffSelected | roles/pihole_config/library/docker_exec_lineinfile.py:171-180 | the line is present exactly when the absent edit would drop some line |
| LineInFile.RewriteMatching | roles/pihole_config/library/docker_exec_lineinfile.py:227-232 | same number of lines; every matching line becomes `line + "\n"` and every other line is kept |
| LineInFile.KeptMeaning | roles/pihole_config/library/docker_exec_lineinfile.py:298-305 | the kept lines are exactly the unselected ones; when nothing is selected all lines are kept |
| LineInFile.DropSelected | roles/pihole_config/library/docker_exec_lineinfile.py:298-305 | the filter loop returns exactly `Kept`, the unselected lines in order |
| LineInFile.KeptConcat | roles/pihole_config/library/docker_exec_lineinfile.py:298-305 | filtering distributes over concatenation, so the order of kept lines is preserved |
| LineInFile.AppendExamples | roles/pihole_config/library/docker_exec_lineinfile.py:258-261 | "x\n" + y gives "x\ny\n", "x" + y gives "x\ny\n", "" + y gives "y\n" |
| LineInFile.AppendedLines | roles/pihole_config/library/docker_exec_lineinfile.py:258-261 | after an append the lines are the old ones, the last closed with "\n", then the new line |
| LineInFile.AppendedTexts | roles/pihole_config/library/docker_exec_lineinfile.py:258-261 | after an append the compared texts are the old ones followed by the line |
| LineInFile.RewrittenLines | roles/pihole_config/library/docker_exec_lineinfile.py:227-234 | the rewritten content splits back into the rewritten lines, as many as before |
| LineInFile.RemovedLines | roles/pihole_config/library/docker_exec_lineinfile.py:298-307 | the written content splits back into the kept lines, and the line is no longer present in them |
| LineInFile.BackupNameShape | roles/pihole_config/library/docker_exec_lineinfile.py:163-164 | the backup name is the path, ".backup." and fourteen digits; it differs from the path and differs between clock readings |
| LineInFile.Container.FileExists | roles/pihole_config/library/docker_exec_lineinfile.py:121-138 | true exactly when the path is a regular file and the probe call went through; one probe script is run |
| LineInFile.Container.ReadFile | roles/pihole_config/library/docker_exec_lineinfile.py:121-148 | the file's content, or "" when there is none or the read fails; one read script is run |
| LineInFile.Container.WriteFile | roles/pihole_config/library/docker_exec_lineinfile.py:151-156 | succeeds exactly when the path is not refused, and then replaces the whole file; nothing else changes |
| LineInFile.Container.CreateBackup | roles/pihole_config/library/docker_exec_lineinfile.py:159-168 | copies the file to the timestamped name and returns the name exactly when the copy succeeds; otherwise nothing changes |
| LineInFile.Commit | roles/pihole_config/library/docker_exec_lineinfile.py:250-270 | check mode only reports; otherwise a backup when asked, then the write, with the message depending on whether the write went through |
| LineInFile.DecidePresent | roles/pihole_config/library/docker_exec_lineinfile.py:209-261 | the outcome is `PresentDecision`, and a changing outcome comes with the content `PresentContent` describes |
| LineInFile.DecideAbsent | roles/pihole_config/library/docker_exec_lineinfile.py:285-307 | the outcome is `AbsentDecision`, and a removal comes with the kept lines joined |
| LineInFile.EnsureLinePresent | roles/pihole_config/library/docker_exec_lineinfile.py:171-270 | raises exactly when a found file's pattern does not compile, after only the probe and the read; otherwise the files, the scripts run and the result are those `PresentEffect` gives for the old files |
| LineInFile.EnsureLineAbsent | roles/pihole_config/library/docker_exec_lineinfile.py:273-315 | raises exactly when a found file's pattern does not compile, after only the probe and the read; otherwise the files, the scripts run and the result are those `AbsentEffect` gives for the old files |
| LineInFile.FailJson | roles/pihole_config/library/docker_exec_lineinfile.py:369 | a call with `msg=` and a dictionary that also holds `msg` raises TypeError; otherwise it is the failure with the given message |
| LineInFile.ErrorHandlerCrashes | roles/pihole_config/library/docker_exec_lineinfile.py:331-369 | the handler as written raises, because the unpacked initial result holds `msg` |
| LineInFile.ErrorHandler | roles/pihole_config/library/docker_exec_lineinfile.py:368-369 | the intended handler fails with "Error: " and the exception's text |
| LineInFile.RunModule | roles/pihole_config/library/docker_exec_lineinfile.py:346-369 | present without a non-empty line fails and touches nothing; a pattern that does not compile on a found file ends in the handler after the probe and the read; otherwise the present or absent edit runs, and only the present edit gets `backup` |
| LineInFile.PresentMissingFile | roles/pihole_config/library/docker_exec_lineinfile.py:189-206 | a file the probe reports missing: without `create` nothing is written; with it the file becomes the line and changed is reported iff the write went through |
| LineInFile.FirstMatchIsFirst | roles/pihole_config/library/docker_exec_lineinfile.py:174-178 | a matching line with no earlier match is the one found |
| LineInFile.AlreadyPresentIff | roles/pihole_config/library/docker_exec_lineinfile.py:213-247 | left alone iff, with a pattern, the first matching line is the line, or, without one, some line is the line |
| LineInFile.FirstMatchIsLine | roles/pihole_config/library/docker_exec_lineinfile.py:215-247 | when the first match is the line itself nothing is replaced |
| LineInFile.ReplacedSettles | roles/pihole_config/library/docker_exec_lineinfile.py:217-242 | after a replace with a pattern that matches the line, the file is left alone the next time |
| LineInFile.AppendedSettles | roles/pihole_config/library/docker_exec_lineinfile.py:249-270 | after an append, the line is found the next time |
| LineInFile.ContentSettles | roles/pihole_config/library/docker_exec_lineinfile.py:213-270 | whatever a replace or an append writes holds the line as the edit looks for it |
| LineInFile.CreatedSettles | roles/pihole_config/library/docker_exec_lineinfile.py:197-206 | a created file holds the line as the edit looks for it |
| LineInFile.PresentSettles | roles/pihole_config/library/docker_exec_lineinfile.py:183-270 | after a present edit whose write went through, the file counts as already holding the line, unless a missed file was not created |
| LineInFile.PresentIdempotent | roles/pihole_config/library/docker_exec_lineinfile.py:183-270 | when the probe, the read and the write of the path go through, `line` holds no "\n", and a given pattern matches `line` itself, a second present run reports no change and leaves the files as the first run left them |
| LineInFile.MultiLineNeverPresent | roles/pihole_config/library/docker_exec_lineinfile.py:171-180 | a `line` holding "\n" is never found as present, with or without a pattern, whatever the content |
| LineInFile.MultiLineAlwaysChanges | roles/pihole_config/library/docker_exec_lineinfile.py:183-270 | on a file the probe and the read reach and the write is allowed, a multi-line `line` is reported as a change on every run |
| LineInFile.RefusedWriteBacksUp | roles/pihole_config/library/docker_exec_lineinfile.py:217-266 | with `backup`, a replace or append whose write is refused still adds the timestamped copy of the file, reports it, and reports no change |
| LineInFile.RefusedWriteBacksUpEveryRun | roles/pihole_config/library/docker_exec_lineinfile.py:217-266 | two such runs at different clock readings leave two distinct backups of the unchanged file, each run reporting no change |
| LineInFile.UnreadableOverwritten | roles/pihole_config/library/docker_exec_lineinfile.py:141-148 | a found file whose read fails is replaced by the line alone, on every run; only a requested backup keeps the old content |
| LineInFile.UnreadableOverwrittenOnce | roles/pihole_config/library/docker_exec_lineinfile.py:141-148 | one present run on a found but unreadable file: the file becomes `line + "\n"` exactly, a requested backup that the container allows keeps the old content and is reported, and the run reports "Line added to file" |
| LineInFile.BlindOverwritten | roles/pihole_config/library/docker_exec_lineinfile.py:133-138 | a file whose probe fails is replaced by the line alone with `create`, on every run |
| LineInFile.AbsentOnFaults | roles/pihole_config/library/docker_exec_lineinfile.py:277-294 | the absent edit never writes a file whose probe or read fails, and reports it missing or the line absent |
| LineInFile.AppendRepeatsWhenPatternMissesLine | roles/pihole_config/library/docker_exec_lineinfile.py:249-261 | when the pattern does not match the line itself, every run appends the line again |
| LineInFile.AbsentIdempotent | roles/pihole_config/library/docker_exec_lineinfile.py:273-315 | a second absent run never reports a change and never alters the files |
| LineInFile.AbsentNeverBacksUp | roles/pihole_config/library/docker_exec_lineinfile.py:273-315 | the absent edit reports no backup, creates no file, and at most writes the path with the kept lines |
| LineInFile.BackupBeforeWrite | roles/pihole_config/library/docker_exec_lineinfile.py:250-263 | a requested backup on a replace or append copies the old content to the timestamped name before the write, and is reported iff the copy went through |
| LineInFile.BackupOnlyWhenEditing | roles/pihole_config/library/docker_exec_lineinfile.py:219-255 | a backup is reported only when asked for, outside check mode, on a replace or append, under the timestamped name |
| LineInFile.CheckModePresent | roles/pihole_config/library/docker_exec_lineinfile.py:250-270 | check mode writes nothing and takes no backup, yet reports what a successful real run reports |
| LineInFile.CheckModeAbsent | roles/pihole_config/library/docker_exec_lineinfile.py:297-315 | check mode writes nothing, yet reports what a successful real run reports |
| LineInFile.FailedPresentWrite | roles/pihole_config/library/docker_exec_lineinfile.py:235-238 | a refused write leaves the file as it was, reports no change and gives the failure message |
| LineInFile.FailedAbsentWrite | roles/pihole_config/library/docker_exec_lineinfile.py:308-311 | a refused write leaves every file as it was and reports "Failed to update file" |
| ContainerExec.ChdirRoundTrip | library/docker_swarm_container_exec.py:202-208 | the `cd` prefix reads back as the two words `cd` and the directory |
| ContainerExec.ShellCommandMeaning | library/docker_swarm_container_exec.py:202-213 | a list command ends the shell text and reads back as its arguments; a string is verbatim; a directory adds a `cd` prefix and `&&` |
| ContainerExec.BuildArgv | library/docker_swarm_container_exec.py:215-228 | the successive `extend`s build exactly `Argv` |
| ContainerExec.EnvArgsLayout | library/docker_swarm_container_exec.py:223-225 | the k-th variable gives `-e` and `key=value` at positions 2k and 2k+1 |
| ContainerExec.ArgvLayout | library/docker_swarm_container_exec.py:215-228 | `docker exec`, then `--user` only when a user is given, then the variables in order, then container, `sh`, `-c`, command |
| ContainerExec.ReadEntriesRoundTrip | library/docker_swarm_container_exec.py:223-228 | reading the variable options back gives the entries in order and the trailing words |
| ContainerExec.ArgvRoundTrip | library/docker_swarm_container_exec.py:215-228 | the vector reads back as the user, the entries, the container and the shell command, whatever text they hold |
| ContainerExec.Target.Spawn | library/docker_swarm_container_exec.py:232-248 | the reply is the runtime's answer to the invocation, which is recorded |
| ContainerExec.ProbeQuotesPath | library/docker_swarm_container_exec.py:284-289 | the probe text is `test -e`, then the quoted path, which reads back as the path alone |
| ContainerExec.Probe | library/docker_swarm_container_exec.py:179-191 | success iff exit status 0; a timeout or exception is a failed probe with no output; one invocation with a 30 s timeout |
| ContainerExec.Guard | library/docker_swarm_container_exec.py:282-300 | one probe, and skip exactly when it succeeded and printed the word |
| ContainerExec.ExecCommand | library/docker_swarm_container_exec.py:194-253 | status and output are the runtime's, or 124 and the timeout text, or 1 and the error; one invocation |
| ContainerExec.ExecuteStep | library/docker_swarm_container_exec.py:322-363 | check mode runs nothing; otherwise one invocation, failed exactly when the status is not 0 |
| ContainerExec.Run | library/docker_swarm_container_exec.py:256-363 | the result and the invocations made are those `RunSpec` gives |
| ContainerExec.Probes | library/docker_swarm_container_exec.py:282-320 | at most one probe is ever made |
| ContainerExec.CreatesGate | library/docker_swarm_container_exec.py:282-300 | skipped iff the probe exited 0 and printed "exists"; a skip makes no other invocation and reports no change, status 0, no output |
| ContainerExec.RemovesGate | library/docker_swarm_container_exec.py:302-320 | skipped iff the probe exited 0 and printed "missing"; a skip makes no other invocation and reports no change, status 0, no output |
| ContainerExec.GuardsExclusive | library/docker_swarm_container_exec.py:269 | `creates` with `removes` is refused before any invocation |
| ContainerExec.Proceeds | library/docker_swarm_container_exec.py:281-363 | unless refused, the guard's probe, then either a skip or exactly the execution step |
| ContainerExec.ProbeFailsOpen | library/docker_swarm_container_exec.py:184-191 | a probe that fails, times out or raises never skips: the command runs |
| ContainerExec.CheckModeRunsNothing | library/docker_swarm_container_exec.py:322-331 | in check mode only the probe runs; past the gates it reports a change, status 0 and no output |
| ContainerExec.ExecutedCommand | library/docker_swarm_container_exec.py:333-363 | an executed command always reports a change, fails iff its status is not 0, and passes status and output on |
| ContainerExec.CommandInvocationShape | library/docker_swarm_container_exec.py:215-248 | the invocation carries the full vector, input exactly when given, and a 300 s timeout |
| Adlist.EscapeRoundTrip | roles/pihole_config/library/pihole_adlist.py:164-169 | SQLite reads an escaped literal back as the original text |
| Adlist.UnescapeInverse | roles/pihole_config/library/pihole_adlist.py:137-138 | every literal SQLite accepts is the escape of what it reads |
| Adlist.LiteralIsItself | roles/pihole_config/library/pihole_adlist.py:137-138 | unescaped text is read as itself exactly when it holds no quote |
| Adlist.EscapeNoQuotes | roles/pihole_config/library/pihole_adlist.py:164-165 | text without quotes is left as it is by escaping |
| Adlist.ExecKeepsValid | roles/pihole_config/library/pihole_adlist.py:167-203 | every statement keeps ids unique and below the next fresh id |
| Adlist.ParseListing | roles/pihole_config/library/pihole_adlist.py:145-154 | empty output means no row, and only that; a parsed comment holds no `\|` |
| Adlist.ReadBackIsItself | roles/pihole_config/library/pihole_adlist.py:147-151 | a comment reads back as itself iff it has no `\|` and no trailing whitespace |
| Adlist.ListingRoundTrip | roles/pihole_config/library/pihole_adlist.py:145-152 | a printed row always parses to its id, its flag and the read-back comment |
| Adlist.PrintedRow | roles/pihole_config/library/pihole_adlist.py:130 | stripping the printed row removes the newline and the comment's trailing whitespace only |
| Adlist.ExecSelect | roles/pihole_config/library/pihole_adlist.py:137-140 | the select prints the row with that address, or nothing, and changes no row |
| Adlist.LookupFinds | roles/pihole_config/library/pihole_adlist.py:135-154 | for an address without a quote, the lookup finds the stored row with its comment read back, or no row |
| Adlist.LookupNeverRaises | roles/pihole_config/library/pihole_adlist.py:145-152 | the parse never raises on what the table prints |
| Adlist.Decide | roles/pihole_config/library/pihole_adlist.py:240-288 | a change is reported exactly when a statement is to be run |
| Adlist.DecideMeaning | roles/pihole_config/library/pihole_adlist.py:240-288 | add iff present and missing; update iff present, existing and the flag or a non-empty comment differs; remove iff absent and existing; always by the row's id |
| Adlist.EmptyCommentNeverUpdates | roles/pihole_config/library/pihole_adlist.py:258-259 | an empty comment alone never causes an update |
| Adlist.GravityDb.Run | roles/pihole_config/library/pihole_adlist.py:121-132 | the stripped output, or the error, and the table the statement leaves; the statement is recorded |
| Adlist.GravityDb.CheckExists | roles/pihole_config/library/pihole_adlist.py:135-154 | the answer is `Lookup` of the table, which is left unchanged; one select is recorded |
| Adlist.GravityDb.Apply | roles/pihole_config/library/pihole_adlist.py:157-210 | the table the statement leaves, and the error exactly when it failed |
| Adlist.Reconcile | roles/pihole_config/library/pihole_adlist.py:213-301 | the report, the table and the statements run are those `ReconcileSpec` gives |
| Adlist.Respond | roles/pihole_config/library/pihole_adlist.py:232-235 | a failed lookup fails the run, a raising parse crashes it, otherwise the run goes on as `Carry` says |
| Adlist.Settle | roles/pihole_config/library/pihole_adlist.py:237-301 | the present and absent branches, with `needs_update`, do what `Carry` says |
| Adlist.SpecFound | roles/pihole_config/library/pihole_adlist.py:232-235 | for an address without a quote the run is the select, then `Carry` on the stored row |
| Adlist.NeverCrashes | roles/pihole_config/library/pihole_adlist.py:145-152 | the module never raises on what the table holds |
| Adlist.LoneQuoteFails | roles/pihole_config/library/pihole_adlist.py:232-235 | an address with a lone quote fails at the lookup and changes nothing |
| Adlist.DoubledQuoteNeverSettles | roles/pihole_config/library/pihole_adlist.py:135-169 | an address with a doubled quote is added by the first present run and never found again, so the second run fails on the insert |
| Adlist.DoubledQuoteExample | roles/pihole_config/library/pihole_adlist.py:240-246 | the address `a''b` on an empty table: the second present run fails with "Failed to add adlist" |
| Adlist.ExecInsert | roles/pihole_config/library/pihole_adlist.py:157-176 | the insert adds the row under the address with a fresh id, the flag, the comment as given and both stamps |
| Adlist.ExecUpdate | roles/pihole_config/library/pihole_adlist.py:179-197 | the update sets flag, comment and modification stamp of the rows with that id |
| Adlist.ExecDelete | roles/pihole_config/library/pihole_adlist.py:200-210 | the delete removes the rows with that id |
| Adlist.CarryActs | roles/pihole_config/library/pihole_adlist.py:240-288 | when the statement succeeds the run reports the decision and leaves the statement's table |
| Adlist.CarrySummary | roles/pihole_config/library/pihole_adlist.py:290-299 | a successful run reports the parameters and the id the lookup found |
| Adlist.PresentAdds | roles/pihole_config/library/pihole_adlist.py:240-249 | present with no row adds exactly that row with a fresh id and reports no id |
| Adlist.UpdateRowsOne | roles/pihole_config/library/pihole_adlist.py:188-190 | with unique ids, an update by a row's id changes that row alone |
| Adlist.DeleteRowsOne | roles/pihole_config/library/pihole_adlist.py:202-203 | with unique ids, a delete by a row's id removes that row alone |
| Adlist.PresentUpdates | roles/pihole_config/library/pihole_adlist.py:251-273 | a differing row gets the flag, the comment (even an empty one) and the stamp; nothing else changes |
| Adlist.PresentKeeps | roles/pihole_config/library/pihole_adlist.py:274-275 | a matching row changes nothing and its id is reported |
| Adlist.AbsentRemoves | roles/pihole_config/library/pihole_adlist.py:277-286 | absent deletes the existing row, and only it, and reports its id |
| Adlist.AbsentMissing | roles/pihole_config/library/pihole_adlist.py:287-288 | absent with no row changes nothing |
| Adlist.CheckModeSame | roles/pihole_config/library/pihole_adlist.py:240-288 | check mode runs only the select and reports what a successful real run reports |
| Adlist.ReportedId | roles/pihole_config/library/pihole_adlist.py:290-299 | the reported id is the stored row's id before the run, or none |
| Adlist.PresentWritten | roles/pihole_config/library/pihole_adlist.py:240-273 | a present run that changes something leaves the row with the flag and the comment as given |
| Adlist.PresentOnWritten | roles/pihole_config/library/pihole_adlist.py:251-275 | against such a row, present changes it again iff the comment does not read back as itself |
| Adlist.SecondPresentRun | roles/pihole_config/library/pihole_adlist.py:251-275 | after a writing present run, a second one changes the table iff the comment is non-empty and holds a `\|` or ends in whitespace |
| Adlist.PresentIdempotent | roles/pihole_config/library/pihole_adlist.py:240-275 | when the comment reads back as itself, a second present run changes nothing |

## Left out

- Regular expressions: `re.match` is a parameter of type `(pattern, text) -> bool`. The model proves nothing about any particular pattern syntax.
- Processes and the Docker CLI: `subprocess.run` is replaced by the `Container`, `Target` and `GravityDb` objects. These give a fixed answer per call and record the calls made. The clock (`datetime.now()`, `time.time()`) is a parameter.
- The remote shell's parsing of the line editor's scripts:
  - the path is interpolated unquoted;
  - written content that itself holds a line `EOF` ends the here-document early;
  - content that does not end in "\n" fuses the terminator `EOF` onto its last line. This happens when an unreplaced or kept last line had no newline. The shell then never sees the terminator.
  
  Neither is modelled: the container treats the path as a key and the write as a whole-file overwrite.
- LineInFile.Container.FileExists: models `test -f` as "is a key of `files`". Directories, special files and links are not modelled.
- LineInFile.Faults: a failed probe, read or write is a fixed property of the path. A failure that comes and goes between calls is not modelled.
- LineInFile.RunModule: the only exception modelled is a pattern `re.compile` rejects. `compiles` and `compileError` are parameters, because the pattern syntax is not modelled. On that exception it reports what the handler evidently intends. The handler as written raises TypeError itself (see "## Findings").
- Lines.SplitLines: splits only at "\n". Python's `splitlines` also splits at "\r", "\x0b", "\x0c", "\x1c"–"\x1e", "\x85" and " "/" ". So files holding those characters are not covered.
- Text.ParseInt: accepts an optional sign and ASCII digits only. Python's `int()` also accepts surrounding whitespace, `_` separators and other Unicode digits. The parse of a printed row never needs those.
- Timestamp.Stamp: requires a four-digit year.
- ContainerExec.Params: `environment` is a sequence of string pairs in the dictionary's iteration order. `command` is either a list of strings or one string; other JSON types are not modelled. `Argv` renders the values as given.
- ContainerExec.GuardsExclusive: the refusal of `creates` together with `removes` is done by the Ansible framework before `main`. The model reports it with a fixed message and does not model the framework's exact text.
- Adlist.GravityDb: the SQLite side is modelled only as far as the module uses it.
  - Addresses are unique keys, and a duplicate insert fails.
  - Ids are a fresh counter.
  - A literal with an undoubled quote is a statement SQLite rejects. This includes any attempt to inject SQL.
  - Bash expansion inside the double-quoted command (`$`, backquotes, `\`, `"`) is not modelled.
  - The error text of a failed call is a fixed non-empty parameter, not the exact `CalledProcessError` text.
- Adlist.Lookup: takes the address as given, as the source does; it is not escaped. So an address with a doubled quote is looked up as SQLite reads it, and the row added for it is never found (`DoubledQuoteNeverSettles`).
- Adlist.ParseListing: a parse that raises is the `Crashed` report. The Ansible framework's rendering of that traceback is not modelled.
- `roles/pihole_api/library/pihole_api.py` and `roles/jellyfin/library/jellyfin_api.py` are not part of this model.

## Findings

| source | as written | input that shows it | evidently intended | confidence | as-written member | corrected member |
|---|---|---|---|---|---|---|
| roles/pihole_config/library/docker_exec_lineinfile.py:368-369 | the handler passes `msg=` and also unpacks `result`, which still holds the key `msg`, so Python raises TypeError inside the handler | `state=absent`, `regexp="("`, on a file that exists: `re.compile` raises, and the module ends in a traceback instead of "Error: …" | fail with "Error: " and the exception's text | high; not executed | LineInFile.ErrorHandlerAsWritten, shown by LineInFile.ErrorHandlerCrashes | LineInFile.ErrorHandler |
