# CodeManager core, modelled in Dafny

CodeManager is a Unity editor extension. It inspects C# scripts against
clean-code rules and creates new scripts from templates. This project models
its core and proves properties of the model:

- **The text-inspection engine** (`CodeInspection`). A document (`CompleteCode`)
  is kept as an ordered list of `CodePiece` segments. `Find` and `FindAll` cut
  the document around regex matches. `AddFirst`, `AddLast`, `AddBefore` and
  `AddAfter` splice in new pieces. `CreateCurrentCode` and `Commit` stitch the
  pieces back together, and `GetLineIndex` numbers lines. A small state
  machine decides which calls are allowed. Its inputs are the editation flag,
  READ vs READ_WRITE mode, FILE vs TEXT type, and the stopped state (ID 0).
- **The registry of file blockings** (`CodeInspector`). It admits many readers
  or one writer per path, issues increasing inspection IDs, releases sessions
  and upgrades a reader to a writer.
- **Line bookkeeping**: `CodePiece` and `CodeManagerUtility.GetLineCount`.
- **Rule numbering and filtering**: `CodeManagerSettings.UpdateRules`, the
  ready-listener queue, and the `IsValid`/`GetID`/`SetID` members of the
  three rule structs.
- **Regex deletion in the settings window**: rule regex indexes are
  re-pointed after a regex is deleted from the list.
- **Script creation from a template**: placeholders are looked up and
  substituted (`ScriptCreator`).
- **The path-string helpers** of `CodeManagerUtility`.

Files, one module each:

| file | module | models |
|---|---|---|
| `common.dfy` | `Common` | Option, exceptions as `Outcome` (Return / Throw(fault)), character counts |
| `match_cutter.dfy` | `MatchCutter` | regex matches, and the cut of a document into segments as pure functions |
| `code_piece.dfy` | `CodePieces` | the `CodePiece` class and its line data |
| `code_inspection.dfy` | `Inspection` | the `CodeInspection` class |
| `code_inspector.dfy` | `Inspector` | the `CodeInspector` registry class, and the blocking-list invariants |
| `code_manager_utility.dfy` | `CodeManagerUtility` | `GetLineCount` and the path helpers |
| `clean_code.dfy` | `CleanCode` | the three rule structs and the `ICleanCodeRule` view of them |
| `code_manager_settings.dfy` | `Settings` | the `CodeManagerSettings` class: `UpdateRules`, `AddICleanCodeRule`, listeners |
| `settings_window.dfy` | `SettingsWindow` | the regex-removal callback and `GetRegexNames` |
| `script_creator.dfy` | `ScriptCreation` | placeholder lookup, value loading, substitution, `CreateNewScript` |

How the source is represented:

- The C# linked list of pieces is a `seq<CodePiece>` field. A
  `LinkedListNode` handle is the piece object itself.
- C# exceptions are `Throw` outcomes naming the exception.
- A rule loop that mutates arrays in place stays a loop over the `array`
  fields. Each such loop is proved against a pure reference function:
  `RegisterAll` for UpdateRules, `CutMatches`/`CutAll` for
  CutCompleteCode(MatchCollection), `Filled` for the substitution loop, and
  `LinesIn` for GetLineIndex.

Three behaviours of the code that its own comments do not lead one to expect, modelled as written:

- The registry's `GrantWritePermission` never rewrites the stored blocking to
  READ_WRITE, although the comment at CodeInspector.cs:144 says a writer "is
  the only one". See Findings.
- `IsNoEditationActive` in READ mode calls `Commit`. For a READ inspection,
  `Commit` is exactly a reset that answers true, so an active READ editation
  is silently dropped rather than refused.
- `InspectFile` adds the blocking before the inspection constructor runs. If
  the constructor throws (empty path, unreadable file), the blocking stays
  behind. The model keeps this as written.

## Model

| member | source | states |
|---|---|---|
| CleanCode.UnwantedCode.SetID | Morchul/CodeManager/Scripts/CleanCode/UnwantedCode.cs:49-52 | GetID afterwards answers the new ID; name, regex index, description, validity and type are kept, and restoring the old ID gives the original struct |
| CleanCode.CodeGuideline.SetID | Morchul/CodeManager/Scripts/CleanCode/CodingGuideline.cs:62-65 | GetID afterwards answers the new ID; both regex indexes, group name, description, validity and type are kept |
| CleanCode.CodeDocumentation.SetID | Morchul/CodeManager/Scripts/CleanCode/CodeDocumentation.cs:49-52 | GetID afterwards answers the new ID; regex index, description, validity and type are kept |
| CleanCode.CleanCodeRule.GetType | Morchul/CodeManager/Scripts/CleanCode/ICleanCodeRule.cs:25-46 | a rule never reports NoRuleType, and it reports UnwantedCode, CodingGuideline or CodeDocumentation exactly when it is that kind of struct |
| CleanCode.CleanCodeRule.SetID | Morchul/CodeManager/Scripts/CleanCode/ICleanCodeRule.cs:13-17 | through the interface: the new ID is read back, name, validity and type are kept |
| CleanCode.SetIDRoundTrip | Morchul/CodeManager/Scripts/CleanCode/ICleanCodeRule.cs:9-17 | setting an ID and then the old ID back returns the rule unchanged |
| CodeManagerUtility.RemoveAll | Morchul/CodeManager/Scripts/CodeManagerUtility.cs:68 | the result contains no occurrence of the character and is shorter by exactly the number of occurrences |
| CodeManagerUtility.ReplaceChar | Morchul/CodeManager/Scripts/CodeManagerUtility.cs:101 | same length, every occurrence of `from` becomes `to`, every other character is kept |
| CodeManagerUtility.LastIndexOf | Morchul/CodeManager/Scripts/CodeManagerUtility.cs:90 | -1 or an index holding the character, with no occurrence after it |
| CodeManagerUtility.GetLineCount | Morchul/CodeManager/Scripts/CodeManagerUtility.cs:62-80 | "" gives (true, 0); otherwise the count is the number of newlines plus one for an unterminated last line; the flag is false exactly for a non-empty text not ending in a newline |
| CodeManagerUtility.LineAdvanceIsNewlineCount | Morchul/CodeManager/Scripts/CodeInspector/CodeInspection.cs:161 | the per-piece line advance used by GetLineIndex (count, minus one without a final newline) is exactly the number of newlines |
| CodeManagerUtility.ConvertToOpertingSystemPath | Morchul/CodeManager/Scripts/CodeManagerUtility.cs:29-35 | exactly one trailing slash is removed, any other path is returned unchanged |
| CodeManagerUtility.ConvertStripsFolderSlash | Morchul/CodeManager/Scripts/CodeManagerUtility.cs:13-18 | a folder with a slash appended converts back to the folder; the template path constant converts to the template folder constant |
| CodeManagerUtility.GetFolderNameInPath | Morchul/CodeManager/Scripts/CodeManagerUtility.cs:88-91 | a prefix of the path ending in its last slash, with no slash after it; "" exactly when the path has no slash |
| CodeManagerUtility.GetFileNameInPathWithExtension | Morchul/CodeManager/Scripts/CodeManagerUtility.cs:99-102 | a suffix of the path holding neither separator, preceded by a separator whenever it is shorter than the path |
| CodeManagerUtility.FolderAndFileNameSplitPath | Morchul/CodeManager/Scripts/CodeManagerUtility.cs:82-102 | for a path without backslashes, folder name followed by file name is the path |
| CodeManagerUtility.GetFileNameInPathWithoutExtension | Morchul/CodeManager/Scripts/CodeManagerUtility.cs:110-114 | the file name cut before its last dot: a proper prefix followed by a dot, with no dot after it |
| CodeManagerUtility.FolderNameExample | Morchul/CodeManager/Scripts/CodeManagerUtility.cs:82-88 | the documented example: the folder of Assets/Scripts/Controller.cs is Assets/Scripts/ |
| CodeManagerUtility.FileNameExample | Morchul/CodeManager/Scripts/CodeManagerUtility.cs:93-99 | the documented example: the file name of Assets/Scripts/Controller.cs is Controller.cs |
| CodeManagerUtility.FileNameWithoutExtensionExample | Morchul/CodeManager/Scripts/CodeManagerUtility.cs:104-110 | the documented example with backslashes gives Controller |
| CodePieces.CodePiece.FromMatch | Morchul/CodeManager/Scripts/CodeInspector/CodePiece.cs:43-49 | the piece holds the match text and the match, and its line data agrees with its text |
| CodePieces.CodePiece.FromString | Morchul/CodeManager/Scripts/CodeInspector/CodePiece.cs:51-57 | the piece holds the text and no match, and its line data agrees with its text |
| CodePieces.CodePiece.SetCode | Morchul/CodeManager/Scripts/CodeInspector/CodePiece.cs:14-22 | assigning Code stores it and recomputes the line data: with tracking on, (EndWithNewLine, lineCount) is GetLineCount of the new text |
| CodePieces.CodePiece.CalcLineCount | Morchul/CodeManager/Scripts/CodeInspector/CodePiece.cs:59-65 | line data consistent afterwards; with tracking off EndWithNewLine is left as it was and lineCount is -1 |
| CodePieces.CodePiece.LineAdvance | Morchul/CodeManager/Scripts/CodeInspector/CodeInspection.cs:161 | with tracking on, the lines a piece advances GetLineIndex by equal the newlines in its text |
| MatchCutter.CutSingleCorrect | Morchul/CodeManager/Scripts/CodeInspector/CodeInspection.cs:496-508 | a single-match cut reassembles to the document, contains exactly that match, and has no empty literal piece |
| MatchCutter.CutStep | Morchul/CodeManager/Scripts/CodeInspector/CodeInspection.cs:523-537 | the cursor stays inside the document |
| MatchCutter.CutMatches | Morchul/CodeManager/Scripts/CodeInspector/CodeInspection.cs:521-538 | the cursor stays inside the document |
| MatchCutter.CutStopsAt | Morchul/CodeManager/Scripts/CodeInspector/CodeInspection.cs:531-534 | a match starting before the cursor means the matches are not ordered, and the cut stops with the pieces made so far |
| MatchCutter.CutFrozen | Morchul/CodeManager/Scripts/CodeInspector/CodeInspection.cs:531-534 | once the cut has stopped, later matches change nothing |
| MatchCutter.CutInOrderIffOrdered | Morchul/CodeManager/Scripts/CodeInspector/CodeInspection.cs:521-538 | the loop runs to the end exactly when each match starts no earlier than the previous one ends; it then ends at the last match end |
| MatchCutter.FirstMatchAlwaysCut | Morchul/CodeManager/Scripts/CodeInspector/CodeInspection.cs:521-538 | the first match is always cut, since the cursor starts at 0, so a throw comes after at least one piece was added |
| MatchCutter.OrderedExtend | Morchul/CodeManager/Scripts/CodeInspector/CodeInspection.cs:531-534 | one more match keeps an ordered list ordered exactly when it starts at or after the previous match's end, the test the loop makes |
| MatchCutter.CutMatchesSound | Morchul/CodeManager/Scripts/CodeInspector/CodeInspection.cs:521-538 | an uninterrupted cut reassembles to the document up to the cursor, holds the matches in order, and has no empty literal piece |
| MatchCutter.StepSound | Morchul/CodeManager/Scripts/CodeInspector/CodeInspection.cs:527-537 | one turn (optional gap, then the match) extends the reassembled prefix to the match end and the match list by that match |
| MatchCutter.CutAllCorrect | Morchul/CodeManager/Scripts/CodeInspector/CodeInspection.cs:515-546 | for ordered matches the complete cut reassembles to the document and holds exactly the matches, in order |
| MatchCutter.CutAllThrowsIffUnordered | Morchul/CodeManager/Scripts/CodeInspector/CodeInspection.cs:531-534 | the collection cut fails exactly when the matches are unordered, with the pieces cut before the failure |
| Inspection.NormalizeRemovesCarriageReturns | Morchul/CodeManager/Scripts/CodeInspector/CodeInspection.cs:355 | normalising to a newline without a carriage return leaves none |
| Inspection.NormalizeKeepsUnixText | Morchul/CodeManager/Scripts/CodeInspector/CodeInspection.cs:355 | normalising text without carriage returns to "\n" leaves it unchanged |
| Inspection.NormalizeIdempotentOnUnix | Morchul/CodeManager/Scripts/CodeInspector/CodeInspection.cs:352-371 | normalising twice is normalising once |
| Inspection.MatchNodesMembers | Morchul/CodeManager/Scripts/CodeInspector/CodeInspection.cs:536 | the node list FindAll returns holds exactly the pieces made from a match, no null, and no node twice |
| Inspection.LinesInCountsNewlines | Morchul/CodeManager/Scripts/CodeInspector/CodeInspection.cs:151-171 | the sum of the pieces' line advances is the number of newlines in the joined text |
| Inspection.LinesBeforeCountsNewlines | Morchul/CodeManager/Scripts/CodeInspector/CodeInspection.cs:151-171 | the same for the pieces before a given position |
| Inspection.NewCodeInspection | Morchul/CodeManager/Scripts/CodeInspector/CodeInspection.cs:49-86 | the constructor with its throws: a null pathOrText (either type), or a FILE inspection with an empty path or an unreadable file, is an ArgumentException; otherwise a fresh empty inspection of the given ID, mode and type holding the text |
| Inspection.CodeInspection.HasAllWriteRequirements | Morchul/CodeManager/Scripts/CodeInspector/CodeInspection.cs:451-456 | writing is allowed exactly for a TEXT inspection or an active READ_WRITE FILE inspection |
| Inspection.CodeInspection.constructor | Morchul/CodeManager/Scripts/CodeInspector/CodeInspection.cs:49-86 | an empty inspection with default settings, holding the text or the file content, path and file name |
| Inspection.CodeInspection.ResetCodeInspection | Morchul/CodeManager/Scripts/CodeInspector/CodeInspection.cs:585-589 | no pieces and no editation afterwards |
| Inspection.CodeInspection.CreateCodePiece | Morchul/CodeManager/Scripts/CodeInspector/CodeInspection.cs:474-478 | a fresh literal piece with the text and the inspection's line tracking; editation is started |
| Inspection.CodeInspection.CreateCodePieceFromMatch | Morchul/CodeManager/Scripts/CodeInspector/CodeInspection.cs:485-489 | a fresh piece holding the match and its text; editation is started |
| Inspection.CodeInspection.IsNoEditationActive | Morchul/CodeManager/Scripts/CodeInspector/CodeInspection.cs:399-414 | true exactly when no editation is active or the mode is READ; then the pieces are cleared (READ commit), otherwise nothing changes |
| Inspection.CodeInspection.HasAllReadRequirements | Morchul/CodeManager/Scripts/CodeInspector/CodeInspection.cs:462-467 | reading is allowed exactly when editation may start and the FILE inspection is active; the clearing of IsNoEditationActive happens either way |
| Inspection.CodeInspection.CreateCurrentCode | Morchul/CodeManager/Scripts/CodeInspector/CodeInspection.cs:129-144 | the non-empty piece texts joined in list order; a NullReferenceException with no pieces |
| Inspection.CodeInspection.GetLineIndex | Morchul/CodeManager/Scripts/CodeInspector/CodeInspection.cs:151-171 | -1 without line tracking; otherwise 1 plus the line advances of the preceding pieces, which is 1 plus the newlines before the node; 1 for a node not in this inspection's list (see Left out for a node of another list) |
| Inspection.CodeInspection.LineIndexIsNewlineCount | Morchul/CodeManager/Scripts/CodeInspector/CodeInspection.cs:151-171 | the line index of the k-th piece counts the newlines in the text of pieces 0..k-1 |
| Inspection.CodeInspection.CountLinesBefore | Morchul/CodeManager/Scripts/CodeInspector/CodeInspection.cs:155-163 | the do/while walk backwards sums the line advances of the first k pieces, plus one |
| Inspection.CodeInspection.WriteFile | Morchul/CodeManager/Scripts/CodeInspector/CodeInspection.cs:352-371 | on success CompleteCode is the newline-normalised new content; on failure it is unchanged |
| Inspection.CodeInspection.WriteNewContent | Morchul/CodeManager/Scripts/CodeInspector/CodeInspection.cs:380-393 | a TEXT inspection always takes the new content; a FILE inspection writes the file and takes its normalised content only on success |
| Inspection.CodeInspection.Commit | Morchul/CodeManager/Scripts/CodeInspector/CodeInspection.cs:93-114 | READ: clears and answers true; READ_WRITE without write rights: false, nothing changes; with no pieces: NullReferenceException; otherwise writes the joined pieces and clears only on success |
| Inspection.CodeInspection.Cancel | Morchul/CodeManager/Scripts/CodeInspector/CodeInspection.cs:119-122 | no pieces and no editation afterwards |
| Inspection.CodeInspection.SetSettings | Morchul/CodeManager/Scripts/CodeInspector/CodeInspection.cs:22-32 | the new settings are taken (and a READ editation committed) only when editation may start; otherwise nothing changes |
| Inspection.CodeInspection.SetEverything | Morchul/CodeManager/Scripts/CodeInspector/CodeInspection.cs:179-190 | replaces CompleteCode and clears the pieces exactly for a TEXT inspection; otherwise nothing changes |
| Inspection.CodeInspection.AddFirst | Morchul/CodeManager/Scripts/CodeInspector/CodeInspection.cs:197-201 | without write rights null and nothing changes; otherwise a fresh literal piece is put in front and editation is active |
| Inspection.CodeInspection.AddLast | Morchul/CodeManager/Scripts/CodeInspector/CodeInspection.cs:208-212 | without write rights null and nothing changes; otherwise a fresh literal piece is appended and editation is active |
| Inspection.CodeInspection.AddAfter | Morchul/CodeManager/Scripts/CodeInspector/CodeInspection.cs:220-224 | without write rights null; a null node is ArgumentNullException and a node not in the list InvalidOperationException, the list unchanged; otherwise one fresh piece right after the node |
| Inspection.CodeInspection.AddBefore | Morchul/CodeManager/Scripts/CodeInspector/CodeInspection.cs:232-236 | as AddAfter, with the new piece right before the node |
| Inspection.CodeInspection.CutCompleteCodeMatch | Morchul/CodeManager/Scripts/CodeInspector/CodeInspection.cs:496-508 | the pieces appended are the single-match cut of the document, and the returned piece holds the match |
| Inspection.CodeInspection.AddGapAndMatch | Morchul/CodeManager/Scripts/CodeInspector/CodeInspection.cs:527-537 | one loop turn appends the gap before the match (if any) and the match piece, and returns that piece |
| Inspection.CodeInspection.CutLoopTurn | Morchul/CodeManager/Scripts/CodeInspector/CodeInspection.cs:523-537 | one turn keeps the loop invariant, or stops on an out-of-order match with the pieces cut so far |
| Inspection.CodeInspection.CutMatchesLoop | Morchul/CodeManager/Scripts/CodeInspector/CodeInspection.cs:521-538 | the loop reports in-order exactly for ordered matches; the pieces appended are the cut so far, and one returned node per match, in order, when in order |
| Inspection.CodeInspection.CutCompleteCodeCollection | Morchul/CodeManager/Scripts/CodeInspector/CodeInspection.cs:515-546 | throws exactly for unordered matches; otherwise the pieces are the complete cut and the returned array holds one node per match, in order |
| Inspection.CodeInspection.AddRest | Morchul/CodeManager/Scripts/CodeInspector/CodeInspection.cs:540-543 | appends the text after the last match as a literal piece when it is non-empty |
| Inspection.CodeInspection.Find | Morchul/CodeManager/Scripts/CodeInspector/CodeInspection.cs:246-269 | found exactly when reading is allowed and the regex matches; then the pieces are the single-match cut around the first match and reassemble to the document |
| Inspection.CodeInspection.FindAll | Morchul/CodeManager/Scripts/CodeInspector/CodeInspection.cs:278-302 | false and no array when reading is refused or RightToLeft is set; otherwise throws exactly for unordered matches, else true exactly when a match was found, one node per match, and the pieces reassemble to the document; when the editation could start, the editation is active exactly when pieces were cut, and a stopped inspection ends with no pieces and no editation |
| Inspection.CodeInspection.CutEveryMatch | Morchul/CodeManager/Scripts/CodeInspector/CodeInspection.cs:298-300 | on a cleared inspection: the collection cut with its throw, the answer and the nodes; the editation is active exactly when some piece was cut (an empty document with no match leaves it off) |
| Inspection.CodeInspection.GetEverything | Morchul/CodeManager/Scripts/CodeInspector/CodeInspection.cs:309-318 | when reading is allowed, a single piece holding the whole document; otherwise null |
| Inspection.CodeInspection.CutWhole | Morchul/CodeManager/Scripts/CodeInspector/CodeInspection.cs:316 | the list becomes one fresh literal piece holding the whole document |
| Inspection.CodeInspection.SetInactive | Morchul/CodeManager/Scripts/CodeInspector/CodeInspection.cs:596-599 | the inspection ID becomes 0 |
| Inspection.CodeInspection.GrantWritePermission | Morchul/CodeManager/Scripts/CodeInspector/CodeInspection.cs:604-617 | upgrades to READ_WRITE (and commits the READ editation) exactly when editation may start; otherwise nothing changes |
| Inspector.BlockingsOn | Morchul/CodeManager/Scripts/CodeInspector/CodeInspector.cs:159-164 | exactly the blockings on the path |
| Inspector.WithoutID | Morchul/CodeManager/Scripts/CodeInspector/CodeInspector.cs:74 | exactly the blockings of other inspections |
| Inspector.OtherBlockings | Morchul/CodeManager/Scripts/CodeInspector/CodeInspector.cs:89 | exactly the blockings on the inspection's path held by other inspections |
| Inspector.FirstModeIsHighest | Morchul/CodeManager/Scripts/CodeInspector/CodeInspector.cs:143-151 | under the readers-or-one-writer invariant, the first blocking on a path is READ_WRITE exactly when some blocking on it is |
| Inspector.AdmittedIffNoConflict | Morchul/CodeManager/Scripts/CodeInspector/CodeInspector.cs:33-61 | a request is admitted exactly when the path holds only readers, and a writer only when the path is free |
| Inspector.AdmissionKeepsExclusive | Morchul/CodeManager/Scripts/CodeInspector/CodeInspector.cs:119-124 | admitting a request and adding its blocking keeps readers-or-one-writer |
| Inspector.ReadersCoexist | Morchul/CodeManager/Scripts/CodeInspector/CodeInspector.cs:41-47 | after a reader is admitted, further readers are admitted and writers refused |
| Inspector.WriterIsAlone | Morchul/CodeManager/Scripts/CodeInspector/CodeInspector.cs:36-40 | after a writer is admitted, every further request on the path is refused |
| Inspector.WithoutIDKeepsInvariants | Morchul/CodeManager/Scripts/CodeInspector/CodeInspector.cs:69-78 | releasing an inspection's blockings keeps readers-or-one-writer and the ID order |
| Inspector.AppendKeepsIssuedInOrder | Morchul/CodeManager/Scripts/CodeInspector/CodeInspector.cs:108-124 | a blocking with the next ID keeps blockings ordered by ID |
| Inspector.NextIDIsFresh | Morchul/CodeManager/Scripts/CodeInspector/CodeInspector.cs:108-111 | the next ID is held by no blocking |
| Inspector.UpgradeLeavesPathOpenToReaders | Morchul/CodeManager/Scripts/CodeInspector/CodeInspector.cs:85-101 | counterexample: after upgrading the only reader, its blocking still says READ and a new reader is admitted |
| Inspector.Upgraded | Morchul/CodeManager/Scripts/CodeInspector/CodeInspector.cs:85-101 | the corrected record: the inspection's blockings on the path become READ_WRITE, all else is kept |
| Inspector.UpgradedKeepsInvariants | Morchul/CodeManager/Scripts/CodeInspector/CodeInspector.cs:85-101 | the corrected upgrade keeps readers-or-one-writer and the ID order |
| Inspector.RecordedUpgradeShutsPath | Morchul/CodeManager/Scripts/CodeInspector/CodeInspector.cs:85-101 | after the corrected upgrade no request on the path is admitted |
| Inspector.CodeInspector.constructor | Morchul/CodeManager/Scripts/CodeInspector/CodeInspector.cs:12-13 | no blockings and the counter at 0 |
| Inspector.CodeInspector.GetNextInspectionID | Morchul/CodeManager/Scripts/CodeInspector/CodeInspector.cs:108-111 | the counter is pre-incremented and its new value, at least 1, is returned |
| Inspector.CodeInspector.InspectText | Morchul/CodeManager/Scripts/CodeInspector/CodeInspector.cs:20-23 | a fresh empty TEXT, READ_WRITE inspection of the text with the next ID; the blockings are unchanged |
| Inspector.CodeInspector.CreateNewFileCodeInspection | Morchul/CodeManager/Scripts/CodeInspector/CodeInspector.cs:119-124 | the blocking is added with the next ID before the inspection is built; the constructor's throw cases are kept; a built inspection holds the file's content, with no pieces, no editation and the default settings |
| Inspector.CodeInspector.AddFileBlocking | Morchul/CodeManager/Scripts/CodeInspector/CodeInspector.cs:121-122 | appends exactly one blocking with the next ID, path and mode |
| Inspector.CodeInspector.InspectFile | Morchul/CodeManager/Scripts/CodeInspector/CodeInspector.cs:31-62 | refused (null, nothing changes) exactly when the path's blockings do not admit the mode; otherwise one blocking is appended and a FILE inspection of that ID, path and mode is returned, holding the file's content, with no pieces, no editation and the default settings |
| Inspector.CodeInspector.StopFileInspection | Morchul/CodeManager/Scripts/CodeInspector/CodeInspector.cs:69-78 | no-op for TEXT or ID 0; otherwise the inspection's blockings are removed and its ID becomes 0 exactly when one was removed |
| Inspector.CodeInspector.GrantWritePermission | Morchul/CodeManager/Scripts/CodeInspector/CodeInspector.cs:85-101 | as written: true for READ_WRITE; false while another inspection blocks the path; otherwise the inspection's own upgrade; the blocking list is never changed |
| Inspector.CodeInspector.GrantWritePermissionRecorded | Morchul/CodeManager/Scripts/CodeInspector/CodeInspector.cs:85-101 | corrected: as GrantWritePermission, and a successful upgrade records READ_WRITE in the inspection's blockings |
| Settings.RegisterAllFrozen | Morchul/CodeManager/Scripts/CodeManagerSettings.cs:59-63 | once Dictionary.Add has thrown, the remaining rules are left as they are |
| Settings.RegisterFacts | Morchul/CodeManager/Scripts/CodeManagerSettings.cs:73-80 | one step appends the rule with at most its ID changed, an existing ID kept; it throws exactly for a valid rule whose ID is already a key |
| Settings.RegisterAllChangesOnlyIDs | Morchul/CodeManager/Scripts/CodeManagerSettings.cs:68-99 | after UpdateRules each rule differs from before at most in its ID, and a rule with an ID keeps it |
| Settings.RegisterAllNumbers | Morchul/CodeManager/Scripts/CodeManagerSettings.cs:75-78 | rules without ID are numbered counter+1, counter+2, ... in processing order, and the counter ends advanced by their number |
| Settings.NewIDsAscend | Morchul/CodeManager/Scripts/CodeManagerSettings.cs:68-99 | a rule processed earlier gets a smaller new ID, all above the starting counter and at most the final one |
| Settings.RegisterAllTable | Morchul/CodeManager/Scripts/CodeManagerSettings.cs:59-63 | every key maps to a valid rule carrying that ID; without a throw every valid rule is stored under its ID |
| Settings.ThrowsIffSharedID | Morchul/CodeManager/Scripts/CodeManagerSettings.cs:59-63 | UpdateRules throws exactly when two valid rules end up with the same ID |
| Settings.RestartedCounterReissuesStoredID | Morchul/CodeManager/Scripts/CodeManagerSettings.cs:30 | counterexample: a counter restarted at 0 reissues the stored ID 1 and Dictionary.Add throws |
| Settings.ResumedRegistration | Morchul/CodeManager/Scripts/CodeManagerSettings.cs:68-99 | with the counter at or above every stored ID, every key is a stored ID of a valid rule or a new ID above the start |
| Settings.ResumedCounterNeverThrows | Morchul/CodeManager/Scripts/CodeManagerSettings.cs:68-99 | with the counter resumed above the stored IDs and distinct stored IDs, the update never throws |
| Settings.CodeManagerSettings.constructor | Morchul/CodeManager/Scripts/CodeManagerSettings.cs:12-31 | no rules dictionary, counter 0, no listeners |
| Settings.CodeManagerSettings.AddReadyListener | Morchul/CodeManager/Scripts/CodeManagerSettings.cs:46-56 | the action runs at once when the dictionary exists, otherwise it is queued; a null action adds nothing |
| Settings.CodeManagerSettings.AddICleanCodeRule | Morchul/CodeManager/Scripts/CodeManagerSettings.cs:59-63 | an invalid rule is skipped; a valid one is added under its ID, throwing on a missing dictionary or an existing key |
| Settings.CodeManagerSettings.UpdateRules | Morchul/CodeManager/Scripts/CodeManagerSettings.cs:68-99 | the dictionary is cleared and left empty when an array is missing; otherwise the arrays, counter and dictionary are those of the rules handled in order, throwing exactly when registration fails |
| Settings.CodeManagerSettings.RegisterUnwantedCodes | Morchul/CodeManager/Scripts/CodeManagerSettings.cs:73-80 | the unwanted-code loop keeps the registration invariant, or throws with the registration failed |
| Settings.CodeManagerSettings.RegisterUnwantedCodeTurn | Morchul/CodeManager/Scripts/CodeManagerSettings.cs:75-79 | one unwanted code is numbered, stored back and registered |
| Settings.CodeManagerSettings.RegisterCodeGuidelines | Morchul/CodeManager/Scripts/CodeManagerSettings.cs:82-89 | the guideline loop continues the registration after the unwanted codes |
| Settings.CodeManagerSettings.RegisterCodeGuidelineTurn | Morchul/CodeManager/Scripts/CodeManagerSettings.cs:84-88 | one guideline is numbered, stored back and registered |
| Settings.CodeManagerSettings.RegisterCodeDocumentations | Morchul/CodeManager/Scripts/CodeManagerSettings.cs:91-98 | the documentation loop finishes the registration |
| Settings.CodeManagerSettings.RegisterCodeDocumentationTurn | Morchul/CodeManager/Scripts/CodeManagerSettings.cs:93-97 | one documentation rule is numbered, stored back and registered |
| Settings.CodeManagerSettings.UpdateRulesResumingCounter | Morchul/CodeManager/Scripts/CodeManagerSettings.cs:68-99 | corrected: the counter resumes at the highest stored ID, and with distinct stored IDs the update never throws |
| Settings.CodeManagerSettings.OnEnable | Morchul/CodeManager/Scripts/CodeManagerSettings.cs:35-44 | with no dictionary yet, rules are built; on success every queued action has run once and the queue is empty; on a throw the queue is kept |
| SettingsWindow.ReindexedFollowsRegex | Morchul/CodeManager/Editor/CodeManagerSettingsWindow.cs:469-529 | a rule on a surviving regex points at the same regex in the shortened list; one on the deleted regex, or none, points at none |
| SettingsWindow.ReindexUnwantedValidity | Morchul/CodeManager/Editor/CodeManagerSettingsWindow.cs:471-484 | an unwanted code stays valid exactly when its regex survives; its other fields are kept |
| SettingsWindow.ReindexDocumentationValidity | Morchul/CodeManager/Editor/CodeManagerSettingsWindow.cs:486-499 | a documentation rule stays valid exactly when its regex survives; its other fields are kept |
| SettingsWindow.ReindexGuidelineValidity | Morchul/CodeManager/Editor/CodeManagerSettingsWindow.cs:501-525 | a guideline stays valid exactly when neither regex was the deleted one; its other fields are kept |
| SettingsWindow.RemoveRegexIndex | Morchul/CodeManager/Editor/CodeManagerSettingsWindow.cs:469-529 | every index equal to the deleted one becomes -1, every greater one drops by one, others are kept, for all three arrays in order; a missing array is a NullReferenceException there |
| SettingsWindow.RemoveRegexKeepsRange | Morchul/CodeManager/Editor/CodeManagerSettingsWindow.cs:469-529 | indexes in [-1, n) before deleting one of n regexes are in [-1, n-1) after |
| SettingsWindow.GetRegexNames | Morchul/CodeManager/Editor/CodeManagerSettingsWindow.cs:707-715 | a fresh array of the same length holding each regex's name at its index |
| ScriptCreation.IsDefaultPlaceholderName | Morchul/CodeManager/Editor/Util/ScriptCreator.cs:16-31 | true exactly for ScriptName and TemplateName |
| ScriptCreation.ValueOfIsFirstMatch | Morchul/CodeManager/Editor/Util/ScriptCreator.cs:164-172 | the value found is that of the first placeholder with the name |
| ScriptCreation.ValueOfAbsent | Morchul/CodeManager/Editor/Util/ScriptCreator.cs:164-172 | null when no placeholder has the name |
| ScriptCreation.FindPlaceholderValue | Morchul/CodeManager/Editor/Util/ScriptCreator.cs:164-172 | the search loop returns the reference lookup |
| ScriptCreation.LoadPlaceholderValues | Morchul/CodeManager/Editor/Util/ScriptCreator.cs:133-156 | false and an empty array without settings; otherwise user entries slot for slot with default names masked, then ScriptName and TemplateName |
| ScriptCreation.MaskedHasNoDefaultName | Morchul/CodeManager/Editor/Util/ScriptCreator.cs:143-148 | no user slot carries a default name |
| ScriptCreation.MaskedKeepsOtherNames | Morchul/CodeManager/Editor/Util/ScriptCreator.cs:143-148 | lookups of any other name are unaffected by the masking |
| ScriptCreation.LoadedDefaultsWin | Morchul/CodeManager/Editor/Util/ScriptCreator.cs:150-153 | ScriptName and TemplateName look up the values passed in, whatever the user entries say |
| ScriptCreation.LoadedUserEntries | Morchul/CodeManager/Editor/Util/ScriptCreator.cs:143-148 | every other name looks up the user's value |
| ScriptCreation.PlaceholderName | Morchul/CodeManager/Editor/Util/ScriptCreator.cs:102 | the name is the match text without its first and last character |
| ScriptCreation.FilledKeepsShape | Morchul/CodeManager/Editor/Util/ScriptCreator.cs:98-110 | filling keeps the literal runs and the match list, and each placeholder becomes its non-empty value |
| ScriptCreation.DefaultPlaceholdersFilled | Morchul/CodeManager/Editor/Util/ScriptCreator.cs:16 | %ScriptName% and %TemplateName% fill with the given names; an empty script name leaves %ScriptName% unfillable |
| ScriptCreation.FillPlaceholders | Morchul/CodeManager/Editor/Util/ScriptCreator.cs:98-110 | succeeds exactly when every found placeholder has a non-empty value; then each piece's text is its value |
| ScriptCreation.FoundPiecesReady | Morchul/CodeManager/Editor/Util/ScriptCreator.cs:88-100 | the nodes FindAll returns are distinct list pieces holding their match text |
| ScriptCreation.FillableIffFound | Morchul/CodeManager/Editor/Util/ScriptCreator.cs:98-110 | every placeholder segment is fillable exactly when every returned node is |
| ScriptCreation.FillInspection | Morchul/CodeManager/Editor/Util/ScriptCreator.cs:98-110 | the loop over the found pieces fills exactly when all are fillable, and the pieces then read as the filled cut |
| ScriptCreation.FillAndCommit | Morchul/CodeManager/Editor/Util/ScriptCreator.cs:98-112 | after the loop and Commit, CompleteCode is the filled cut joined |
| ScriptCreation.CreateNewScript | Morchul/CodeManager/Editor/Util/ScriptCreator.cs:77-125 | nothing, and no ID taken, when the file exists; otherwise one inspection ID is taken (InspectText) and the outcome is the reference ScriptFor of the template's placeholder matches |
| ScriptCreation.FillTemplate | Morchul/CodeManager/Editor/Util/ScriptCreator.cs:90-113 | loading values, filling and committing give the reference outcome of the cut template |
| ScriptCreation.ScriptFromInspection | Morchul/CodeManager/Editor/Util/ScriptCreator.cs:87-118 | FindAll of the placeholder pattern, then filling, gives the reference outcome |
| ScriptCreation.ScriptFromPlaceholders | Morchul/CodeManager/Editor/Util/ScriptCreator.cs:88-118 | with the template cut: no placeholders writes the template; otherwise the filled template |
| ScriptCreation.ScriptForFillsEachPlaceholder | Morchul/CodeManager/Editor/Util/ScriptCreator.cs:86-118 | with placeholders, a script is written exactly when all are fillable; it is the template with each placeholder replaced by its value and every literal run kept |

## Left out

- The regex engine is not modelled. A compiled regex with its options is the abstract function `Regex = string -> seq<RegexMatch>`, and the model relies only on `Sound`: every reported match lies in the text and carries its text. `IsValidRegex`, regex options other than RightToLeft, and timeouts are not modelled.
- The fixed placeholder pattern `%.*%` is the `placeholderRegex` parameter. Of it the model assumes only `PlaceholderPattern`: each match is at least two characters long, as a match of `%.*%` is. Under that assumption the `Substring(1, Length - 2)` of a shorter match cannot occur.
- `ScriptFor` has a throw case for placeholder matches that are out of order. A real `Regex.Matches` enumeration never produces that case.
- File I/O:
  - the content `ReadFile` returns is the `fileContent` parameter (None for an unreadable file);
  - a write is the `Host` parameter, which holds the platform newline and whether the write succeeds;
  - `File.Exists` is the `fileExists` parameter;
  - the StreamWriter output of `CreateNewScript` is the returned `NewScript` value, and the trailing newline `WriteLine` adds is left out;
  - `AssetDatabase`, `Debug.Log` and all GUI code are left out.
- Newline normalisation (the `Regex.Replace` to `Environment.NewLine` in WriteFile) is the function `NormalizeNewlines`, which rewrites `\r\n`, `\r` and `\n` to the host newline.
- The registry and the settings were static singletons and Unity assets; here they are explicit objects. Unity serialisation is not modelled. The one place it matters, the unserialised rule counter, is treated under Findings.
- Both counters are unbounded naturals. The uint wrap-around of `inspectionIDCounter` and `rulesIDCounter` is not modelled.
- Null strings and arrays are modelled with `Option` or `array?` where the source tests for null (among them the `pathOrText` argument of the inspection constructor, see `Inspection.NewCodeInspection`). Elsewhere a string argument is taken to be non-null.
- CodeInspector.InspectText and CodeInspector.InspectFile take a non-null string: a null text or path, which the inspection constructor refuses with an ArgumentException (CodeInspection.cs:58, 83), is not modelled at these two entry points.
- Inspection.CodeInspection.GetLineIndex: a node that belongs to another inspection's live list is answered as if it were detached (1). The source walks that node's `Previous` chain through the other list (CodeInspection.cs:155-162). The model has no view of other inspections' lists, and no caller passes a foreign node.
- Ready listeners are opaque `ReadyAction` values. Firing one is recorded in the ghost history `invoked`; what a listener does is not modelled.
- The rule structs are values: `SetID` on a struct returns the updated struct, and the loops store it back into the array, as the C# code does.
- LoadSettings is the `settings` parameter of `CreateNewScript` (None when the asset is missing). A settings asset whose Placeholders array is null is not modelled.
- LoadPlaceholderValues is modelled with at most two default values, the two CreateNewScript passes (`requires |defaultValues| <= 2`).
- CreateNewScriptTemplate, the folder scanners, the clean-code console and the other editor windows are not modelled. They are orchestration and UI over the modelled core.
- The right-to-left cut is not modelled. The source has it commented out, and FindAll refuses RightToLeft, which the model keeps.
- CodeManagerUtility.ConvertToOpertingSystemPath: requires a non-empty path, where the source would throw on `str[str.Length - 1]`.
- CodeManagerUtility.GetFileNameInPathWithoutExtension: requires a '.' in the file name, where the source would throw on `Substring(0, -1)`.
- CleanCode.UnwantedCode.GetID, CleanCode.CodeGuideline.GetID, CleanCode.CodeDocumentation.GetID and the other plain getters (IsValid, GetName, GetType) carry no contract of their own: each is a single field read or constant. Their meaning is stated where they do work: GetID by the `SetID` contracts and `CleanCode.SetIDRoundTrip`, IsValid and GetID by `Settings.RegisterAllTable` and `Settings.ThrowsIffSharedID`, GetType by `CleanCode.CleanCodeRule.GetType`.
- Inspection.CodeInspection.CurrentCode is the joined piece texts. `CreateCurrentCode` skips empty pieces, which does not change the join.

## Findings

| source | as written | input that shows it | evidently intended | confidence | as-written member | corrected member |
|---|---|---|---|---|---|---|
| Morchul/CodeManager/Scripts/CodeInspector/CodeInspector.cs:85-101 | The registry grants the upgrade and leaves the inspection's stored blocking at READ. | Blockings [(1, "Assets/A.cs", READ)]. Inspection 1 is upgraded to READ_WRITE. A new `InspectFile("Assets/A.cs", READ)` is still admitted beside the writer. | The blocking is recorded as READ_WRITE, so the path stays shut while the writer is open. | not executed | Inspector.CodeInspector.GrantWritePermission, Inspector.UpgradeLeavesPathOpenToReaders | Inspector.CodeInspector.GrantWritePermissionRecorded, Inspector.RecordedUpgradeShutsPath |
| Morchul/CodeManager/Scripts/CodeManagerSettings.cs:30 | `rulesIDCounter` is a private field that is not serialised, so it restarts at 0 after a reload while the rules keep their stored IDs. | UnwantedCodes [("Debug", regex 0, ID 1), ("Find", regex 1, ID 0)] with the counter at 0. "Find" is numbered 1, and `Dictionary.Add` throws on the duplicate key. | The counter resumes above every stored ID, so a new ID is never one already in use. | not executed | Settings.RestartedCounterReissuesStoredID, Settings.CodeManagerSettings.UpdateRules | Settings.CodeManagerSettings.UpdateRulesResumingCounter, Settings.ResumedCounterNeverThrows |
