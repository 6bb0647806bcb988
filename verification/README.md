# Verified model of the StackOwl assistant's core protocols

This project models, in Dafny, the parts of the StackOwl personal assistant whose correctness is not
visible from reading one function, and proves what they promise for every input, every run or every
interleaving. `dafny verify dfyconfig.toml` checks the whole project.

* **The tamper-evident audit log** (`Payload`, `AuditChain`, `AuditWriters`, `AuditLog`, `Retention`).
  SHA-256 and the text of a timestamp are function values; the hash is assumed nonempty and
  collision-free only on the finite set of payloads in play. The payload is uniquely decodable, the
  last hash pins the whole history, locked writers keep the chain intact under every interleaving,
  the first insert that raced is the row verification names, and pruning keeps the chain verifiable
  exactly when what it removes is a suffix of the log.
* **Standing authority** (`JsonText`, `StandingAuthority`, `DeliveryGrandfather`). Grants, two-step
  revokes and other audit writers, locked or not, interleave freely; the table can always be replayed
  from the log, and the log verifies exactly when no unlocked insert was overtaken.
* **Graph walks** (`ImportCycles`, `SpanDepth`): soundness and completeness of the cycle detector,
  and the memoised span depth on every parent relation, cyclic or not.
* **Text** (`Text`, `Lines`, `Splitter`, `Tables`, `TableRender`): the message splitter with its
  regular expressions written out as scanners, and the fence-aware table rewriter and its two
  renderers.
* **Small protocols** (`SkillsMigration`, `EphemeralAcks`, `IdentityRelink`): the copy/verify/remove
  migration with a crash at any point, request/ack correlation, and in-place re-keying under a
  UNIQUE constraint.

State that the source updates in place is a class whose methods are proved against functions on
values; the theorems are about those functions and about runs of them.

## Where the documentation claims more than the code gives

* `splitter.py` says that code fences are never severed. `SeveredExactly` says exactly when one is: a
  forced cut severs one when an odd number of markers precedes the limit, any other cut when a link
  across the cut of the fence retreat holds an odd number of markers in front of it.
  `ForcedCutSeversLongFence` and `UnforcedCutSeversFence` are texts of either kind. It also says that only
  whitespace at split boundaries is lost; `Split` shows that leading whitespace is lost in exactly one
  case, a blank first window.
* `paths.py` says that a crash mid-copy is harmless because the migration re-runs. `RerunReachesSameTarget`
  shows the one exception: a top-level file torn by the crash counts as already there and is kept.
* `identity_cli.py` calls `relink` idempotent. `IdempotentIffChainsRest` says exactly for which
  lists of aliases it is; without alias cycles it is so exactly when no identity is a handle of the same
  or an earlier alias (`IdempotentIffNoEarlierHandle`). `ChainedAliasesNotIdempotent` is a dictionary for
  which it is not.
* `standing_authority.py` says `json.dumps` escapes colons. It does not; `TargetInjective` rests on
  quoting and escaping of quotes and backslashes.
* `tests/test_c7_f130b_multi_writer_chain.py` promises that the chain verifies after a prune.
  `VerdictAfterPrune` and `NoOrphanIffPrunedSuffix` show that this holds exactly when the pruned rows
  are a suffix of the log; removing anything in front of a row that stays breaks it.
* `logger.py` says that the version literal keeps v1 and v2 payloads apart. That holds behind a hash
  (`HashedV1NeverReadsAsV2`) but not for a first row (`FirstV1MayReadAsV2`), where it takes an event type
  that itself starts with the version literal (`FirstV1ReadsAsV2OnlyIf`).

No document promises that `flatten_gfm_tables` is idempotent, as `tables_to_plain_list` is
(`PlainListIdempotent`); `FlattenIdempotentIff` gives the exact condition.

## Model

| member | source | states |
|---|---|---|
| Payload.LengthPrefixedCancels | src/stackowl/audit/logger.py:45-48 | a length-prefixed field can be read off the front of any text in only one way, up to `None` being the empty string |
| Payload.PayloadDecodesUniquely | src/stackowl/audit/logger.py:51-78 | two v2 payloads are equal exactly when previous hash, event type, actor, target, time text and details agree, whatever digits, colons or separators they contain |
| Payload.PayloadText | src/stackowl/audit/logger.py:67-77 | the six fields stand behind the version literal in order, each separated and length-prefixed |
| Payload.V1PayloadsAgreeIff | src/stackowl/audit/logger.py:88 | behind one predecessor hash two v1 payloads agree exactly when type, time and details read the same in a row |
| Payload.HashedV1NeverReadsAsV2 | src/stackowl/audit/logger.py:63-65 | behind a hexadecimal hash no v1 payload equals a v2 payload |
| Payload.FirstV1MayReadAsV2 | src/stackowl/audit/logger.py:88-89 | with no hash in front, for every v2 payload whose details hold a time text anywhere some v1 event type gives the same payload |
| Payload.FirstV1ReadsAsV2OnlyIf | src/stackowl/audit/logger.py:63-89 | such an event type always starts with the version literal and the separator, so any other first row is kept apart too |
| AuditChain.EventPayloadDecodes | src/stackowl/audit/logger.py:67-77 | the same for whole events: equal payloads mean the same predecessor and the same record |
| AuditChain.LinkedIff | src/stackowl/audit/logger.py:376-403 | what verification recomputes for a row: the v2 payload for version "v2", the v1 concatenation for every other, from the previous row's hash |
| AuditChain.RewrittenRowIsNamed | src/stackowl/audit/logger.py:376-403 | rewriting the record of one row of a verified log, v1 or v2, makes verification name that row exactly when the record differs |
| AuditChain.PrevHashesDistinct | src/stackowl/audit/logger.py:376-403 | in a verified v2 log all predecessor hashes are pairwise distinct, the empty start included |
| AuditChain.TailHashPinsHistory | src/stackowl/audit/logger.py:349-410 | two verified v2 logs that end in the same hash have the same length, the same hashes and the same records row by row |
| AuditChain.InsertLinkedIff | src/stackowl/audit/logger.py:278-299 | an inserted v2 row chains exactly when the hash its writer read is the tail it lands behind |
| AuditChain.AppendKeepsVerified | src/stackowl/audit/logger.py:263-304 | a row chained off the tail keeps any verified log verified, v1 rows included |
| AuditChain.VerdictAfterInsert | src/stackowl/audit/logger.py:131-151 | inserting behind a read at any position keeps the verdict, unless the log verified and has grown since the read: then the new row is named |
| AuditWriters.LockedRunsStayVerified | src/stackowl/audit/logger.py:263-304 | every interleaving of writers that read and insert under the lock, rollbacks included, ends in a verified log, from any verified log with v1 rows allowed |
| AuditWriters.VerdictNamesFirstStaleInsert | src/stackowl/audit/logger.py:92-153 | over every interleaving of locked and unlocked writers on a verified v2 log, verification passes exactly when no insert landed behind unread rows, and otherwise names the first such row |
| AuditWriters.StaleIsTheRacedRow | src/stackowl/audit/logger.py:131-151 | the row so named is the one of the unlocked writer whose snapshot was overtaken |
| AuditWriters.EveryInsertIsRecorded | src/stackowl/audit/logger.py:131-151 | over every run the log is the old one followed by the events of the inserts, in order and with consecutive ids |
| AuditLog.AuditLogger.Append | src/stackowl/audit/logger.py:240-315 | the log grows by one row chained off the tail with the next id, and a verified log stays verified |
| AuditLog.AuditLogger.VerifyChain | src/stackowl/audit/logger.py:349-410 | accepts exactly the logs in which every row chains, and otherwise returns the id of the first row that does not |
| Retention.TwoDeletesLeaveSurvivors | src/stackowl/audit/retention.py:110-119 | the two DELETE statements together remove exactly the rows past the cutoff of their own kind |
| Retention.StaysIff | src/stackowl/audit/retention.py:110-119 | a row stays exactly when it is not older than its cutoff: the deletion cutoff for "row.deleted", the ordinary one otherwise |
| Retention.PastPlusSurvivors | src/stackowl/audit/retention.py:91-97 | the count taken beforehand is the number of rows that go |
| Retention.KeptRowSurvives | src/stackowl/audit/retention.py:110-119 | every row not past its own cutoff stays, at a definite new position |
| Retention.KeptRowsKeepOrder | src/stackowl/audit/retention.py:110-119 | kept rows keep their order |
| Retention.Origin | src/stackowl/audit/retention.py:110-119 | every row that stays is a kept row of the old log |
| Retention.VerdictAfterPrune | src/stackowl/audit/retention.py:187-224 | after pruning a verified v2 log, verification passes exactly when no survivor lost its immediate predecessor |
| Retention.FirstOrphanIsNamed | src/stackowl/audit/retention.py:103-149 | otherwise verification names the first survivor that lost its immediate predecessor |
| Retention.NoOrphanIffPrunedSuffix | src/stackowl/audit/retention.py:91-119 | no survivor loses its predecessor exactly when the pruned rows are a suffix of the log |
| Retention.OldestTimestamp | src/stackowl/audit/retention.py:136-142 | the minimum timestamp of the kept rows, none when nothing is kept |
| Retention.Prune | src/stackowl/audit/retention.py:64-162 | leaves exactly the rows not older than their cutoff and one "system_audit_prune" record chained off their tail, with the count and the oldest kept time, and returns the number removed |
| JsonText.ReadCharRoundTrip | src/stackowl/authz/standing_authority.py:93-103 | every character, surrogate pairs included, can be read back off its JSON escape |
| JsonText.QuoteCancels | src/stackowl/authz/standing_authority.py:93-103 | a quoted JSON string can be read off the front of any text in only one way |
| JsonText.PlainQuote | src/stackowl/authz/standing_authority.py:93-103 | printable text without quotes and backslashes is quoted as it stands |
| StandingAuthority.TargetInjective | src/stackowl/authz/standing_authority.py:93-103 | two triples have the same target exactly when they are equal |
| StandingAuthority.TargetText | src/stackowl/authz/standing_authority.py:93-103 | the target of a plain triple is the JSON array of kind, id and command type |
| StandingAuthority.DetailsText | src/stackowl/authz/standing_authority.py:163-170 | the details of both events hold each value under its own key, keys sorted |
| StandingAuthority.RunsReplay | src/stackowl/authz/standing_authority.py:141-172 | every interleaving of grants, two-step revokes and other audit writers, locked or not, keeps the table replayable from the log |
| StandingAuthority.EveryRunReplays | src/stackowl/authz/standing_authority.py:141-172 | from the empty database a triple is active exactly when the last authority event with its target is a grant |
| StandingAuthority.LockedRunsVerify | src/stackowl/authz/standing_authority.py:162-172 | without unlocked inserts every run keeps a verified log verified, v1 rows included |
| StandingAuthority.RunsVerdict | src/stackowl/audit/logger.py:92-153 | with them, a verified v2 log still verifies exactly when no insert was overtaken; otherwise the first overtaken row is named, and it is never a grant or a revoke |
| StandingAuthority.GrantKeepsReplay | src/stackowl/authz/standing_authority.py:141-172 | the grant transaction keeps the table replayable |
| StandingAuthority.RevokeKeepsReplay | src/stackowl/authz/standing_authority.py:232-274 | the revoke transaction keeps the table replayable |
| StandingAuthority.CloseAll | src/stackowl/authz/standing_authority.py:237-242 | closes every active row of the triple and no other row |
| StandingAuthority.RevokedAtIsSetOnce | src/stackowl/authz/standing_authority.py:232-242 | over every run no row is lost and `revoked_at` is set at most once and never cleared or changed |
| StandingAuthority.RevokedEventClosesAll | src/stackowl/authz/standing_authority.py:237-274 | a revoked event is written only by a commit that closes at least one row, and no row of that triple is active right after it |
| StandingAuthority.RacingRevokesWriteOneEvent | src/stackowl/authz/standing_authority.py:218-280 | however many revokes race, without an intervening grant exactly one revoked event is written if the triple was active and a revoke commits, else none |
| StandingAuthority.PendingWasRead | src/stackowl/authz/standing_authority.py:218-236 | over every run a revoke that has yet to commit holds its own actor and a grant that was newest and active when it was read |
| StandingAuthority.CommitRecords | src/stackowl/authz/standing_authority.py:237-274 | its revoked event carries that actor, that grant's id and the triple's target |
| StandingAuthority.NewestGrantIsFound | src/stackowl/authz/standing_authority.py:119-127 | a grant newer than every active one of its triple is the one `find_active` returns |
| StandingAuthority.AuthorityDb.FindActive | src/stackowl/authz/standing_authority.py:283-322 | none exactly when nothing is active, else an active row no active row is newer than |
| StandingAuthority.AuthorityDb.Grant | src/stackowl/authz/standing_authority.py:106-182 | adds exactly the returned row and one chained "authority_granted" event with the actor, target and time; if newer than the active ones it is what is found next |
| StandingAuthority.AuthorityDb.Revoke | src/stackowl/authz/standing_authority.py:185-280 | closes every active row of the triple and no other and records one "authority_revoked" event with the actor and the newest grant's id; a no-op returning none exactly when nothing was active |
| DeliveryGrandfather.PassGrantsWhatLacks | src/stackowl/authz/delivery_grandfather.py:99-129 | a pass adds exactly one active row for each needed triple that lacked one, keeps all old rows, and changes the activity of no other triple |
| DeliveryGrandfather.NeededExactly | src/stackowl/authz/delivery_grandfather.py:39-53 | exactly the enabled jobs whose handler is one of the four mapped ones need a grant, each for its own command type |
| DeliveryGrandfather.SecondPassAddsNothing | src/stackowl/authz/delivery_grandfather.py:89-136 | an immediate second pass changes nothing |
| DeliveryGrandfather.PassKeepsReplayAndChain | src/stackowl/authz/delivery_grandfather.py:118-122 | after any earlier run the pass keeps the table replayable and the log verified |
| DeliveryGrandfather.GrandfatherExistingJobs | src/stackowl/authz/delivery_grandfather.py:89-136 | performs that pass and returns the number of triples that lacked a grant |
| DeliveryGrandfather.SeedJobDeliveryAuthority | src/stackowl/authz/delivery_grandfather.py:56-86 | adds one "seeded" grant by "autonomous" unless the triple is active already, so it ends active and a repeat changes nothing |
| ImportCycles.FindCycles | scripts/boundaries/b1.py:41-63 | every list it returns is a simple cycle, no edge closes two of them, and every directed cycle of the graph passes the closing edge of one; so no list exactly when there is no cycle |
| ImportCycles.CycleFinder.Dfs | scripts/boundaries/b1.py:47-58 | terminates also for neighbours that are no keys, restores path and stack, finishes the node, reports each edge back into the path once, and keeps the white/grey/black invariant |
| ImportCycles.EveryCyclePasses | scripts/boundaries/b1.py:51-63 | when every neighbour is finished before its node or reached by a reported closing edge, every cycle passes such an edge |
| ImportCycles.CycleFinder.BackEdgeClosesCycle | scripts/boundaries/b1.py:54-56 | the reported slice of the path plus the neighbour is a simple cycle |
| SpanDepth.DepthMap | src/stackowl/cli/trace_cli.py:54-76 | terminates on every parent relation; a span whose first entry has no parent or an empty one has depth 0, any other is one deeper than its parent or is cut to 0 on a cycle |
| SpanDepth.DepthMapper.Depth | src/stackowl/cli/trace_cli.py:64-72 | memoises exactly one parent chain, each span one deeper than the next |
| SpanDepth.CollectParents | src/stackowl/cli/trace_cli.py:56-60 | the first entry naming a span decides its parent |
| SpanDepth.DepthCountsLinks | src/stackowl/cli/trace_cli.py:64-72 | on a chain that ends the depth is the number of parent links to the root |
| SpanDepth.OneCutPerCycle | src/stackowl/cli/trace_cli.py:68-71 | exactly one span of each cycle has depth 0 |
| SpanDepth.WalkKeepsCorrect | src/stackowl/cli/trace_cli.py:64-75 | a whole walk keeps depths correct: every other span is one deeper than its parent, and only spans on a cycle are cut |
| Splitter.Split | src/stackowl/channels/splitter.py:50-89 | terminates; chunks are nonempty, trimmed, within the limit and end at the chosen cuts; the text is the chunks in order with only whitespace around them, in front of the first one exactly when the first window is blank |
| Splitter.ChunkEndsAtCut | src/stackowl/channels/splitter.py:50-89 | every returned chunk but the last ends at the cut that `CutIsDescribed` describes for what remained: forced or splitting no link, and severing a fence exactly in the cases of `SeveredExactly` |
| Splitter.ChunksAreTrimmed | src/stackowl/channels/splitter.py:76-87 | no chunk but the first starts with whitespace and none but the last ends in it |
| Splitter.WeaveKeepsNonSpace | src/stackowl/channels/splitter.py:50-89 | the non-whitespace characters of the chunks are those of the text, in the same order |
| Splitter.ChooseCut | src/stackowl/channels/splitter.py:91-111 | the loops find the cut that `CutIsDescribed` describes |
| Splitter.CutIsDescribed | src/stackowl/channels/splitter.py:91-162 | the last paragraph end within 400 characters of the limit, else the last sentence end, else the limit; back to the opening marker when inside a fence, back to the start of a link when inside one, and the limit if that is zero |
| Splitter.CutIsForcedOrClean | src/stackowl/channels/splitter.py:91-111 | every cut is the forced hard cut or splits no link, and when the link retreat did not move it an even number of fence markers precedes it |
| Splitter.SeveredExactly | src/stackowl/channels/splitter.py:91-162 | an odd number of markers precedes the cut exactly when: forced, an odd number precedes the limit; unforced, a link straddles the cut of the fence retreat and holds an odd number of markers in front of it |
| Splitter.UnforcedCutLeavesFencesWhole | src/stackowl/channels/splitter.py:130-162 | an unforced cut severs a fence only if some link contains a backtick |
| Splitter.UnforcedCutSeversFence | src/stackowl/channels/splitter.py:140-162 | a text whose unforced cut severs a fence |
| Splitter.ForcedExactly | src/stackowl/channels/splitter.py:99-111 | the hard cut is forced exactly when the first marker's fence is still open at the preferred cut or a link at the very start would be split |
| Splitter.ForcedCutSeversLongFence | src/stackowl/channels/splitter.py:105-111 | a fence longer than the limit is severed |
| Splitter.FenceParityEven | src/stackowl/channels/splitter.py:130-138 | after the fence retreat an even number of complete markers precedes the cut |
| Splitter.RetreatSplitsNothing | src/stackowl/channels/splitter.py:140-162 | after the link retreat no span of the ordered, disjoint scan straddles the cut |
| Splitter.Links | src/stackowl/channels/splitter.py:25-30 | the scan yields ordered, disjoint, nonempty spans inside the text |
| Splitter.LinkAtIffPattern | src/stackowl/channels/splitter.py:30 | the scanner accepts exactly the texts that one of the two link patterns describes |
| Splitter.LinksMissNone | src/stackowl/channels/splitter.py:152 | every link of the text is in the scan or starts inside one that is |
| Splitter.FencesMissNone | src/stackowl/channels/splitter.py:133 | every fence marker before the cut is counted or overlaps one that is |
| Splitter.FindParagraphCut | src/stackowl/channels/splitter.py:113-120 | the end of the last paragraph break in the lookback window |
| Splitter.FindSentenceCut | src/stackowl/channels/splitter.py:122-128 | the end of the last whitespace run that follows a sentence terminator |
| Splitter.FindLinkRetreat | src/stackowl/channels/splitter.py:140-162 | the loop that stops at the first later span finds the straddling link, if any |
| Tables.ParseKeepsEveryLine | src/stackowl/channels/_format.py:75-111 | the scan loses, repeats and moves no line: its blocks are the lines in order |
| Tables.TransformTables | src/stackowl/channels/_format.py:67-111 | each table outside fences is replaced by its rendering and every other line survives in order |
| Tables.NoBarNoTable | src/stackowl/channels/_format.py:73-74 | the early return for text without a bar agrees with the full scan |
| Tables.NoTableNoChange | src/stackowl/channels/_format.py:67-111 | text without a table outside fences is returned unchanged |
| Tables.FindsTableIff | src/stackowl/channels/_format.py:80-101 | the scan finds a table exactly when, outside the fences, a row that is no delimiter row stands above a delimiter row |
| Tables.FirstTableIsRendered | src/stackowl/channels/_format.py:93-112 | the first table becomes the rendering of its header's and rows' cells; the lines in front stay and the rest is rewritten by itself |
| Tables.TableRowIff | src/stackowl/channels/_format.py:29-30 | a table row is a line whose first character that is no whitespace is a bar |
| Tables.DelimiterCellIff | src/stackowl/channels/_format.py:26-41 | a delimiter cell is at least one dash with at most one colon on either side |
| Tables.OutputHasNoTableIff | src/stackowl/channels/_format.py:67-111 | for any renderer whose output holds no table row, the rewritten text has no table outside fences exactly when no table inside a source fence is exposed by renderings with an odd number of fence lines |
| TableRender.RenderPlainList | src/stackowl/channels/_format.py:119-130 | the loops build one bullet for each body row, or one for the header alone |
| TableRender.CellsRoundTrip | src/stackowl/channels/_format.py:33-34 | cells written between bars read back without the whitespace around each when the outer two are not empty |
| TableRender.CellsHaveNoBar | src/stackowl/channels/_format.py:33-34 | no cell contains a bar |
| TableRender.PlainListHasNoBar | src/stackowl/channels/_format.py:119-130 | the plain list of a table has no bar left |
| TableRender.BulletHoldsCell | src/stackowl/channels/_format.py:124-129 | each body cell is written in its row's bullet, behind its own column's header |
| TableRender.HeaderBulletHoldsCell | src/stackowl/channels/_format.py:121-122 | each nonempty header cell of a table without rows is written in its one bullet |
| TableRender.NonEmptyConcat | src/stackowl/channels/_format.py:121-122 | the nonempty header cells are taken in order |
| TableRender.PlainListIdempotent | src/stackowl/channels/_format.py:133-140 | `tables_to_plain_list` is idempotent and its output has no table outside fences |
| TableRender.TablesToPlainList | src/stackowl/channels/_format.py:133-140 | performs that rewriting |
| TableRender.FlattenGfmTables | src/stackowl/channels/_format.py:44-64 | rewrites with the width-bounded rendering |
| TableRender.RowsAreAligned | src/stackowl/channels/_format.py:651-662 | in the emitted lines every cell that is not blank stands, up to its own trailing blanks, at its column's offset; before the cut every row is exactly as wide as the block |
| TableRender.LinesFitBlock | src/stackowl/channels/_format.py:625-662 | every line between the fences is at most the computed block width |
| TableRender.AutoFitsScreen | src/stackowl/channels/_format.py:634-648 | a table becomes the aligned block of its stripped cells exactly when a padded row takes at most 36 characters, and then no line is longer; otherwise the plain list |
| TableRender.WidthsAreAttained | src/stackowl/channels/_format.py:653-655 | no column is wider than its widest cell and there are no more columns than the longest row has |
| TableRender.RuleUnderlinesColumns | src/stackowl/channels/_format.py:660 | the rule has each column's dashes at the column's offset |
| TableRender.LineIsFenceIff | src/stackowl/channels/_format.py:657-660 | an emitted row is a fence line exactly when the first of its cells that is not blank starts with a fence marker |
| TableRender.BlockFlipsIff | src/stackowl/channels/_format.py:651-662 | a block changes the fence state behind it exactly when an odd number of its rows do so |
| TableRender.FlattenIdempotentIff | src/stackowl/channels/_format.py:44-64 | a second `flatten_gfm_tables` changes nothing exactly when no table inside a code block is exposed by tables that fit the screen and have an odd number of marker rows |
| TableRender.FlattenIdempotent | src/stackowl/channels/_format.py:44-64 | in particular when no stripped cell starts with a fence marker |
| TableRender.FlattenUnchangedIff | src/stackowl/channels/_format.py:44-64 | `flatten_gfm_tables` returns a text unchanged exactly when it has no table outside fences |
| TableRender.FlattenNotIdempotent | src/stackowl/channels/_format.py:82-87 | a text on which a second pass changes the result |
| SkillsMigration.CopyAllMerges | src/stackowl/paths.py:490-500 | in whatever order the paths are copied the target ends as the path-by-path merge |
| SkillsMigration.MergeKeepsBoth | src/stackowl/paths.py:490-500 | the merge has exactly the paths of both trees, legacy ones with legacy content unless a different file was there directly under the target; the rest of the target is kept |
| SkillsMigration.CountCheckPasses | src/stackowl/paths.py:502-514 | the file count check always passes once the copies succeed |
| SkillsMigration.RerunReachesSameTarget | src/stackowl/paths.py:490-500 | re-running from any crash point reaches the same target unless, exactly, the crash tore a top-level file |
| SkillsMigration.RerunAfterPartialRemoval | src/stackowl/paths.py:516 | a crash during removal leaves a state that a re-run does not change |
| SkillsMigration.Home.MigrateLegacySkills | src/stackowl/paths.py:458-523 | the legacy tree is untouched at every crash point before the removal and when a file blocks a directory, which is when the copy raises; completion means the merge is in place and the count check passed, which it always does without name clashes |
| EphemeralAcks.RunsKeepInv | src/stackowl/channels/socket_adapter.py:161-204 | over every interleaving each call returns the sentinel or the id of the first ack carrying its own request id since it started, and the waiter map holds exactly the requests in flight |
| EphemeralAcks.ReturnAckDelivers | src/stackowl/channels/socket_adapter.py:188-195 | a call that is answered returns that first own ack, never the sentinel instead |
| EphemeralAcks.CancelledOnlyByTimeout | src/stackowl/channels/socket_adapter.py:188-190 | the future of a call in flight is cancelled only by its own timeout |
| EphemeralAcks.AckInTimeIsDelivered | src/stackowl/channels/socket_adapter.py:53-58 | an ack that arrives before the timeout resolves the call, which then returns the first one's message id |
| EphemeralAcks.NoLeakedWaiters | src/stackowl/channels/socket_adapter.py:203-204 | once every call has finished the waiter map is empty |
| EphemeralAcks.ResolvedAtMostOnce | src/stackowl/channels/socket_adapter.py:53-58 | a future that is done and a call that has finished never change again |
| EphemeralAcks.Waiters.BeginSend | src/stackowl/channels/socket_adapter.py:171-174 | registers a fresh pending future under the request id |
| EphemeralAcks.Waiters.ResolveEphemeralSent | src/stackowl/channels/socket_adapter.py:53-58 | resolves a pending future and ignores unknown ids and finished futures |
| EphemeralAcks.Waiters.EndSend | src/stackowl/channels/socket_adapter.py:188-204 | returns the first own ack's id when answered and -1 otherwise, and drops the waiter |
| IdentityRelink.RekeyIsFirstIdentity | src/stackowl/cli/identity_cli.py:43-49 | with identities and handles separate each link goes to the first identity listing it |
| IdentityRelink.RekeyAllIsSubstitution | src/stackowl/cli/identity_cli.py:43-61 | so the nested updates are one simultaneous substitution that leaves other owners and conversation rows alone |
| IdentityRelink.CountsAreChanges | src/stackowl/cli/identity_cli.py:49-61 | the counts are exactly the numbers of changed rows |
| IdentityRelink.SecondRunIdle | src/stackowl/cli/identity_cli.py:43-61 | a second run changes and counts nothing |
| IdentityRelink.UniqueAtTheEndIsUniqueThroughout | src/stackowl/cli/identity_cli.py:45-49 | no update violates the owner-scoped UNIQUE constraint exactly when the re-keyed preferences satisfy it |
| IdentityRelink.UniqueIffKeysDiffer | src/stackowl/db/migrations/0044_owner_scoped_unique.sql:71-79 | the constraint holds exactly when there are as many different (owner_id, owner_key, key) triples as rows |
| IdentityRelink.IdempotentIffChainsRest | src/stackowl/cli/identity_cli.py:28-31 | re-running changes no table exactly when every chain of aliases, followed in list order, ends at a link that is listed nowhere or is brought back by a cycle |
| IdentityRelink.IdempotentIffNoEarlierHandle | src/stackowl/cli/identity_cli.py:28-31 | with each handle listed once and no alias cycle: exactly when no identity is a handle of the same or an earlier alias |
| IdentityRelink.AliasCycleIsIdempotent | src/stackowl/cli/identity_cli.py:28-31 | two links aliased to each other are idempotent although identities are handles |
| IdentityRelink.ChainedAliasesNotIdempotent | src/stackowl/cli/identity_cli.py:28-31 | a dictionary and a table that a second run changes again |
| IdentityRelink.Database.Relink | src/stackowl/cli/identity_cli.py:21-74 | success exactly when no update violates the constraint; failure and dry run keep nothing; counts are the same under dry run |

## Left out

- SQLite itself, `DbPool`, triggers, lock timeouts and schema self-healing: tables are sequences and a transaction is one atomic step, so a read of uncommitted rows on the shared connection is not modelled.
- SHA-256 internals and float `repr`: function values, with collision-freedom only on the payloads in play.
- Journal recording, logging, notifications and the channel transports.
- Retention.Prune: is one sequential call; its separate count, delete and insert steps are not interleaved with other writers (the insert behind an unlocked read is covered by `AuditWriters`).
- ImportCycles.FindCycles: takes neighbours and start nodes in any order, so the sorted order of the reported cycles is not modelled; file and import parsing are left out.
- SpanDepth.DepthMap: walks the spans in any order, so which span of a cycle is cut is not determined.
- SkillsMigration.Home.MigrateLegacySkills: assumes source and target disjoint and no nested legacy file named like a target directory (`copy2` would copy into it); when a file blocks a nested directory the model stops there, while `copytree` still copies the siblings before it raises. Symbolic links and other input/output errors are not modelled.
- EphemeralAcks.RunsKeepInv: takes request ids as unique, as uuid4 makes them.
- `_strip_emphasis` is a parameter that only deletes characters.
- Clocks, uuids and JSON text of the prune record are parameters.
- The remaining output-style transforms, the other authz rules, the user interface and the other scripts: each settles by reading a branch.
