# Verified models of the provider's state machines

This project models, in Dafny, the parts of the sysutils Terraform provider that
change a host, and proves what they keep, undo and agree on. Every module names the
source file it follows. Operations that work step by step on fields, buffers or
files are classes and methods with loops, proved against specification functions;
what the provider promises is then proved about those functions.

Run `dafny verify dfyconfig.toml` in this directory to verify everything.

## What is modelled

**Archives** (`Archive*.dfy`, `FileTree.dfy`). A walker turns untrusted entries into a
manifest (`ArchiveNames`, `ArchiveManifest`, `ArchiveWalker`), with the counters of the
source kept as 64-bit integers beside their true values. `ArchiveLinks` checks symlinks
against the file system's own lookup, step by step. `ArchiveExtract` mirrors the manifest
into a temporary tree, `ArchiveMerge` plans and renames it into an existing destination,
`ArchiveRemove` takes it away again, `ArchiveContents` says which archives are accepted
and what they hold, read off their entries, and `ArchiveLifecycle` and `ArchiveResource` carry the
destination, `files` and `existing_dirs` from Create through updates to Delete. A tree is a
finite map from paths to directories, files with contents, links with targets, and special
files. Every operation may fail for reasons outside the model: the `weather` of a tree
says which, and all theorems hold for every weather, so that an installation may stop
after any prefix of its steps.

**POSIX ACLs** (`Acl*.dfy`). The algebra of entries and masks, the extended attribute as
a byte buffer filled by offsets, and the life of a managed ACL on one file (`AclLifecycle`),
with whole runs of it, in which any step may fail half-way (`AclRuns`).

**Firewall rules** (`Decimal`, `NetAddress`, `Firewall*`, `Iptables*`). Rules printed to
iptables words and read back, and the reconciler as a plan of commands over chains, each
of which may fail, with what holds after every prefix of the plan.

**Commands** (`Exec*.dfy`). The capped output buffer, and `runCommand` as a transition
system of the child, both readers, the deadline, the grace and kill timers, the caller and
the select loop, in every interleaving.

**Line-preserving editors** (`Ini*`, `TextLines`, `LineEdit`, `Hosts*`, `Cron*`). Files are
byte strings; each editor has a theorem that says exactly when what it wrote is what is
read back, and that nothing else changes. `IniFiles` and `HostsText` say it of the bytes.
`IniPlaces` and `HostsPlaces` say where an edit puts its lines and what stays of the old ones,
`CronReading` what any cron file is read as.

## Main results

- An archive_extract resource gives back the original destination over every run of Create,
  updates and Delete, each of which may stop anywhere, if and only if no update of the run
  forgets a directory (`ArchiveLifecycle.WholeRunRestores`, on the fields the resource
  changes `Resource.Live`).
- Renaming only the top-most new entries is the pointwise overlay of the destination with
  the archive (`MergeIsOverlay`), symlinks of an accepted archive never lead outside
  (`AcceptedArchiveStaysInside`), and the walker accepts exactly what is within its limits
  (`WalkEntries`), whatever its settings.
- An update that nothing outside the model stops succeeds exactly if the archive passes its
  checks and each name it shares with the destination is a directory in both, or no directory
  and one the resource may replace (`Resource.Update`, `ConflictIs`). Which archives pass, and
  what is then extracted, is said of their entries alone (`ArchiveContents.AcceptedIs`,
  `TreeIsWritten`, `StrippedIs`, `ArchiveLinks.CheckIs`).
- The iptables reconciler converges, never leaves a wanted family without its rule, keeps
  every other rule in place and puts a replacement where the old rule was (`Reconcile`,
  `ApplyConverges`, `NeverWithout`, `ForeignRulesStay`, `ReplacementTakesPlace`); rules are
  read back from what is written (`RuleReadsBack`), which words are read as a rule is said
  option by option (`RuleIsRead`), and found rules form one exactly if they are its copies, one
  for each family (`FoundMergesIff`).
- In every interleaving a command is signalled at most once and before it is reaped, a plain
  result is the child's own exit with all of its output, and the runner never blocks;
  a deadline or a cancellation is always acted on, so that a command that hangs is signalled
  (`SignalledOnceBeforeReaping`, `ExitIsGenuine`, `NeverBlocked`, `NewsIsActedOn`,
  `HungCommandIsSignalled`).
- Both ACLs hold what was specified after every create and update, and no more of what was
  there than is said (`NextHasSpec`, `NextHasNoDrift`).
- ACL drift is clean if and only if applying changes nothing, a run of a managed ACL, whose
  steps may fail half-way, ends with plain permissions if and only if no such failure is left
  without a retry, and the extended attribute round-trips exactly
  (`CleanIffApplyChangesNothing`, `AclRuns.RunEndsPlain`, `LeftBehindIs`, `EncodeOfDecode`).
- Each editor says exactly when the file it wrote, read again, holds what was asked for, and
  that nothing else changed (`IniFiles.EnsureSetsTheKey`, `IniFiles.RemoveRemovesTheKey`,
  `HostsText.EnsuredFileSettles`, `HostsText.RemovedFileReads`, `LineEdit.EnsureSettles`,
  `LineEdit.EnsuredReadsBack`, `LineEdit.RemovedReadsBack`, `CronFile.JobReadsBackIff`).

## What is not always so

These properties fail for some inputs of the code. The model does what the code does; each
has the exact condition under which it holds, and an input for which it fails.

- Destroy does not always give back the original destination. Update narrows
  `existing_dirs` before it removes stale files; if that removal fails, `files` is joined
  with the old list again, and a directory that was there before and was empty is now
  listed like an extracted one (`RunRestoresIff`, `FailedRemovalLosesDirectory`).
- An INI separator with a delimiter of several bytes can be accepted with a key that is
  then cut at the wrong place: separator `::` with key `a:` (`RenderReadsBack`,
  `ColonsAreNotReadBack`).
- An INI key that starts with a byte order mark is accepted, but as the first line of a file
  without a mark its line loses it (`IniFiles.EnsureSetsTheKey`, `MarkedKeyIsLost`).
  Likewise, removing a key can uncover such a line (`IniFiles.RemoveRemovesTheKey`,
  `UncoveredKeyIsLost`).
- A header `[]` is the global section for `parseIniSections` and a section of its own for
  the editor (`ReadersAgree`, `ReadersDisagree`).
- A managed line with a pattern need not be found as present after it was written: not if
  the pattern does not match the line itself and matches several others
  (`LineEdit.EnsureSettles`, `UnmatchedLineDiffers`).
- An empty managed line that replaces an unterminated last line is not in the file
  (`LineEdit.EnsuredReadsBack`, `EmptyLineIsLost`).
- Removing the last, unterminated lines of a file loses a blank line before them as well
  (`LineEdit.RemovedReadsBack`, `LineEdit.RemovalLosesBlank`, `HostsText.RemovedFileReads`,
  `HostsText.EnsuredFileSettles`, `HostsText.RemovalLosesBlank`, `EnsureLosesBlank`).
- A cron environment value that starts or ends with a vertical tab or form feed is written
  bare and trimmed on reading (`JobReadsBackIff`, `TabIsTrimmed`).
- A tar stream may be allowed less than `max_size` and `max_entries` allow, as the overhead
  of the entries overflows: with `max_entries` 2^50 - 1 there is no room for headers
  (`StreamLimitIsPromised`, `NoRoomForHeaders`).
- More than 65536 ACL entries are encoded and not decoded (`DecodeOfEncode`,
  `TooManyEntriesAreRefused`).
- A managed ACL does not always end with plain permissions. If a create or an update fails
  between the access and the default ACL, its entries are there and the old specification, or
  none, stays recorded; a destroy then leaves what that one does not list, unless a later step
  lists it again or is exclusive (`AclRuns.RunEndsPlain`, `LeftBehindIs`,
  `AbandonedCreateStays`, `AbandonedUpdateStays`).

## Model

| member | source | states |
|---|---|---|
| ArchiveLifecycle.WholeRunRestores | internal/provider/archive_extract_resource.go:406-644 | over every run from Create to Delete with overwrite off, where each step may succeed, conflict or stop after any prefix: restored if and only if nothing was forgotten |
| ArchiveLifecycle.RunRestoresIff | internal/provider/archive_extract_resource.go:505-644 | from a good state, any run of updates and failed destroys, then destroy: the original destination is restored if and only if no update of the run forgets a directory |
| ArchiveResource.Resource.Live | internal/provider/archive_extract_resource.go:406-644 | Create, any updates and Delete on the real fields form such a run: the destination is what it was if and only if no update forgot a directory, and if nothing goes wrong outside the model it is |
| ArchiveResource.Resource.Update | internal/provider/archive_extract_resource.go:505-600 | nothing happens if nothing has changed; otherwise, whatever fails, destination, files and existing_dirs are the ones of some stop of the update. If nothing goes wrong outside the model it succeeds exactly if the archive passes all checks and each of its names in the destination is a directory in both, or no directory and listed or to be overwritten; it then leaves the old destination overlaid with the archive, less what is stale, and otherwise everything as it was |
| ArchiveMerge.ConflictIs | internal/provider/archive_extract.go:443-484 | the plan is refused if and only if a name of the archive is there already and is a directory on one side only, or no directory and neither listed nor to be overwritten |
| ArchiveLifecycle.UpdateLaysOver | internal/provider/archive_extract_resource.go:505-600 | after any number of steps, an update that completes leaves the original destination with the new archive laid over it, and lists exactly the new archive |
| ArchiveMerge.MergeIsOverlay | internal/provider/archive_extract.go:443-542 | renaming only the top-most new entries gives the pointwise overlay: every archive path has the archive's entry, every other path is unchanged |
| ArchiveMerge.SkippedBelowExactlyOne | internal/provider/archive_extract.go:443-542 | a skipped entry lies below exactly one moved directory |
| ArchiveMerge.ApplyMerge | internal/provider/archive_extract.go:488-542 | the whole loop leaves the destination overlaid with the archive's tree, or, when a step fails, exactly the state of a prefix of the steps |
| ArchiveLinks.AcceptedArchiveStaysInside | internal/provider/archive.go:571-583 | in the tree of an accepted archive the lookup of any path without ".." terminates and is inside the destination after every single step |
| ArchiveLinks.CheckIs | internal/provider/archive.go:571-583 | the links pass if and only if each ends inside within its hops and all together are within the work budget |
| ArchiveLinks.ResolveSymlink | internal/provider/archive.go:594-633 | the loop computes the verdict on the link, and one link takes at most (maxSymlinkHops + 1) * (4096 + 1) turns whatever the other links are |
| ArchiveContents.AcceptedIs | internal/provider/archive.go:450-521 | the entries are accepted if and only if each is acceptable by itself, links back to a file if it is a hard link, and none gets in another's way; the manifest then holds exactly what they say |
| ArchiveContents.TreeIsWritten | internal/provider/archive.go:450-521 | the tree has every entry as it was written, the directories they are in, and nothing else |
| ArchiveNames.StrippedIs | internal/provider/archive.go:527-550 | a name is what is left of the written one if and only if that one, not stripped, is the name below some directory of that many components |
| ArchiveNames.StripTakesFirst | internal/provider/archive.go:527-550 | stripping takes away the first components: of a canonical p/n with as many to strip as p has, n is left, or nothing |
| ArchiveWalker.WalkEntries | internal/provider/archive.go:214-239 | the whole walk accepts if and only if every entry is acceptable in turn and the true totals of entries, contents and bytes read are within the limits; the result is well-formed and within max_entries, for every valid limit |
| ArchiveWalker.StreamLimitIsPromised | internal/provider/archive.go:285-294 | with the wrap-around of int64 the stream limit is never more than max_size and the overhead of all entries allow, nor than 2^62; and exactly that if and only if the overhead does not overflow, or overflows to something that makes no difference |
| ArchiveWalker.RecordsAreWellFormed | internal/provider/archive.go:265-350 | over every sequence of accepted entries the manifest is well-formed and has no more names than entries were counted |
| ArchiveWalker.ZipPrecheck | internal/provider/archive.go:361-371 | with sums kept in a uint64 the check passes if and only if the true sum and the number of entries are within the limits |
| ArchiveExtract.ExtractToDir | internal/provider/archive_extract.go:127-192 | on success the archive was acceptable, the temporary tree is exactly the manifest's tree and every link in it ends inside; an acceptable archive fails only with the file system |
| ArchiveExtract.VisitEntry | internal/provider/archive_extract.go:127-192 | if the temporary tree showed the manifest before an entry, it shows it afterwards; no exclusive creation ever collides, no parent is a link or file, and it fails only on a fault or, once the file is created, on contents of another size than declared |
| IptablesBackend.Reconcile | internal/provider/firewall_rule_resource.go:581-593 | update on a real host, whatever fails: other rules keep their sequence and no wanted family loses its rule; it succeeds exactly if the rule is valid, its families are available and no command failed, and then exactly the wanted rule is found |
| IptablesTheorems.ApplyConverges | internal/provider/firewall_backend.go:150-473 | after a full apply, find followed by merged yields the wanted rule |
| IptablesMerged.FoundMergesIff | internal/provider/firewall_backend.go:150-392 | the same of what find returns, for every state of the chains |
| IptablesMerged.CopyIsRefused | internal/provider/firewall_backend.go:150-392 | two copies in one family, whoever added one, never form a rule |
| IptablesTheorems.ApplyIsIdempotent | internal/provider/firewall_backend.go:411-473 | a second apply has no command to run |
| IptablesTheorems.NeverWithout | internal/provider/firewall_backend.go:411-473 | between any two commands, a wanted family that had a tagged rule has one |
| IptablesTheorems.ForeignRulesStay | internal/provider/firewall_backend.go:411-483 | after any prefix of the commands every rule that does not carry the name is there in the same sequence |
| IptablesTheorems.ReplacementTakesPlace | internal/provider/firewall_backend.go:411-473 | a replacement stands where the first tagged rule of its chain stood relative to all other rules, or after them all if the chain had none |
| IptablesTheorems.PlanApplies | internal/provider/firewall_backend.go:411-483 | every command of the plan can be carried out when its turn comes |
| FirewallRule.RuleReadsBack | internal/provider/firewall.go:814-1028 | a valid single-family rule reads back from its -A words, also with the reject reason iptables adds, up to the order of its ports, if and only if no address is an IPv4 address written as an IPv6 one |
| FirewallReading.RuleIsRead | internal/provider/firewall.go:905-1028 | listed words are read as a rule if and only if each option says what the rule has, none but "-m" stands twice, what no option says is as without it, it has tag and target, and the rule is valid |
| FirewallRule.StepsCommute | internal/provider/firewall.go:905-1028 | options of different kinds may stand in any order, and none but "-m" may be repeated, in whatever spelling |
| ExecRun.SignalledOnceBeforeReaping | internal/provider/exec_run.go:132-291 | in every interleaving the process group is signalled at most once, and only while the child is not reaped |
| ExecRun.ExitIsGenuine | internal/provider/exec_run.go:132-291 | a result that is neither an error nor a timeout is the child's own exit: everything written was read to the end and no signal was sent |
| ExecRun.ResultIsComplete | internal/provider/exec_run.go:132-291 | whenever a result is returned both readers have finished, the child is reaped, and each kept buffer is the start of what was read |
| ExecRun.NewsIsActedOn | internal/provider/exec_run.go:132-291 | in every reachable state with a deadline passed or a cancellation the runner has a step to take until it has returned, whether or not the child runs, other than while it waits to reap a signalled child |
| ExecRun.HungCommandIsSignalled | internal/provider/exec_run.go:132-291 | from there the runner comes to rest in boundedly many steps, and then has returned or has signalled the group of a child that still runs |
| ExecRun.CompletedIsNotKilled | internal/provider/exec_run.go:234-246 | once both readers are done and the exit is seen nothing is signalled any more, whatever comes, and the result is the child's own unless the grace timer had fired |
| ExecRun.ResultIs | internal/provider/exec_run.go:247-291 | which result is returned, from what happened: kill failed, interrupted before timed out, held open, or exited |
| ExecRun.NeverBlocked | internal/provider/exec_run.go:132-291 | once the child has exited the runner always has a step to take until it returns, even if other processes hold the output open; with a deadline or a cancellation also before (NewsIsActedOn) |
| ExecOutput.CappedOutput.Write | internal/provider/exec_run.go:46-57 | after any sequence of writes the buffer is the stream's prefix of length min(limit, total), and each write claims all its bytes |
| AclApply.CleanIffApplyChangesNothing | internal/provider/acl.go:583-624 | drift is clean if and only if applying returns an equal ACL, for every valid ACL, every wanted list with distinct keys and both modes |
| AclApply.ApplyIsValid | internal/provider/acl.go:583-596 | applying valid entries with distinct keys to a valid ACL gives a valid ACL in kernel order, in both modes and with lone masks |
| AclApply.ApplyIsIdempotent | internal/provider/acl.go:583-596 | applying twice is applying once |
| AclRuns.RunEndsPlain | internal/provider/file_acl_resource.go:357-680 | every run of creates, updates and destroys, each of which may fail before anything or between access and default ACL, ends with plain permissions and no resource if and only if it ends destroyed and no entry was left behind by what the steps list |
| AclRuns.RunRestoresIff | internal/provider/file_acl_resource.go:357-680 | the run leaves the file as it found it if and only if it ends destroyed, nothing was left behind and every base entry written last was the original one |
| AclRuns.LeftBehindIs | internal/provider/file_acl_resource.go:357-680 | an entry is left behind if and only if some create or update listed it and failed half-way, the specification recorded then did not list it, and no later step lists it or is exclusive |
| AclRuns.RetryIsOnce | internal/provider/file_acl_resource.go:357-680 | after any run, a create, update or destroy that fails half-way and is tried again gives what the second try gives alone |
| AclLifecycle.AclFile.Apply | internal/provider/file_acl_resource.go:418-511 | create and update with writes and reads that may fail: the file is left as by a step that came exactly so far, and success is exactly that nothing is refused and everything that has to be written or read passes; on success both ACLs hold, under every key, the wanted entry or else, unless it is dropped, the one before, with the wanted mask or the union of the group class, and neither has drifted |
| AclLifecycle.NextHasSpec | internal/provider/file_acl_resource.go:418-511 | both ACLs after a create or an update, in these terms |
| AclLifecycle.NextHasNoDrift | internal/provider/file_acl_resource.go:418-511 | no drift is seen on either ACL after a create or an update |
| AclCodec.DecodedIs | internal/provider/acl.go:324-355 | an attribute that spells entries, in any order and with any IDs where they do not matter, is decoded to them in kernel order if they are valid and not too many, and refused otherwise |
| AclCodec.DecodeOfEncode | internal/provider/acl.go:300-355 | decoding an encoding gives the entries in kernel order with unnamed IDs cleared if there are at most 65536, and is refused for their number otherwise |
| AclCodec.EncodeOfDecode | internal/provider/acl.go:300-355 | re-encoding a decoded attribute gives the same bytes if and only if it was in kernel order with undefined IDs on unnamed entries |
| IniFiles.EnsureSetsTheKey | internal/provider/ini_edit.go:48-385 | the file, written and read again, has exactly the one value if and only if it is read back or was there and the line is not swallowed as the first of a file; then every other key of every section is unchanged |
| IniFiles.EnsureIsIdempotent | internal/provider/ini_edit.go:48-385 | a second ensure on the file as read again reports no change if and only if the file holds the value, and then leaves the bytes |
| IniFiles.RemoveRemovesTheKey | internal/provider/ini_edit.go:48-394 | in the file written and read again the key has no value and every other key of every section those it had, if and only if no first line that starts with a mark is uncovered |
| IniPlaces.PlacementIs | internal/provider/ini_edit.go:327-385 | a missing key goes below the last line that comments it out, or else below the last key of the section's last region or its header; a missing section to the end; a global key above the first header and its comments |
| IniPlaces.FirstIsRewritten | internal/provider/ini_edit.go:327-369 | a key that is there: its first line is rewritten with its indentation unless it has the value, its further lines go, and no other text changes |
| IniSyntax.RenderReadsBack | internal/provider/ini_edit.go:167-243 | a written line is a key line, and is read back as that key and value if and only if the separator keeps them apart |
| IniSections.ReadersAgree | internal/provider/functions_parse.go:21-42 | in every file the map has the last of the editor's values for every key of every named section; for a global key, if and only if the key is not set under a header "[]", or last to the same value |
| HostsFile.EnsureSettles | internal/provider/hosts_entry.go:258-402 | after ensure on the lines found for the old and new identities exactly one line has one of them and it reads as the wanted address, names and comment; all other lines keep text and order, but for the carriage return an unterminated last line gets |
| HostsText.EnsuredFileSettles | internal/provider/hosts_entry.go:258-402 | the same in the file written and read again: it holds the lines that were written if and only if dropping further matches at the end of an unterminated file does not uncover a blank line, and then only that line is missing |
| HostsFile.EnsureIsIdempotent | internal/provider/hosts_entry.go:364-402 | a second call, with the lines found anew, reports no change and makes none |
| HostsPlaces.FirstIsUpdated | internal/provider/hosts_entry.go:364-402 | the entry stays in the place of its first line; the lines before are untouched, and of those after only the other lines are left |
| HostsPlaces.UpdatedKeepsFormat | internal/provider/hosts_entry.go:258-402 | the updated line keeps indentation, white space and line end, and the spelling of an address or a comment that stays the same |
| CronFile.JobReadsBackIff | internal/provider/cron.go:262-419 | the job is read back exactly if and only if no unquoted environment value starts or ends with a vertical tab or form feed, and no comment text stands without a comment |
| CronReading.FileSays | internal/provider/cron.go:325-366 | of every file: the comment is the comment lines at its start, the environment the last value of each name set before the first whole job, the job the first whole one, and every job line is counted |
| CronFile.ReadOfRender | internal/provider/cron.go:280-419 | reading the rendered file of any valid job gives back schedule, user, command and comment, each environment value as it is kept, and one job line |
| CronFile.JobLineIsNoSetting | internal/provider/cron.go:371-400 | no job line is ever taken for a setting, even if the command has "=" |
| LineEdit.EnsureSettles | internal/provider/file_line_edit.go:277-327 | after ensure the fragment is present and another ensure, with any hint, changes nothing: always for a block, and for a line if and only if it has no pattern, matches its own pattern, or the pattern matched at most one line |
| LineEdit.EnsuredReadsBack | internal/provider/file_line_edit.go:42-327 | the file that ensure leaves reads back as the lines it left, if and only if no empty line was written in place of an unterminated last one |
| LineEdit.RemovedReadsBack | internal/provider/file_line_edit.go:42-357 | the file that remove leaves has exactly the other lines if and only if what is removed is not at the end of an unterminated file after a blank line; then only that blank line is missing |
| LineEdit.UpdateReadsBack | internal/provider/file_line_resource.go:321-398 | an update to another fragment, the old one removed and the new one put in before the file is written: its lines are read back if and only if no blank line is uncovered that stays last, and no empty line is written last |
| LineEdit.CreateThenRemove | internal/provider/file_line_edit.go:42-357 | create on a file without the fragment, then destroy, each written and read again: the file has its lines again, and its last one terminated if it was when the fragment was there |
| HostsText.RemovedFileReads | internal/provider/hosts_entry.go:406-411 | the file that remove leaves has exactly the other lines if and only if the matches are not at the end of an unterminated file after a blank line; then only that blank line is missing |
| ArchiveNames.Normalize | internal/provider/archive.go:527-550 | the loop over the components decides exactly what the string means: refused if it is empty, absolute, has a NUL or any "..", dropped if stripping leaves nothing, otherwise the components that count without the first ones (StripTakesFirst, StrippedIs, RefusedIs) |
| ArchiveNames.KeptIsCanonical | internal/provider/archive.go:527-550 | whatever name survives is relative and has no empty, "." or ".." component, whatever the archive wrote |
| ArchiveNames.NormalizeRender | internal/provider/archive.go:527-550 | normalization is the identity on the strings of canonical names |
| ArchiveNames.RenderIsInjective | internal/provider/archive.go:527-550 | two canonical names with the same string are the same name |
| ArchiveManifest.InsertKeepsWellFormed | internal/provider/archive.go:486-520 | recording an entry that passed the checks keeps: canonical names, every ancestor a directory, order a duplicate-free listing with directories first, hard links resolved to an earlier file with its size and mode; no other entry changes and only ancestors are added |
| ArchiveWalker.Walker.Count | internal/provider/archive.go:250-263 | accepts exactly if the true count and the true sum of sizes stay within the limits: no wrap-around hides an excess, whatever the limit |
| ArchiveWalker.Walker.Add | internal/provider/archive.go:450-521 | succeeds exactly on acceptable entries whose implied directories fit; the new manifest is the old one with the entry inserted |
| ArchiveWalker.Walker.Process | internal/provider/archive.go:265-350 | one turn of the tar loop refuses exactly what exceeds a limit or is unacceptable, and otherwise moves the manifest, the count and the sum on together |
| ArchiveWalker.RecordKeepsWellFormed | internal/provider/archive.go:450-521 | one accepted entry keeps the manifest well-formed, and lists no more names than it counted |
| ArchiveWalker.WeightFits | internal/provider/archive.go:450-521 | an entry and the directories it implies count no more than the bytes the entry takes up, so that no counter can wrap around |
| ArchiveWalker.OrdinaryIsAccepted | internal/provider/archive.go:265-350 | where the stream limit is that, it never refuses an archive whose entries stay within their overhead: max_size and max_entries decide |
| ArchiveWalker.NoRoomForHeaders | internal/provider/archive.go:285-294 | settings and an archive within both whose header the overflowed limit has no room for |
| ArchiveLinks.CheckSymlinks | internal/provider/archive.go:571-583 | all links are checked in order against one shared work budget, and the first refusal is the answer |
| ArchiveLinks.InsideEnds | internal/provider/archive.go:594-633 | a link that passes leads, by the file system's own lookup steps, to a place inside the destination after finitely many steps |
| ArchiveLinks.OutsideIsReached | internal/provider/archive.go:594-633 | a link refused for leading outside really leads outside: the lookup reaches it |
| ArchiveLinks.PathEnds | internal/provider/archive.go:571-583 | if every link on its own ends inside, so does every path without "..", however many links it goes through |
| ArchiveLinks.ChainedLinksAreRefused | internal/provider/archive.go:594-633 | a chain of links that passes a purely lexical check but leads outside is refused |
| ArchiveNames.ListedReadsBack | internal/provider/archive.go:136-144 | an element of the files attribute reads back as the same name and kind |
| ArchiveNames.DirectoryBeforeContents | internal/provider/archive.go:125-144 | in byte order a directory precedes everything below it, with or without its trailing slash |
| ArchiveNames.ReadListedIsShown | internal/provider/archive_extract.go:827-836 | nothing but the string of a canonical name is ever taken from a stored list |
| FileTree.Root.MakeDirs | internal/provider/archive_extract.go:94-122 | opening with create makes exactly the missing directories and never passes a link or a file; a failure has a component that is no directory, or is a fault |
| FileTree.Root.RenameFrom | internal/provider/archive_extract.go:488-542 | a rename moves a name with everything below it from one tree to the other, or changes neither |
| ArchiveExtract.AncestorsExtendTree | internal/provider/archive_extract.go:94-122 | the directories made while opening a parent are exactly those the walker recorded as implicit ancestors, at every length |
| ArchiveMerge.ParentDecides | internal/provider/archive_extract.go:443-484 | looking up the parent's action in the plan tells whether the parent is an existing directory of the destination, and what is below anything else is skipped |
| ArchiveMerge.PlanMerge | internal/provider/archive_extract.go:443-484 | computes, without changing anything, the action of every entry as the destination alone determines it, and fails only on a conflict or a fault; when there is a conflict says ConflictIs |
| ArchiveMerge.EntryIsCovered | internal/provider/archive_extract.go:443-484 | every entry that is not an existing directory lies at or below a planned move |
| ArchiveMerge.StoppedShows | internal/provider/archive_extract.go:488-542 | wherever the merge stops, a path shows either the old entry or, at or below a move, the archive's; what lies outside all moves is untouched |
| ArchiveMerge.StoppedIsGrounded | internal/provider/archive_extract.go:488-542 | wherever the merge stops, the destination is a proper tree |
| ArchiveRemove.RemoveExtracted | internal/provider/archive_extract.go:602-663 | the listed names are dealt with from the last to the first in byte order; on a failure exactly those from some index on were, and otherwise what is left is what was not listed as what it is, and the directories above that |
| ArchiveRemove.RemoveDownSpares | internal/provider/archive_extract.go:602-663 | a removal never takes away what was there before, if no listed directory of it was empty |
| ArchiveRemove.RemovedIfListed | internal/provider/archive_extract.go:602-663 | what is listed together with everything below it is gone afterwards |
| ArchiveLifecycle.DeleteRestores | internal/provider/archive_extract_resource.go:602-644 | from any good state a completed destroy gives back exactly the original destination: names, kinds, contents and link targets |
| ArchiveLifecycle.HalfDeleteKeepsGood | internal/provider/archive_extract_resource.go:602-644 | a destroy that fails anywhere leaves a good state |
| ArchiveLifecycle.CreateKeepsGood | internal/provider/archive_extract_resource.go:406-448 | after Create, even one that stopped halfway through the merge, everything that was not there is listed and what was there is untouched |
| ArchiveLifecycle.UpdateKeepsGood | internal/provider/archive_extract_resource.go:505-600 | every Update, wherever it stops, keeps that, unless it is the one case that forgets a directory |
| ArchiveLifecycle.UpdateKeepsExact | internal/provider/archive_extract_resource.go:557-571 | as long as no removal of stale files fails, existing_dirs is exactly the listed directories that were there originally |
| ArchiveLifecycle.ForgetsMakesForgotten | internal/provider/archive_extract_resource.go:557-597 | when the removal of stale files fails after the archive dropped an originally empty directory, that directory is listed like an extracted one: existing_dirs was already narrowed, files was joined again |
| ArchiveLifecycle.ForgottenStays | internal/provider/archive_extract_resource.go:505-600 | no later update, wherever it stops, repairs this |
| ArchiveLifecycle.ForgottenIsLost | internal/provider/archive_extract_resource.go:602-644 | the destroy at the end then removes the directory |
| ArchiveLifecycle.FailedRemovalLosesDirectory | internal/provider/archive_extract_resource.go:557-597 | a concrete run of Create, an Update whose removal of stale files fails, and Delete, in which a directory that was there before is removed |
| ArchiveResource.Resource.Create | internal/provider/archive_extract_resource.go:406-448 | records the resource exactly if anything may have been placed, with the lists the model of Create gives; a failure without a record left the destination untouched. If nothing goes wrong outside the model it succeeds exactly if the archive passes all checks and the destination takes it, and then leaves the destination overlaid with the archive and the directories they share as existing_dirs |
| ArchiveResource.Resource.Delete | internal/provider/archive_extract_resource.go:602-644 | a completed destroy leaves the modelled destination; a failed one keeps what is stored, with some of the names removed |
| ArchiveResource.Resource.InstallArchive | internal/provider/archive_extract.go:312-364 | whatever goes wrong the outcome is one of a conflict, a refused archive, or a prefix of the merge; without faults an acceptable archive is installed unless it conflicts |
| Acl.SortedIsCanonical | internal/provider/acl.go:160-167 | sorting entries with distinct keys gives the kernel's order, strictly ascending |
| Acl.SameEntriesIsEqual | internal/provider/acl.go:659-673 | an ACL in kernel order is determined by its entries |
| Acl.SetGet | internal/provider/acl.go:254-264 | setting an entry changes the lookup of its own key only and keeps kernel order |
| AclApply.GroupPermIsUnion | internal/provider/acl.go:241-250 | the computed mask has a permission bit if and only if some entry of the group class has it |
| AclApply.WithRecomputedMaskGet | internal/provider/acl.go:280-286 | only the mask's lookup changes: it is computed if named entries (or a mask to keep) need it, and gone otherwise |
| AclApply.Validate | internal/provider/acl.go:174-205 | the counting loop accepts exactly the ACLs the kernel accepts: one of each base entry, distinct keys, a mask where named entries are, permissions in range |
| AclApply.ApplyGet | internal/provider/acl.go:583-596 | under every key the applied ACL has the wanted entry, or the kept one, or the computed mask |
| AclApply.AclDrift | internal/provider/acl.go:604-624 | the loop computes the managed entries by key and the unexpected ones in order |
| AclCodec.Encode | internal/provider/acl.go:300-319 | succeeds exactly on valid ACLs; the buffer filled by offsets is the header followed by the entries in kernel order |
| AclCodec.Decode | internal/provider/acl.go:324-355 | the loop decides every malformed attribute, with its reason, and every well-formed one |
| AclCodec.TooManyEntriesAreRefused | internal/provider/acl.go:300-355 | a valid ACL that is encoded and not decoded |
| AclCodec.DecodedIsNormal | internal/provider/acl.go:324-355 | whatever is decoded is in kernel order, valid, and without IDs on unnamed entries |
| AclLifecycle.AclFile.Delete | internal/provider/file_acl_resource.go:608-680 | destroy with writes and reads that may fail: the file is left as by a destroy that came exactly so far, and what it takes to succeed; on success both ACLs have lost the managed named entries, and the default ACL is gone if none is left |
| AclRuns.InRangeIsAccepted | internal/provider/file_acl_resource.go:418-511 | where no write or read fails, a specification with permissions and IDs in range is refused only for duplicates or default entries on a non-directory, never because a computed ACL is invalid |
| AclRuns.StrayIsLeftBehind | internal/provider/file_acl_resource.go:357-680 | on every run a named entry that is there and not recorded is exactly one that was left behind |
| AclRuns.BaseIsLastWritten | internal/provider/file_acl_resource.go:357-680 | on every run each base entry is the one written last, also by a step that failed half-way, or the original |
| AclRuns.ExtendedRunRestores | internal/provider/file_acl_resource.go:357-680 | a run in which no create or update fails half-way, that lists named entries and masks only and ends destroyed, leaves the file as it found it |
| AclRuns.AbandonedCreateStays | internal/provider/file_acl_resource.go:357-374 | a create on a concrete ACL that fails half-way and is given up: the destroy leaves its entry |
| AclRuns.AbandonedUpdateStays | internal/provider/file_acl_resource.go:376-397 | an update on a concrete ACL that fails half-way and is given up: the destroy leaves its entry, as it takes away what the old specification lists |
| FirewallPorts.ReadPortIs | internal/provider/firewall.go:183-204 | a text reads as a port range if and only if it is how that valid range is written |
| FirewallPorts.ParsePorts | internal/provider/firewall.go:214-238 | the loop refuses overlapping, unreadable or too many ports and sorts the rest |
| FirewallPorts.IptablesPortsRead | internal/provider/firewall.go:845-851 | joining with commas and rewriting a dash to a colon is undone on reading, for every non-empty list |
| FirewallRule.AddressReads | internal/provider/firewall.go:144-179 | an address reads back from how it is written if and only if it has no host bits and is not an IPv4 address written as an IPv6 one |
| FirewallRule.TagReads | internal/provider/firewall.go:345-361 | name and comment are found again in the tag, for every valid name and every comment |
| FirewallRule.ParseRule | internal/provider/firewall.go:905-1028 | the loop over the words computes the rule or refuses |
| FirewallRule.StepIsLocal | internal/provider/firewall.go:905-1028 | an option with its value is refused wherever it stands, or changes its own field to the same value wherever it stands, and nothing else |
| FirewallRule.ReadRuleIsValid | internal/provider/firewall.go:905-1028 | whatever is read is a valid rule of the family and chain it was listed for |
| IptablesPlan.FoundCopies | internal/provider/firewall_backend.go:354-392 | find has every rule tagged with the name as often as the chains have it, and no other |
| IptablesPlan.SiftKeeps | internal/provider/firewall_backend.go:411-440 | sifting keeps for each family a found rule that is the wanted one whenever there is one |
| IptablesPlan.SiftCopies | internal/provider/firewall_backend.go:411-440 | every found rule is either the kept one or listed as stale, counted with copies |
| IptablesPlan.SiftInserts | internal/provider/firewall_backend.go:411-440 | the recorded position is that of the first stale rule in the wanted chain |
| IptablesProofs.TargetIs | internal/provider/firewall_backend.go:411-473 | what is stored for the wanted rule is listed in its chain, tagged with the name, and reads back as the rule |
| IptablesProofs.MissingIsMissing | internal/provider/firewall_backend.go:411-473 | a family without a kept rule has no copy of the wanted words, so the check command never finds one |
| IptablesTheorems.PlaceIsFirst | internal/provider/firewall_backend.go:411-473 | the recorded position is that of the first tagged rule of the chain, or the end if it has none |
| IptablesTheorems.RemoveRemovesAll | internal/provider/firewall_backend.go:475-495 | removing what was found leaves nothing to find, and all other rules in sequence |
| IptablesBackend.Merged | internal/provider/firewall_backend.go:150-170 | the loop and the two-rule case give the one rule that the found rules implement, if there is one (MergedIs) |
| IptablesBackend.Apply | internal/provider/firewall_backend.go:411-473 | apply runs a prefix of the plan, all of it on success, and reports a change exactly if a command took effect |
| IptablesBackend.Remove | internal/provider/firewall_backend.go:485-495 | remove runs a prefix of the deletions, all of them on success |
| ExecOutput.CappedOutput.Truncated | internal/provider/exec_run.go:60-66 | truncated exactly if something was dropped |
| ExecRun.StepKeepsInv | internal/provider/exec_run.go:132-291 | every step of the child, the readers, the timers, the caller and runCommand keeps the invariant |
| ExecRun.OtherResultsAreGenuine | internal/provider/exec_run.go:132-291 | a timeout had a deadline that passed and one signal, an interruption a cancellation and one signal; held-open output means the child had exited and nothing was signalled |
| ExecRun.InternalStepsDecrease | internal/provider/exec_run.go:132-291 | without news from outside every step of the runner leaves less to do |
| IniLines.LinesOfBytes | internal/provider/ini_edit.go:48-79 | reading lines that were written gives them back, but for a carriage return that joins its line feed and an empty unterminated last line |
| IniLines.FileReadsBack | internal/provider/ini_edit.go:48-79 | reading and writing a file is the identity on every file, with or without byte order mark |
| IniSyntax.ColonsAreNotReadBack | internal/provider/ini_edit.go:417-451 | a separator and key that the validators accept and that are not read back |
| IniSyntax.OneByteReadsBack | internal/provider/ini_edit.go:199-212 | with a delimiter of one byte every valid key and value is read back |
| IniEdit.Find | internal/provider/ini_edit.go:266-302 | the loop computes headers, last keys, commented keys and active lines |
| IniEdit.FindIsRight | internal/provider/ini_edit.go:266-302 | its active lines are exactly the lines that set the key in the section, in order, and every place it reports belongs to the section |
| IniEdit.ActiveAreValues | internal/provider/ini_edit.go:306-313 | the values at the active lines are the key's values by an independent reading of the file |
| IniEdit.Values | internal/provider/ini_edit.go:306-313 | the values of the key, in file order |
| IniEnsure.PlaceKey | internal/provider/ini_edit.go:327-369 | the place and the lines for a missing key, in every case |
| IniEnsure.Ensure | internal/provider/ini_edit.go:327-369 | refuses exactly the invalid values; otherwise the lines and the reported change are those of the edit |
| IniEnsure.RemoveKey | internal/provider/ini_edit.go:390-394 | exactly the active lines go, and a change is reported exactly if there were any |
| IniTheorems.EnsuredValues | internal/provider/ini_edit.go:327-385 | for every pair of section and key, on the lines: the edited pair has exactly the value if it is read back and none otherwise, every other pair its old values |
| IniFiles.WrittenReads | internal/provider/ini_edit.go:48-79 | a written file reads as its lines, settled; but in a file without a mark, a first line that starts with one loses it |
| IniFiles.EnsuredFirst | internal/provider/ini_edit.go:327-385 | the edited file newly starts with a mark if and only if the written line starts with one and becomes the first line |
| IniFiles.MarkedKeyIsCut | internal/provider/ini_edit.go:167-243 | without the mark, a line whose key starts with one never reads as that key and value, whatever the separator |
| IniFiles.MarkedKeyIsLost | internal/provider/ini_edit.go:434-451 | a key that the validators accept and that an empty file cannot hold |
| IniFiles.UncoveredKeyIsLost | internal/provider/ini_edit.go:390-394 | a file in which removing one key loses the value of another |
| IniSections.ParseSections | internal/provider/functions_parse.go:21-42 | the loop computes the nested map |
| IniSections.LookupIsLastFiled | internal/provider/functions_parse.go:21-42 | of a key set more than once the last value wins |
| IniSections.FiledAreValues | internal/provider/functions_parse.go:21-42 | what the map files under a name are the section's values, and for the empty name also those under a header "[]", after the global ones |
| IniSections.ReadersDisagree | internal/provider/functions_parse.go:21-42 | a file with a key under a header "[]", which is global for one reader and not for the other |
| TextLines.WriteOfRead | internal/provider/file_line_edit.go:42-65 | reading and writing is the identity on every file |
| TextLines.ReadOfWrite | internal/provider/file_line_edit.go:42-65 | lines are read back from the file they were written to, without an empty unterminated last one: the same lines if and only if there is none |
| LineEdit.MarkersDiffer | internal/provider/file_line_edit.go:130-193 | a valid marker template gives begin and end markers that differ and are single lines, not empty |
| LineEdit.Inspect | internal/provider/file_line_edit.go:277-303 | tells absent, present, different and unterminated fragments apart, with their place |
| LineEdit.InsertionIndex | internal/provider/file_line_edit.go:363-377 | the place for a new fragment |
| LineEdit.Ensure | internal/provider/file_line_edit.go:308-327 | the file becomes the edited one; it fails exactly on an unterminated block and reports a change exactly if the fragment was absent or different |
| LineEdit.Remove | internal/provider/file_line_edit.go:332-357 | every copy of a line or the first block goes; a change is reported exactly if the lines changed, with the place of the first |
| LineEdit.InsertThenRemove | internal/provider/file_line_edit.go:78-357 | inserting an absent fragment at any index and removing it gives back the lines |
| LineEdit.RemovalLosesBlank | internal/provider/file_line_edit.go:42-357 | a file that loses a blank line when its last line is removed |
| LineEdit.EmptyLineIsLost | internal/provider/file_line_edit.go:42-327 | an empty managed line that is present after the edit and not in the file |
| LineEdit.UnmatchedLineDiffers | internal/provider/file_line_edit.go:277-327 | a managed line that its pattern does not match and that is not found as present after it was written |
| HostsLine.ParsedIsShaped | internal/provider/hosts_entry.go:163-191 | what a line is parsed to has the shape that is read back |
| HostsLine.RenderReads | internal/provider/hosts_entry.go:163-239 | an entry is read back from the line written for it, with indentation, separators and comment |
| HostsFile.FindIsRight | internal/provider/hosts_entry.go:278-296 | exactly the lines with one of the identities are found, in file order |
| HostsFile.EnsureEntry | internal/provider/hosts_entry.go:364-402 | the lines become those of the edit, and a change is reported exactly if there is one |
| HostsFile.RemovedAreOthers | internal/provider/hosts_entry.go:278-411 | removing what was found leaves exactly the other lines |
| HostsText.EnsureLosesBlank | internal/provider/hosts_entry.go:258-402 | a file with the entry twice that loses the blank line before the second one |
| HostsText.RemovalLosesBlank | internal/provider/hosts_entry.go:406-411 | a file that loses a blank line when its last entry is removed |
| HostsFile.SetEntry | internal/provider/hosts_entry_resource.go:260-285 | create and update on the text in place: find the lines of the new and previous identities and leave exactly one, the wanted entry |
| CronJob.Render | internal/provider/cron.go:280-302 | the file has the header, the comment, the environment sorted by name and the job line |
| CronJob.ScheduleIsWords | internal/provider/cron.go:89-175 | a valid schedule is one keyword, or five fields with single spaces, none of which starts a comment |
| CronFile.ParseFile | internal/provider/cron.go:325-366 | the file is read line by line |
| CronFile.EnvReads | internal/provider/cron.go:267-385 | a written setting reads as its name and the value as it is kept |
| CronFile.JobLineReads | internal/provider/cron.go:390-419 | a written job line reads as its schedule, user and command |
| CronFile.TabIsTrimmed | internal/provider/cron.go:201-385 | a valid job whose environment value is read back without its leading vertical tab |
| ArchiveRemove.RemovedIs | internal/provider/archive_extract.go:602-663 | an entry is removed if and only if it, and everything below it, is listed as what it is |
| ArchiveRemove.UnlistedStays | internal/provider/archive_extract.go:602-663 | what is not listed as what it is stays |
| ArchiveLifecycle.InstalledIs | internal/provider/archive_extract_resource.go:406-600 | an installation that nothing stops places the whole archive over the destination, with the directories they share as those that existed, if the destination is missing or takes it, and nothing otherwise |
| ArchiveNames.RefusedIs | internal/provider/archive.go:527-550 | a name is refused if and only if it is empty or absolute, or has a part ".." or a NUL |
| ArchiveNames.RedundantPart | internal/provider/archive.go:527-550 | an empty part and a part "." mean nothing, wherever they stand |
| ArchiveContents.DirectoryIs | internal/provider/archive.go:450-521 | a directory has the mode of the last entry that names it, and is implicit if none does |
| ArchiveContents.CountedIs | internal/provider/archive.go:250-263 | the number counted is that of the entries, plus the directories that are there only because something is in them |
| ArchiveLinks.InsideIs | internal/provider/archive.go:594-633 | a link whose lookup ends inside passes if and only if it follows at most maxSymlinkHops links and its work is within what is left |
| ExecRun.KilledOutputIsComplete | internal/provider/exec_run.go:132-291 | also after a signal the kept output is all that was written, up to the limit, unless a timer fired |
| AclLifecycle.AppliedHolds | internal/provider/file_acl_resource.go:418-511 | applying wanted entries to what is left of the old ones: under every key the wanted entry, or what was there, or the base entry of the access ACL for a new default ACL, or nothing if it is dropped |
| AclLifecycle.WithdrawnHasLost | internal/provider/file_acl_resource.go:608-680 | removing default_entries: the default ACL is gone if all its named entries were managed, and has lost exactly those otherwise |
| AclCodec.UnspelledIsRefused | internal/provider/acl.go:324-355 | every other attribute is refused, with the reason |
| IptablesMerged.MergedIs | internal/provider/firewall_backend.go:150-170 | the found rules form a rule if and only if there is exactly one for each family it stands for and no other, each parsed and equal to it in its family, and it is valid |
| IptablesMerged.TaggedIs | internal/provider/firewall.go:354-361 | a rule belongs to the name in the tag of its first comment, and to no other |
| FirewallRule.SpellingIsKept | internal/provider/firewall.go:144-179 | an address without a prefix length and a network with one stay as they are written |
| FirewallPorts.ReadPortsIs | internal/provider/firewall.go:214-238 | a list of ports is accepted if and only if all are ranges, no port number lies in two of them, and they are not too many; it is then sorted |
| FirewallPorts.ApartIs | internal/provider/firewall.go:214-238 | sorted ranges are apart if and only if no port number lies in two of them |
| LineEdit.PlaceIs | internal/provider/file_line_edit.go:363-377 | a new fragment stands at the beginning, directly before or after the last matching line, or at the end if none matches |
| LineEdit.AbsentIsPut | internal/provider/file_line_edit.go:308-327 | an absent fragment is put there, or at the hint, and no other line is touched |
| LineEdit.LineInspectionIs | internal/provider/file_line_edit.go:277-303 | a line is found at the last line its pattern matches, or at the first line that equals it |
| LineEdit.BlockInspectionIs | internal/provider/file_line_edit.go:252-303 | a block is found from the first begin marker to the first end marker after it; without one it is unterminated |
| LineEdit.ChangeIsReported | internal/provider/file_line_edit.go:308-327 | a change is reported if and only if there is one |
| LineEdit.MarkerIs | internal/provider/file_line_edit.go:130-193 | every placeholder of the marker template is replaced, from the first one on, and nothing else |
| IniPlaces.FindFinds | internal/provider/ini_edit.go:266-302 | the regions of the section with their headers and last keys, the lines that comment the key out, and the first header of the file |
| IniPlaces.MissingIsAdded | internal/provider/ini_edit.go:327-385 | these lines are put there and no other text changes |
| IniLines.InsertedEnds | internal/provider/ini_edit.go:83-106 | inserted lines end like the first line of the file, and no other line end changes but that of an unterminated line that is not the last any more |
| IniLines.RemovedEnds | internal/provider/ini_edit.go:111-130 | removing lines neither adds nor loses the final line feed |
| IniSyntax.ReadIsValid | internal/provider/ini_edit.go:167-212 | whatever a line sets can be written again: its value, and its key if it is not empty and has no white space that the separator would cut, pass the validators |
| IniSyntax.RenderIs | internal/provider/ini_edit.go:236-243 | a written line has nothing but key, separator and value behind its indentation and does not end in a blank |
| HostsPlaces.LineIs | internal/provider/hosts_entry.go:163-191 | a line is an entry if and only if it has two words and the first is an address; its names, white space and comment are kept |
| HostsPlaces.CaseIsIgnored | internal/provider/hosts_entry.go:278-296 | the same lines are found for a name in capitals, and an entry in capitals is found |
| HostsPlaces.AppendedHasFormat | internal/provider/hosts_entry.go:349-402 | a new line has the file's separator and line end, and single spaces between its names |
| HostsPlaces.CrlfStays | internal/provider/hosts_entry.go:364-402 | a file whose lines end in CRLF keeps that |
| HostsPlaces.ChangeIsReported | internal/provider/hosts_entry.go:364-402 | a change is reported if and only if there is one |
| CronReading.JobWordsAre | internal/provider/cron.go:390-419 | a time of five words or one that starts with "@", a user and a command are a job, whatever blanks stand between them |
| CronReading.JobIsWhole | internal/provider/cron.go:390-419 | and nothing else is: what is read as a job has all its words, and the command is the rest of the line |
| CronReading.SettingReads | internal/provider/cron.go:371-387 | a setting is a name and a value with white space anywhere around them, without one pair of quotes |
| CronReading.ItemsAre | internal/provider/cron.go:122-156 | the items of a field are "*", a value or a range that does not end before it starts, and "*" or a range with a step |
| CronReading.ValueIsInRange | internal/provider/cron.go:158-175 | the value of an item is always within its field |
| CronReading.NameIsValue | internal/provider/cron.go:158-175 | a name stands for its number, in upper or lower case |
| CronReading.SchedulesAre | internal/provider/cron.go:89-120 | five fields joined by spaces are a schedule if and only if each is valid in its place |

## Left out

- Terraform plumbing: schemas, plan modifiers, validation of unknown values, diagnostics, import, private-state encoding, and Read; only the values carried from step to step are modelled.
- Modes, owners, times, SELinux labels, descriptors, fsync and locks: a tree has names, kinds, contents and link targets.
- Other processes changing the same tree, chains or files between the steps; random temporary names are fresh, and the temporary tree is a tree of its own.
- Reading tar, gzip, xz and zip streams and hashing: the walker starts from the sequence of entries, and a regular file's reader delivers some contents, perhaps of another size than declared.
- The state of an archive is the set of listed names and kinds; that its strings read back is proved apart (`ListedReadsBack`, `ReadListedIsShown`).
- `drifted_entries`, which compares modes and hashes as well.
- Installations that may overwrite are modelled and merged like the others, but a destroy after one is not claimed to restore anything.
- The nftables backend: its listing is JSON from another program, and its script is one atomic transaction.
- Splitting what iptables prints into lines and words, with its quoting: chains are listed as words.
- Regular expressions are arbitrary predicates on lines, and reading and writing IP addresses is a parameter with the laws that what is written reads back and that addresses have no white space.
- White space outside ASCII: characters stand for bytes, and trimming is that of ASCII.
- Names of users and groups: ACL entries carry IDs; looking names up, and entries that can no longer be looked up, are not modelled.
- AclRuns.RunEndsPlain: takes permissions and IDs to be in range, as parsing them ensures; a write that fails changes nothing, so that a write reported as failed after it took effect is not modelled, nor a file or directory that is gone.
- Conflicts between hosts entries, which only warn or refuse before the edit, and the cron file's own name, mode and owner.
- Writing to the standard input of a command, hashing of its output and the marker that shows truncation; errors of a reader other than the end of the stream or a closed pipe.
- ArchiveWalker.WalkEntries: with a negative stream limit every entry is refused; the source's reader then has no valid buffer to read into. What ends an archive is counted with its last entry.
- ArchiveLifecycle.WholeRunRestores: is stated for runs with overwrite off, and speaks of the destination only. A temporary tree `.sysutils-extract-*` that cannot be removed stays beside it, and so do directories above the destination that were created for it.
- FirewallRule.RuleReadsBack: an IPv4 address written as an IPv6 one is not read back (also `AddressReads`); no configuration has one, and no theorem on the reconciler is about one.
