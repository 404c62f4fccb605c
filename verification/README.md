# The Client's protocols, verified

A Dafny model of the hard parts of `fleet-agent`, the OpAMP Client of opamp-fleet, and proofs of what
they promise. It covers the certificate swap and the file writes below it, unpacking a package
archive whole, the package floors, the Engine that multiplexes Agents over one connection, the
connection settings, the download loops, and four small pieces where the exact grammar or arithmetic
matters: secret masking, the one-block PEM rule, tombstone names and the renewal window.

Check it with `dafny verify dfyconfig.toml`.

## How it is built

Code that changes state step by step is a class or a method with loops, proved equal to a
specification function on values; the theorems are about those functions, over every input or every
run.

- `HeldDirectory`, `CertificateSwap`, `CertificateCrashes`, `Enrolment`: system calls, whole actions,
  runs of both with crashes and errors anywhere, and the methods that make the calls.
- `BoundedRead`, `ArchivePaths`, `ArchiveTree`, `ArchiveTheorems`: bounded reading, member paths,
  the two passes over an archive, and what the tree then holds.
- `SemVer`, `Floors`: version precedence as the code compares it, against section 11 of SemVer 2.0.0;
  floors that only rise, in memory and on disk.
- `FloorGate`: floors and downloads together.
- `Engine`, `EngineRuns`: the Engine object, each method proved equal to a function on slots and queue,
  what those functions change and keep, and whole runs of them.
- `Connection`, `Download`: the settings fold and its closed form; redirects, waits and the stream.
- `Redaction`, `Pem`, `Tombstone`, `Ending`: the small pieces.
- `Outcomes`, `Text`: options, results and string splitting.

Libraries stay abstract: whether a certificate is for a key, whether a signature verifies, a content
hash, the PEM and request parsers and URL joining are function parameters, so every theorem holds for
all of them. The network, the clock and the operating system's failures are inputs or arbitrary
choices; objects marked `reliable` never fail for a reason of the host, which is how the methods are
held to succeeding whenever they could. A completed system call is taken to survive a crash, in order.

## What the code does not promise

Seven properties one might expect are false of the code as it stands. Each is kept as the code has it,
shown to fail by the lemmas named, and replaced by the exact condition.

- **The swap and errors.** A crash anywhere never leaves a mixed pair after a completed recovery. An
  *error* of the rename between the two moves does not stop the process (`transport/mod.rs` only
  warns), and a later offer for neither key then leaves a mixed pair in a serving process
  (`FailureMidSwapBreaksThePair`). `RunHealsExactlyWhen` says of every run, errors included, when there
  is a way back to a whole pair at every moment: exactly when no event tears, which is a condition on
  the directory and the offered certificate or new key before the event. Under it every completed
  recovery ends in a whole pair (`SwapIsSafe`).
- **Wrappers of several directories.** The one directory a release wraps its tree in may have any name:
  the same member is the program and the tree is the same (`SameTreeUnderAnyDirectory`). Between wrappers
  of different depth this fails when the program's path reaches into the wrapper
  (`MatchAcrossWrapperMayDiffer`); `RewrappedExactlyWhen` gives the condition on the paths.
- **Floors across a restart.** A raised floor whose write failed is in memory only and gone at the next
  start (`UnwrittenRaiseIsLost`, `RestartMayLoseAFloor`). A restart keeps the floors exactly when the
  last raise reached the file (`RestartKeepsFloorsExactlyWhen`).
- **Identities.** A reply is routed by identity, and nothing compares a new identity with those of the
  live Agents: neither when the Server re-keys an Agent, nor when a Supervisor is added with the identity
  its directory keeps. Over every run each live Agent is reached by its own identity at every moment
  exactly when no operation re-keys an Agent to, or adds one with, the identity of another live one
  (`RepliesReachTheirAgentsExactlyWhen`). `RestartedUnderATakenIdentity` is the family of runs that lose an
  added Agent although no re-key took a taken identity, and `IdentityMayBeTaken` one of them.
- **Waits.** With a per-wait limit of zero there is no bound on the requests (`NoBoundAtZero`) unless the
  Server stops asking; with a positive one there is (`WaitsAreBounded`).
- **Ending and renewal.** The two rules agree at every moment exactly for lives above zero and up to
  90 days and two seconds (`CoincideExactlyWhen`): the third of a life is rounded down.
- **Fresh tombstones.** Clock and counter stand side by side in a tombstone's name, and only the clock is
  padded. From the year 2554 on it has a digit more, which may be taken for one of the counter
  (`LaterNamesRepeat`); `NamesAreFreshExactlyWhen` gives the bound up to which all names differ.

## Model

| member | source | states |
|---|---|---|
| `HeldDirectory.WriteIsAtomic` | crates/fleet-agent/src/nofollow.rs:396-432 | after every prefix of a write's system calls, a cut inside the content included, the name holds the whole old content, or the whole new content once the last call is made, and no name but it and its temporary has changed |
| `HeldDirectory.SyncedBeforeRenamed` | crates/fleet-agent/src/nofollow.rs:396-432 | of the calls of every write, exactly the last is the rename and exactly the one before it the sync, after every byte; all before the rename touch the temporary alone |
| `HeldDirectory.CallsRefineActions` | crates/fleet-agent/src/nofollow.rs:126-148 | a cut anywhere in the system calls of a list of puts, moves and removals leaves, temporaries aside, what a prefix of the whole actions leaves |
| `HeldDirectory.HeldDir.Write` | crates/fleet-agent/src/nofollow.rs:396-432 | a write that succeeds made exactly the calls unlink, create, write, sync, rename; one that fails at the first made none; one that fails later made a proper prefix and perhaps removed the temporary; a failed write left every other name as it was; a name that is not one plain component is refused before any call; where no call fails, every plain name is written |
| `CertificateSwap.SwapIsSafe` | crates/fleet-agent/src/csr.rs:39-137 | over every run of starts, recoveries, requests and accepted certificates of any content, cut by crashes or errors, in which nothing tears: a recovery would end in a whole pair at every moment, and a process past its recovery sees a whole pair unless an error stopped a swap between its moves since |
| `CertificateSwap.RunHealsExactlyWhen` | crates/fleet-agent/src/csr.rs:39-137 | over every run, errors between the moves included, there is a way back to a whole pair at every moment if and only if no event tears, and then every completed recovery ends in a whole pair |
| `CertificateSwap.EventHealsExactlyWhen` | crates/fleet-agent/src/csr.rs:39-137 | one event with any outcome keeps the way back if and only if it does not put, over a torn pair, a certificate for neither key or a new pending key that what is staged is not for |
| `CertificateSwap.RecoveryHealsExactlyWhen` | crates/fleet-agent/src/csr.rs:94-137 | a recovery ends in a whole pair if and only if the pair was whole or what is staged is for a key that is there |
| `CertificateSwap.NoErrorNoTear` | crates/fleet-agent/src/csr.rs:39-137 | over every run without an error between the moves, crashes and all other errors allowed, nothing tears and a process past its recovery always sees a whole pair |
| `CertificateSwap.RecoveryPutsVerdictInForce` | crates/fleet-agent/src/csr.rs:94-137 | a completed recovery pairs what is staged with the key it is for, preferring the pending one, and otherwise leaves the pair as it was |
| `CertificateSwap.RecoverySettlesTheRequest` | crates/fleet-agent/src/csr.rs:94-137 | a recovery takes the pending key away exactly when it put it in force, and the text of the request exactly when a certificate went into force with no key left pending and the removal worked |
| `CertificateSwap.CutRecovery` | crates/fleet-agent/src/csr.rs:94-137 | a recovery cut after any action, then run again, ends in what the uncut one puts in force |
| `CertificateSwap.RecoveryConverges` | crates/fleet-agent/src/csr.rs:94-137 | so does one whose repetitions are themselves cut any number of times |
| `CertificateSwap.RecoveryIsIdempotent` | crates/fleet-agent/src/csr.rs:94-137 | a second recovery changes nothing, nothing stays staged, and with nothing staged a recovery touches nothing, a pending key included |
| `CertificateSwap.AcceptIsAtomic` | crates/fleet-agent/src/csr.rs:58-86 | an accept cut before the certificate is staged recovers to what was there without it; cut anywhere after, to what the uncut accept puts in force |
| `CertificateSwap.RequestKeepsInvariant` | crates/fleet-agent/src/csr.rs:39-56 | cut anywhere, a request leaves what is in force and what is staged alone, and its text is on disk only with its key |
| `CertificateSwap.AcceptLeavesPairExactlyWhen` | crates/fleet-agent/src/csr.rs:70-137 | from any directory, a completed accept leaves a whole pair if and only if the pair was whole before, or a key is pending and the certificate certifies it or the key in force |
| `CertificateSwap.EventLeavesPairExactlyWhen` | crates/fleet-agent/src/csr.rs:120-131 | from a whole pair, what a running process does and survives leaves a whole pair if and only if it did not fail between the two moves, or nothing was in force, or what was in force also certifies the new key |
| `CertificateSwap.FailureMidSwapBreaksThePair` | crates/fleet-agent/src/csr.rs:120-131 | a run in which a rename error between the two moves, and a foreign certificate after it, leave a mixed pair in a serving process |
| `CertificateCrashes.CallRunRefines` | crates/fleet-agent/src/csr.rs:39-137 | every run of single system calls, with failed writes cleaning up after themselves, is a run of whole actions once temporaries are left aside |
| `CertificateCrashes.SwapIsCrashSafe` | crates/fleet-agent/src/csr.rs:39-137 | the safety of the swap with a crash or an error between any two system calls and inside any write |
| `CertificateCrashes.CallRunHealsExactlyWhen` | crates/fleet-agent/src/csr.rs:39-137 | the same exact condition, on the calls made, for runs of system calls |
| `CertificateCrashes.CrashesAloneAreSafe` | crates/fleet-agent/src/csr.rs:39-137 | with no error right after the key of a running process, a process past its recovery sees a whole pair after every run of system calls |
| `CertificateCrashes.AcceptSurvivesCrash` | crates/fleet-agent/src/csr.rs:70-137 | an accept cut at any system call and recovered by recoveries that are cut any number of times ends in what is in force without the certificate before its file is renamed into place, and from then on in what the uncut accept puts in force |
| `Enrolment.MomentsAreEvents` | crates/fleet-agent/src/csr.rs:39-137 | every moment inside an operation, and the error it returns, is an event of the runs above, so the theorems are about what the methods below do |
| `Enrolment.Recover` | crates/fleet-agent/src/csr.rs:103-137 | makes exactly the calls of a recovery in order, or stops with an error after a prefix of them; where no call fails it succeeds; when it succeeds the verdict is in force and nothing is staged |
| `Enrolment.Accept` | crates/fleet-agent/src/csr.rs:70-86 | refuses a certificate without a pending key before any call; otherwise makes the calls of the staging and of the recovery, all of them or a prefix with an error; where no call fails it succeeds if and only if a key is pending, and then the verdict on the certificate is in force |
| `Enrolment.Request` | crates/fleet-agent/src/csr.rs:39-56 | sends nothing while certificate and key are there and no renewal is due; otherwise, where no call fails, always sends: the request in flight unchanged when there is one, or a new one only with its key and its text both on disk |
| `Enrolment.Generate` | crates/fleet-agent/src/csr.rs:269-278 | writes the key before the request; where no call fails it sends; a failure made a prefix of those calls |
| `BoundedRead.ReadWithin.Read` | crates/fleet-agent/src/archive.rs:572-591 | up to its first error, passes the inner stream on in order; a clean end means the whole stream was passed; past the bound it fails, having passed exactly the bound |
| `BoundedRead.ReadToEnd` | crates/fleet-agent/src/archive.rs:565-591 | for every pattern of short reads, a stream that fits comes out whole with a clean end, one that does not comes out as its first bound bytes and an error; no other error while the stream itself can be read |
| `BoundedRead.CopyWithin` | crates/fleet-agent/src/archive.rs:885-907 | success means the exact content was written; on every path what is written is a prefix of it of at most the limit; the size error only for a source above the limit; any other error only from a source or a file that fails |
| `ArchivePaths.MemberPathIsPlain` | crates/fleet-agent/src/archive.rs:104-123 | whatever an archive calls a member, the path it is written under is one or more names that stay inside the directory they are joined to |
| `ArchivePaths.PlainPathRoundTrips` | crates/fleet-agent/src/archive.rs:104-123 | plain names joined by a slash are taken as they are: no path that could be written is refused or changed |
| `ArchivePaths.SafeMemberPath` | crates/fleet-agent/src/archive.rs:104-123 | the loop over the components refuses exactly the paths that begin with a slash, have a piece `..` or name nothing, and otherwise returns the naming pieces in order, all plain |
| `ArchivePaths.RefusedExactlyWhen` | crates/fleet-agent/src/archive.rs:104-123 | on the text itself: a path is refused if and only if it begins with a slash, has a piece `..` or has no piece but empty ones and `.`; otherwise it is the other pieces in order |
| `ArchivePaths.EndsWithExactlyWhen` | crates/fleet-agent/src/archive.rs:166-202 | a path ends with another, nonempty one if and only if it is some path followed by it |
| `ArchivePaths.LocatesTheOnlyMatch` | crates/fleet-agent/src/archive.rs:131-202 | a program is located if and only if exactly one member ends with its path, and prefix and program path together are that member's path |
| `ArchiveTree.ListMembers` | crates/fleet-agent/src/archive.rs:595-628 | the validating pass accepts if and only if the archive ends cleanly, has at most 10000 members, declares at most the limit in saturating arithmetic and every member is a file or a directory with a plain path; it returns the paths in order |
| `ArchiveTree.ListableExactlyWhen` | crates/fleet-agent/src/archive.rs:595-628 | what the validating pass accepts, on the raw entries: at most 10000, files and directories only, none with an absolute, climbing or empty path, a true declared sum within the limit, and a clean end |
| `ArchiveTree.DeclaredWithinExactlyWhen` | crates/fleet-agent/src/archive.rs:52-60 | the saturating running total is within a limit if and only if the true sum is, or the limit is the largest 64-bit number: saturation lets nothing through |
| `ArchiveTree.Unpacker.WriteMember` | crates/fleet-agent/src/archive.rs:517-547 | writes, creates, passes over or skips one member, counts it, changes nothing but plain paths below the destination, and keeps the bytes written within the budget even when it fails |
| `ArchiveTree.Unpacker.ExtractTree` | crates/fleet-agent/src/archive.rs:464-509 | nothing changes unless every member is acceptable and one program is located; however it ends, only plain paths change, nothing is removed and at most the limit is written; where no read or write fails it succeeds if and only if, besides, no file and directory collide and the content fits; on success the tree and the counts are those of the members, and the counts add up to the member count |
| `ArchiveTree.CountsAddUp` | crates/fleet-agent/src/archive.rs:413-440 | files, skipped members, directories and entries equal to the prefix make up all members |
| `ArchiveTree.ClassifiedBy` | crates/fleet-agent/src/archive.rs:517-531 | a member is skipped exactly outside the prefix, passed over exactly at it, and a directory or a file exactly below it |
| `ArchiveTheorems.PlacesAreDistinct` | crates/fleet-agent/src/archive.rs:517-531 | two members under the prefix share a place only when they share their path |
| `ArchiveTheorems.MemberLands` | crates/fleet-agent/src/archive.rs:464-547 | every member under the prefix stands in the tree with its own content unless a later member repeats its path |
| `ArchiveTheorems.PlacedExactlyWhen` | crates/fleet-agent/src/archive.rs:517-547 | a member cannot be placed if and only if a file stands where it needs a directory, or a directory where its file goes |
| `ArchiveTheorems.FilesComeFromMembers` | crates/fleet-agent/src/archive.rs:464-547 | every new or changed file is some member's, at that member's place and with its content |
| `ArchiveTheorems.DirectoriesLeadToMembers` | crates/fleet-agent/src/archive.rs:464-547 | every new directory is on the way to some member, or is one |
| `ArchiveTheorems.TreeStaysRooted` | crates/fleet-agent/src/archive.rs:464-547 | everything unpacked stands in directories that are there, all the way up, when that was so before |
| `ArchiveTheorems.ProgramHoldsItsMember` | crates/fleet-agent/src/archive.rs:464-547 | the file at the program's path holds exactly the bytes of the one member that matched |
| `ArchiveTheorems.SameTreeUnderAnyDirectory` | crates/fleet-agent/src/archive.rs:125-146 | two archives that differ in the name of the one wrapper directory, each locating one program, locate the same member and unpack to the same tree over anything |
| `ArchiveTheorems.RewrappedExactlyWhen` | crates/fleet-agent/src/archive.rs:125-146 | under wrappers of any depth they place every member alike if and only if the program path lies inside the member it matched or the other wrapper ends in the part that reaches out, and then unpack to the same tree over anything |
| `ArchiveTheorems.LocatedAlikeExactlyWhen` | crates/fleet-agent/src/archive.rs:131-202 | the same condition is exact for locating the same member |
| `ArchiveTheorems.MatchInsideMemberIsShared` | crates/fleet-agent/src/archive.rs:125-146 | a program path inside the member it matched locates the same member under every wrapper |
| `ArchiveTheorems.DifferentProgramsDiffer` | crates/fleet-agent/src/archive.rs:166-202 | when they located members of different kind or content, the trees differ |
| `ArchiveTheorems.MatchAcrossWrapperMayDiffer` | crates/fleet-agent/src/archive.rs:131-146 | two archives under wrappers of different depth that unpack to different trees |
| `SemVer.PrecedenceIsSection11` | crates/fleet-core/src/version.rs:167-239 | on all SemVer versions, less, equal and greater are exactly the order section 11 of SemVer 2.0.0 defines on the numbers and identifiers they write |
| `SemVer.PrecedenceIsTotalPreorder` | crates/fleet-core/src/version.rs:167-198 | on everything that parses, precedence is reflexive, antisymmetric under swapping, transitive and total, and its ties are exactly the versions of one identity |
| `SemVer.NumericComparesValues` | crates/fleet-core/src/version.rs:235-239 | comparing digit strings by length and then as text compares the numbers they write |
| `SemVer.ParsedExactlyWhen` | crates/fleet-core/src/version.rs:62-115 | a text parses as a version if and only if it is that version written out: three numbers without leading zeros, then, each optional and nonempty, a pre-release and a build of dotted letters, digits and hyphens |
| `SemVer.SemVerExactlyWhen` | crates/fleet-core/src/version.rs:117-148 | a text is SemVer if and only if it is such a version of at most 64 characters whose pre-release has no number with a leading zero |
| `SemVer.VersionIsAPlainName` | crates/fleet-core/src/version.rs:62-115 | whatever parses is one plain name without separators, so it names a directory and none outside its place |
| `SemVer.CoreIsSemVer` | crates/fleet-core/src/version.rs:74-121 | three numbers without leading zeros joined by dots are always taken, as themselves |
| `SemVer.IdentityIsBaseAndPrerelease` | crates/fleet-core/src/version.rs:150-165 | two versions have one identity exactly when base and pre-release agree |
| `SemVer.ComparePrerelease` | crates/fleet-core/src/version.rs:200-216 | the loop over the fields is the lexicographic order, fewer fields first |
| `Floors.FloorFile.Take` | crates/fleet-agent/src/floors.rs:128-175 | in whatever order the types come, the kept floors become those raised by a signed higher version and are otherwise as before, and the file changes exactly when one was raised and the write works; nothing happens without a key or over an unreadable file |
| `Floors.FileStaysReadable` | crates/fleet-agent/src/floors.rs:97-123 | a file that opened once opens after every run, with nothing but SemVer versions: what is written can be read back |
| `Floors.KeptFloorIsMaximum` | crates/fleet-agent/src/floors.rs:125-175 | for every sequence of served maps, the kept floor of a type is one of the starting floor and the served ones that are signed and SemVer, and none of them orders above it |
| `Floors.ChangedFloorIsSigned` | crates/fleet-agent/src/floors.rs:72-175 | over every sequence, a floor that is new or has changed is signed by the key and SemVer |
| `Floors.SignedFloorCounts` | crates/fleet-agent/src/floors.rs:125-175 | every served floor that is signed and SemVer counts: the kept one is never below it, and has its identity when none was above it |
| `Floors.FloorNeverFalls` | crates/fleet-agent/src/floors.rs:125-175 | a kept floor stays kept and never orders below an earlier one |
| `Floors.ReplacedOnlyByHigher` | crates/fleet-agent/src/floors.rs:125-175 | over every sequence, a kept floor is the very same one or has been replaced by a strictly higher version |
| `Floors.OrderDoesNotMatter` | crates/fleet-agent/src/floors.rs:125-175 | two sequences that offer a type the same floors keep floors of one identity, or none |
| `Floors.RestartKeepsFloorsExactlyWhen` | crates/fleet-agent/src/floors.rs:128-181 | over every run of served maps, failed writes and restarts, the next restart changes no floor if and only if the last raise reached the file |
| `Floors.UnwrittenRaiseIsLost` | crates/fleet-agent/src/floors.rs:167-175 | every raise whose write fails is undone by a restart |
| `Floors.RestartMayLoseAFloor` | crates/fleet-agent/src/floors.rs:167-175 | a run in which a kept floor is gone after the next start |
| `Floors.UnreadableLatches` | crates/fleet-agent/src/floors.rs:80-86 | an unreadable file refuses and stays as it is through every run |
| `FloorGate.RefusedExactlyWhenBelowAFloor` | crates/fleet-agent/src/supervisor/agent/packages.rs:546-565 | after every sequence of served floors, an Agent is refused a version if and only if it is held to floors and the version is below the starting floor of its type or any served one that verified |
| `FloorGate.QueueIsHeldToAllFloors` | crates/fleet-agent/src/engine.rs:205-228 | what is left of the download queue is exactly the downloads below none of all those floors of their Agents, in the same order |
| `FloorGate.UnreadableRefusesAll` | crates/fleet-agent/src/supervisor/agent/packages.rs:546-565 | an unreadable floors file refuses every version to exactly the Agents held to floors, with the reason it could not be read |
| `Engine.HandledReachesOne` | crates/fleet-agent/src/engine.rs:545-637 | a reply changes the first live Agent with its identity and no other slot; the package it offers is queued last, under that slot and the name of its Agent, and nothing else is; its settings offer replaces the one waiting; its configuration is the Client's own exactly in an unmanaged slot 0 |
| `Engine.HandledTells` | crates/fleet-agent/src/engine.rs:564-622 | the Agent it reaches takes the new identity and owes a report if and only if it did, was asked for one, or its adapter did not take the configuration; that alone is recorded, last, under its hash and as an error |
| `Engine.HandledReachesNone` | crates/fleet-agent/src/engine.rs:545-562 | without a live Agent of its identity a reply changes nothing |
| `EngineRuns.RepliesReachTheirAgentsExactlyWhen` | crates/fleet-agent/src/engine.rs:545-562 | over every run, each live Agent is reached by its own identity at every moment if and only if no reply re-keys an Agent to, and no add brings, the identity of another live one |
| `EngineRuns.StepStaysDistinctExactlyWhen` | crates/fleet-agent/src/engine.rs:545-709 | one operation keeps live identities distinct if and only if it takes none that is taken |
| `Engine.AllReachableExactlyWhenDistinct` | crates/fleet-agent/src/engine.rs:555-562 | every live Agent is reached by its identity if and only if no two share one |
| `EngineRuns.AddedUnderATakenIdentity` | crates/fleet-agent/src/engine.rs:701-709 | an Agent added under a taken identity is never reached, and replies go to the one that has it |
| `EngineRuns.RestartedUnderATakenIdentity` | crates/fleet-agent/src/engine.rs:701-767 | for every Engine: a Supervisor retired, another Agent re-keyed to the identity it left, and the Supervisor started again, which then gets no replies |
| `EngineRuns.IdentityMayBeTaken` | crates/fleet-agent/src/engine.rs:701-709 | one such run, written out |
| `Engine.AbsorbedReachesOne` | crates/fleet-agent/src/engine.rs:790-843 | an event changes its Agent, if that is live, and no other slot; one for an unknown or retired Agent changes nothing |
| `Engine.AbsorbedTells` | crates/fleet-agent/src/engine.rs:790-843 | the outcome an event carries is recorded last, as it came, with those of its kind and nowhere else; the Agent then owes a report and is otherwise the same |
| `Engine.Multiplexer.PollReports` | crates/fleet-agent/src/engine.rs:518-527 | the loop makes the reports of the live Agents and settles what they owe |
| `EngineRuns.WantedReportOnce` | crates/fleet-agent/src/engine.rs:518-540 | every Agent asked for reports exactly once, in slot order and under its own identity, and nobody else does |
| `EngineRuns.ReportingSettles` | crates/fleet-agent/src/engine.rs:518-540 | after a poll, and after the owed reports, no live Agent owes one, and nothing else has changed |
| `EngineRuns.OwingAllIsAPoll` | crates/fleet-agent/src/engine.rs:476-540 | once every Agent owes the outcome of a settings offer, the owed reports are those of a poll, and every live Agent is left as a poll leaves it |
| `Engine.Multiplexer.OwedReports` | crates/fleet-agent/src/engine.rs:531-540 | the loop makes the reports of the live Agents that owe one and settles them |
| `EngineRuns.StepContinues` | crates/fleet-agent/src/engine.rs:688-709 | no operation moves an Agent or its block, only a retirement retires and only those of the named blocks, and an added Agent is live at the next index |
| `EngineRuns.AddedIsNext` | crates/fleet-agent/src/engine.rs:701-709 | an added Agent takes the next index as it is, live, with an adapter, owing its first report, held to floors exactly where it was or the Engine has them; nobody else changes |
| `Engine.Multiplexer.RetireSupervisors` | crates/fleet-agent/src/engine.rs:721-767 | each live Agent of a named block is retired with one goodbye, in slot order, the events of its adapter's end absorbed before; every slot stays |
| `Engine.Multiplexer.DisconnectMessages` | crates/fleet-agent/src/engine.rs:771-777 | one goodbye for each live Agent |
| `Engine.Multiplexer.HoldDownloadsToFloors` | crates/fleet-agent/src/engine.rs:211-228 | the pass over the queue records each refusal as it goes and ends in what judging every download against the slots before the pass gives |
| `EngineRuns.ApplyingKeeps` | crates/fleet-agent/src/engine.rs:394-466 | handing an artifact on changes its slot and no other, and re-keys, moves and retires nobody |
| `Engine.ApplyingIsOwedUnlessItGoesOn` | crates/fleet-agent/src/engine.rs:394-466 | it ends in an outcome for that hash and a report owed, a success only for the version already running, unless the install goes on in the self-update or in an adapter that took it |
| `Engine.RetiringKeeps` | crates/fleet-agent/src/engine.rs:721-767 | a retirement moves and re-keys nobody, and retires exactly the live Agents of the named blocks |
| `Engine.DrainedOutcomesAreKept` | crates/fleet-agent/src/engine.rs:721-767 | an outcome that arrives while an adapter winds down, for its Agent or for any that is not gone yet, is recorded on that Agent |
| `EngineRuns.KeptInOrder` | crates/fleet-agent/src/engine.rs:208-228 | the queue left is exactly the downloads their Agent's floor does not refuse, each once, in the same order |
| `EngineRuns.RefusedInOrder` | crates/fleet-agent/src/engine.rs:208-228 | what is recorded on an Agent is exactly its own refused downloads, each once, in order, under its hash and with the reason as an error, and it owes a report if and only if it did or one was refused |
| `EngineRuns.IndexDenotesItsAgent` | crates/fleet-agent/src/engine.rs:63-77 | over every run, each slot keeps its Agent and its block, a retired one stays retired, and every download queued or in flight is tagged with the slot of the Agent it was offered to |
| `EngineRuns.DownloadReachesItsOwner` | crates/fleet-agent/src/engine.rs:394-474 | whatever was added or retired since, a finished or failed download changes the slot of the Agent it was offered to and no other |
| `EngineRuns.DownloadsAreConserved` | crates/fleet-agent/src/engine.rs:208-474 | over every run, the downloads that waited or were in flight at the start and those offered since are, with multiplicity, those finished, failed or refused and those still there |
| `EngineRuns.EventReachesItsAgent` | crates/fleet-agent/src/reconfigure.rs:505-543 | an event tagged with the index a Supervisor was started under reaches its Agent and no other through every run, and changes nothing once it is retired |
| `EngineRuns.EveryAgentSaysOneGoodbye` | crates/fleet-agent/src/engine.rs:711-777 | over every run with the self-Agent in slot 0, a retired Agent has said exactly one goodbye and nothing since; after one disconnect every Agent ever added has said exactly one, as its last word |
| `Connection.TelemetryClosedForm` | crates/fleet-agent/src/connection.rs:95-131 | after every sequence of offers, all three signals are those of the last offer that named any of them, an empty endpoint meaning none |
| `Connection.OpAmpClosedForm` | crates/fleet-agent/src/connection.rs:132-159 | endpoint, certificate and heartbeat are each the last one stated, on its own; the block is there exactly when some side had one; no tls, proxy or headers survive |
| `Connection.PersistedIsTheFold` | crates/fleet-agent/src/transport/mod.rs:425-431 | over every run of offers, with rewrites and stores that fail, the settings in the file are the fold of the offers that were stored |
| `Connection.SettingsFile.Load` | crates/fleet-agent/src/connection.rs:29-57 | a file that does not decode is no settings and is left alone; from one that does everything is returned but the headers, which leave the file when it can be written |
| `Connection.SettingsFile.TakeOffer` | crates/fleet-agent/src/transport/mod.rs:425-431 | an offer is folded over what the file holds and stored whole, or the settings the file holds stay |
| `Connection.Unhonoured` | crates/fleet-agent/src/connection.rs:176-196 | names exactly the fields the fold drops, each once, and the keys of dropped headers: nothing is named if and only if folding the settings keeps them whole |
| `Connection.ClientConfig.Apply` | crates/fleet-agent/src/connection.rs:202-222 | a stated endpoint wins unless it is a plaintext one that differs from the one there, a stated heartbeat wins for both intervals, and what is not stated stays |
| `Connection.PlaintextIsTheFilesOwn` | crates/fleet-agent/src/connection.rs:202-222 | after any settings applied in turn, a plaintext endpoint in force is the configuration file's own, and applying the last ones again changes nothing |
| `Download.FollowWalks` | crates/fleet-agent/src/packages.rs:254-283 | each request was permitted, each goes where the answer before it redirected, there are at most as many as hops; the last answer is returned if it redirects no further, and otherwise the refusal says which of the hops, the target or its permission ended the walk |
| `Download.PermittedExactlyWhen` | crates/fleet-agent/src/packages.rs:219-240 | a URL is permitted if and only if its scheme and host are the Server's, its port is, given or by default, and it is https, wss or a loopback host |
| `Download.WalkRedirects` | crates/fleet-agent/src/packages.rs:254-283 | the loop makes exactly the requests of the recursive walk and returns its result |
| `Download.SendDownload` | crates/fleet-agent/src/packages.rs:254-283 | at most six requests, the first to the URL asked for, each following the redirect before it and each, by its scheme, host and port, at the Server's own origin; a final answer is returned, and a URL of that origin is not refused |
| `Download.WaitsAreBounded` | crates/fleet-agent/src/packages.rs:309-357 | for every sequence of answers and every clock, all waits together take at most the total, none ends past the deadline, and for a positive limit their number is at most the total over the shortest wait |
| `Download.WaitIsWhatWasAsked` | crates/fleet-agent/src/packages.rs:309-357 | the wait is the one asked for, but at least a second, cut to the limit |
| `Download.NoBoundAtZero` | crates/fleet-agent/src/packages.rs:344-352 | with a limit of zero, any number of waits fits before the clock moves |
| `Download.SendPatiently` | crates/fleet-agent/src/packages.rs:285-304 | ends for every positive per-wait limit, and without one once the Server stops asking; sits out waits that were each asked for by an answer it got, none ending past the deadline and together at most the total; one call more than waits, for a positive limit at most total over the shortest wait plus one, six requests each, all to the origin of the Server; what it returns is its last answer, or a refusal exactly when that is refused or asks for a wait there is no time for |
| `Download.WriteStream` | crates/fleet-agent/src/packages.rs:483-534 | where no write fails it succeeds if and only if the body is whole and neither it nor what it announces is above the cap; success means the file holds the whole body and its hash was taken of it; on every path at most the cap is written; a body that announces too much writes nothing |
| `Download.Staging.DownloadAndVerify` | crates/fleet-agent/src/packages.rs:109-186 | requests are made if and only if the name is safe and there are a key and a signature; what is reported in place is the answered body, with the offered hash and a signature that verifies for this name and version, and where no write fails such an answer always is; a failure leaves what was there, nothing, or what could not be removed |
| `Download.StagedFileStaysInside` | crates/fleet-agent/src/packages.rs:50-65 | a name is taken if and only if it is 1 to 64 letters, digits and `._+-`, and then its file stays in the staging directory |
| `Redaction.RedactedSameExactlyWhen` | crates/fleet-agent/src/config_file.rs:245-302 | two documents redact to the same one if and only if they differ only in values under secret keys at any depth, or in values under auth |
| `Redaction.RedactionIsIdempotent` | crates/fleet-agent/src/config_file.rs:245-302 | redacting twice is redacting once |
| `Redaction.RedactedLeaf` | crates/fleet-agent/src/config_file.rs:245-302 | at every path, a value outside auth with none of the keys bearer_token, password and archive_key on the way is what it was, and any other value is masked or not there |
| `Pem.AcceptedHasOneBoundaryOfEachKind` | crates/fleet-core/src/csr.rs:20-56 | an accepted text holds exactly one BEGIN and one END boundary of any label, so the first and the last block a reader finds have the same body |
| `Pem.DerExactlyWhen` | crates/fleet-core/src/csr.rs:20-56 | a text yields given bytes if and only if it is one block of base64 lines with blanks around it that parses to those bytes under the right label with nothing left over, and they are a request |
| `Pem.AcceptedIsOneBlock` | crates/fleet-core/src/csr.rs:30-45 | an accepted text is whitespace, one block and whitespace, and nothing else |
| `Pem.OneBlockIsFound` | crates/fleet-core/src/csr.rs:30-45 | every such text passes the boundary and alphabet checks, with its own body |
| `Tombstone.TombstoneReadsBack` | crates/fleet-agent/src/config.rs:382-392 | for every valid Supervisor name and every nonce the tombstone form is read back as that name |
| `Tombstone.OnlyTombstonesAreTaken` | crates/fleet-agent/src/config.rs:382-392 | whatever is read as a tombstone has exactly one such decomposition and is no valid Supervisor name |
| `Tombstone.LookalikesAreNotTaken` | crates/fleet-agent/src/config.rs:377-392 | a name of the same form whose last part is shorter than 17 or not all lowercase hexadecimal is never read as a tombstone |
| `Tombstone.InstanceNameExactlyWhen` | crates/fleet-agent/src/config.rs:352-369 | a Supervisor name is 1 to 32 lowercase letters, digits and hyphens, with no hyphen at either end, and none of the device names |
| `Tombstone.InstanceNamesAreDirectories` | crates/fleet-agent/src/config.rs:352-369 | the name of every Supervisor is one plain component of at most 32 characters on every host, never hidden and no device |
| `Tombstone.WrittenTombstoneReadsBack` | crates/fleet-agent/src/reconfigure.rs:221-234 | at every moment and for every counter the name written for a Supervisor is read back as its tombstone |
| `Tombstone.NamesAreFresh` | crates/fleet-agent/src/reconfigure.rs:221-234 | while the nanoseconds fit 64 bits, two written names are equal if and only if Supervisor, moment and counter are |
| `Tombstone.NamesAreFreshExactlyWhen` | crates/fleet-agent/src/reconfigure.rs:221-234 | below a bound on the clock the names of a Supervisor are all different if and only if the bound is at most 2^64 + 1 nanoseconds |
| `Tombstone.LaterNamesRepeat` | crates/fleet-agent/src/reconfigure.rs:221-234 | every later clock whose last digit is not zero, with a counter of one digit, writes the name of an earlier moment and a counter of two |
| `Ending.StandingExactlyWhen` | crates/fleet-core/src/ending.rs:23-34 | a certificate has ended from its last second on, and is ending exactly for the last 30 days before, or the last third of its life where that is shorter |
| `Ending.EndingMeansDue` | crates/fleet-core/src/ending.rs:25-34 | a certificate that is ending or ended is already due for renewal, and time only moves the standing on |
| `Ending.CoincideExactlyWhen` | crates/fleet-agent/src/csr.rs:200-219 | the two rules agree at every moment if and only if the life is above zero and at most 90 days and two seconds |
| `Ending.ExitCode` | crates/fleet-core/src/ending.rs:36-49 | 2 if and only if one has ended, 1 if and only if one is ending and none has ended, and 0 otherwise, for none at all too |

## Left out

- X.509 and key parsing, Ed25519, SHA-256, gzip, tar, 7z and zip, TOML, JSON and protobuf codecs: abstract, as function parameters or as already decoded values.
- Reading a file that is there always works in the model; a key that cannot be read counts as certified by nothing, as in the code.
- File modes, owners, links and the Windows half of `nofollow.rs`; the mode changes between a temporary's creation and its first byte are not steps of their own.
- HeldDirectory.HeldDir.Write: refuses a name ending in `/` or `/.` that `Path::components` would take as one component; no caller passes one.
- Opening the state directory: a missing one holds nothing to recover, a link is refused; neither is modelled.
- BoundedRead.ReadWithin.Read: states nothing about reads after the error past the bound, because the byte that showed there was more is then gone.
- Windows drive prefixes in member paths, the executable bits of unpacked files, the 7z and zip listings and single-member extraction: the shared steps are modelled once, for `.tar.gz`.
- ArchiveTheorems.RewrappedExactlyWhen: states the converse for the members' places, not for whole trees, because members of equal content may leave equal trees; `DifferentProgramsDiffer` gives it for members that differ.
- SemVer.PrecedenceIsSection11: states nothing for strings that parse but have a numeric pre-release identifier with a leading zero, which are no SemVer versions; they still are in the total preorder.
- Fetching the floors and its timing; two served types are handled one after the other, never at once.
- What an Agent's own state machine reports, sampling, health, high-water marks, spans and logs; the channels between the Engine and its adapters beyond accepted or not.
- The outcome `connection_settings_outcome` records (that every Agent then owes a report is modelled), and the Engine's `self_config_applied`, `set_self_effective_config`, `request_certificate` and `shutdown_processes`: updates of one or all Agents beside the ones modelled.
- The restart command a reply may carry: it goes to the adapter and changes nothing in the Engine.
- EngineRuns.EventReachesItsAgent: a start that fails after its Endpoint is up leaves an Endpoint tagged with an index the next Agent takes; no process has its token, so it is not modelled as a source of events.
- Verifying a settings offer by connecting, and the certificate files beside the settings.
- Connection.ClientConfig.Apply: the heartbeat is a natural number, not 64 bits wide.
- Download.SendPatiently: with a per-wait limit of zero it is stated for a Server that asks to wait only finitely often, because otherwise the loop may never end (`NoBoundAtZero`); the Client's own limit is a minute.
- Download headers, TLS, timeouts, progress, and resolving the offered URL; loopback hosts are compared in their canonical spelling.
- Redaction works on the parsed document as a value rather than in place; comments, layout and the placeholder for text that does not parse are not modelled.
- Ending.CoincideExactlyWhen: exact integer seconds, without the saturation at 64 bits and the rounding of floating point in the renewal rule.
- Error texts, beyond the ones an Agent records.
- The Server, the Gateway, the operator tools, the service integration, the self-update and the supervision of processes.
