# Verification model of tt-dal

tt-dal gives user programs sessions on Tenstorrent devices through a kernel
driver. This project models the parts of it that hold a protocol, state or
arithmetic, and proves what they promise: the telemetry snapshot with its fault
guard, the life of sessions, windows and resets among many clients, the SMC
exchange, the binding's retry loops, and the texts for PCI addresses and firmware
versions.

`dafny verify dfyconfig.toml` checks everything.

## How it is laid out

| file | what it models |
|---|---|
| `Errors.dfy`, `Sessions.dfy` | error codes, the thread's `errno`, the session struct |
| `Clock.dfy` | elapsed time in 64-bit arithmetic; the clock and sleeps as an environment |
| `Smc.dfy`, `Queued.dfy` | the SMC slot and its five calls; the Rust handle to a posted message |
| `Kernel.dfy` | the driver as a state machine shared by all clients, and the laws of all its runs |
| `Host.dfy` | this process's system calls on that machine |
| `Lifecycle.dfy`, `Tlb.dfy` | open, close, reopen; windows |
| `Ownership.dfy`, `Program.dfy` | conservation over whole runs; a client program whose calls make such runs |
| `Reset.dfy` | the reset sequence |
| `Trap.dfy`, `TagIndex.dfy` | the fault guard; the tag index |
| `Coherence.dfy` | when a table that was accepted is from one cycle of the firmware |
| `Snapshot.dfy`, `Telemetry.dfy`, `Tables.dfy` | the snapshot and its reads; the whole telemetry call; what its table means |
| `Retry.dfy`, `Scan.dfy` | the persistent session; the scan that grows its buffer |
| `Text.dfy`, `Pci.dfy`, `Lookup.dfy`, `Version.dfy` | numerals, PCI addresses, lookup by address, firmware versions |

Calls that update state are methods on classes (`Session`, `Tlb`, `Trap`,
`Channel`, `Queued`, `Operation`, `Host`, `Thread`, `RawVersion`); what they do to
the state is a relation or a function (`BindRel`, `WaitRel`, `Build`, ...) about
which the laws are proved as lemmas. What a call did on the way is recorded by the
environment and not by the call: the contracts speak of the log of system calls
(`Host.log`), of the window reads and their cycles (`Firmware.trail`), of the
channel's commands (`Channel.cmds`), and of the number of runs of a caller's
operation (`Operation.runs`).

## The environment

Nothing outside the library is trusted to behave better than documented.

- Before every system call and every window read, all other clients and the
  hardware take any number of steps: they open, close, map, reset, remove or
  re-probe devices. A step on behalf of another client never touches this
  process's descriptors, except that a reset or removal severs them.
- Open-time arbitration is the one `include/ttdal.h:339-359` documents (driver
  2.10 or later): an exclusive hold excludes every other, a shared hold excludes
  exclusive ones, and a descriptor holds its device until it is closed and its
  last mapping is gone, or the device is removed: a hold belongs to an instance of
  a device, and probing it again makes a new one (`State.gone`). A descriptor is
  named by a number that is never reused.
- Any system call may fail with any errno, but the driver answers `EAGAIN` at
  open only for arbitration. `Host.failed` records every failure, so that
  contracts can say which one a call reports. A severed descriptor answers
  `ENODEV`, and its mappings fault.
- Each look at sysfs shows anything at all, at a time of its own (`EvLook`).
- `close` releases the descriptor even when it reports an error. `munmap` of a
  live mapping may fail; `Host.unmaps` marks the runs in which it does not, and
  `leaked` names the mappings it would not remove otherwise.
- A caller's operation may come out in any way, each time it is run
  (`Operation.outcome`), and may add windows and mappings to this process.
- The SMC slot follows the contract in `vendor/tt-kmd/ioctl.h:477-522`.
- The clock never goes back. A step of a timed loop takes less than 2^60 ns; a
  signal may end any sleep early, and finitely many signals arrive
  (`Timer.signals`). A timed loop makes its first check as it starts.
- Firmware publishes a table atomically: a read sees the current cycle. That it
  counts its publishes in the heartbeat (`Beats`) is an assumption of the coherence
  results only.

## Where the code and its documentation part

The model follows the code.

- A failed `tt_reopen` may leave the stale descriptor number in the session, when
  `close` reported an error (`src/dev/mod.c:226`, `src/dev/mod.c:245-246` against
  `include/ttdal.h:407-409`): `Lifecycle.FailedReopenKeepsNumber`, and exactly when
  in `Lifecycle.FailedReopenCloses`.
- A failed `tt_tlb_bind` leaves the pointer set when the session is closed
  (`src/dev/tlb.c:85-86`): `Tlbs.FailedBindClears`, `Tlbs.ClosedBindKeeps`.
- A snapshot without a heartbeat tag is accepted unchecked, and one heartbeat
  cannot tell 2^32 publishes from none (`src/dev/telem.c:161-221` against
  `include/ttdal.h:976`): `Coherence.NoHeartbeatTears`, `Coherence.WrapTears`, and
  exactly when, for every index, in `Coherence.CoherentIff`.
- `ETIMEDOUT` from a wait does not always leave the message outstanding: the
  driver may report a failed exchange with it, which consumes the message:
  `QueuedMessages.TimeoutMayConsume`, `QueuedMessages.TimeoutLeavesMessage`.
- A timeout shorter than a millisecond waits the default second:
  `QueuedMessages.BudgetOfTimeout`.
- After a reopen an old window handle names a window of the new descriptor:
  `Ownership.StaleFreeTakesWindow`, and exactly when freeing it is harmless in
  `Ownership.FreeHarmlessIff`.
- A hex field of more than 32 bits is not read as written by the lookup, but as its
  last 32 bits, or as 2^32 - 1 when it has more than 64; and a PCI device or function
  number is not held to five or three bits by the binding: `Lookup.AddressExact`,
  `Lookup.WideFieldAliases`, `Pci.WideFieldsAccepted`.
- A lookup among more than 64 devices does not stop at the 64 it has stored to report
  `ENODEV`, but goes on past them (`src/dev/mod.c:102-103` against
  `src/dev/mod.c:97-100`): exactly when in `Lookup.TtDevFromBdf`.
- A firmware version of more than 31 characters is refused or misread:
  `Versions.ReadsBackIff`.

## Model

| member | source | states |
|---|---|---|
| Errors.Normalize | src/err.h:31-33 | a session operation never reports `ENODEV`; it reports a lost connection exactly for `ENODEV` and for `ECONNRESET` itself |
| Clock.DiffDefined | src/clock.h:17-21 | which ordered intervals the signed 64-bit arithmetic can measure, to the nanosecond |
| Clock.DiffIsFloor | src/clock.h:17-21 | a measured interval reads as its whole milliseconds, also across a second boundary |
| Clock.DiffWraps | src/clock.h:17-21 | the unsigned result wraps exactly for intervals a millisecond or more backwards |
| Clock.DiffMonotone | src/clock.h:17-21 | elapsed time does not shrink as the end point advances, and stays measurable below a measurable end |
| Clock.AdjacentIntervals | src/clock.h:17-21 | n adjacent intervals measured one by one never exceed the whole and fall short of it by less than n milliseconds |
| Clock.Timer.Elapsed | src/clock.h:24-28 | whole milliseconds since the start point, for every interval the 64-bit arithmetic can measure |
| Smc.Post | src/dev/smc.c:54-73 | an accepted post puts exactly the request in an idle slot; a refused one leaves the slot alone, with `EBUSY` only for an outstanding message and the driver's cause otherwise |
| Smc.Poll | src/dev/smc.c:79-100 | success takes the reply and frees the slot; `EAGAIN` leaves everything; any other failure leaves a free or severed descriptor; the response is written on success only |
| Smc.Wait | src/dev/smc.c:107-138 | the descriptor is polled at least once and at most budget + 33 times (plus interrupted sleeps, below the counter's wrap), with a sleep of a millisecond after each poll past the first 32 that does not end it; a timeout of its own means the driver's last answer was `EAGAIN`, the whole budget has passed and the message is still outstanding; every other end frees the slot or finds it severed; terminates |
| Smc.PollsFromSleeps | src/dev/smc.c:123-137 | with the 32-bit spin counter, n sleeps leave room for n + 32 polls |
| Smc.Drop | src/dev/smc.c:145-163 | the slot is idle afterwards, or the descriptor severed |
| Smc.Call | src/dev/smc.c:23-48 | an accepted request leaves the descriptor free on every path; a refused one leaves the earlier message; the words sent are the original ones even when request and response are one object, and survive every failure; the wait's error is reported, its own timeout only after the whole budget |
| Smc.MessagesConserved | src/dev/smc.c:54-163 | over every run of the slot, the accepted messages are answered, failed or dropped in the order they were posted, once each, but for one outstanding message, which is the last |
| Smc.Channel.Conserved | src/dev/smc.c:54-163 | so, at any point, the requests the driver accepted on a channel are those with a fate and the outstanding one, and the replies received are those of the answered requests, in order |
| QueuedMessages.BudgetOfTimeout | bind/rs/src/dev/smc/msg.rs:133-135 | the budget a duration really gets: its whole milliseconds, capped, and the default second below one millisecond |
| QueuedMessages.Queued.Post | bind/rs/src/dev/smc/msg.rs:44-54 | a handle exists exactly after an accepted post, not done, with the request in the slot |
| QueuedMessages.Queued.Wait | bind/rs/src/dev/smc/msg.rs:66-80 | done is false exactly after a timeout, so any finished exchange is done, done implies a free slot, and giving up takes the whole budget |
| QueuedMessages.Queued.TryWait | bind/rs/src/dev/smc/msg.rs:95-107 | done is false exactly after `EAGAIN`, and done implies a free slot |
| QueuedMessages.Queued.Release | bind/rs/src/dev/smc/msg.rs:122-130 | dropping the handle leaves the descriptor free to post again |
| QueuedMessages.DoneTracksSlot | bind/rs/src/dev/smc/msg.rs:66-130 | for every sequence of waits, tries and resets, done implies a free slot, and an outstanding message is still the posted one |
| QueuedMessages.TimeoutMayConsume | bind/rs/src/dev/smc/msg.rs:109-119 | a driver failure coded `ETIMEDOUT` consumes the message though the handle keeps it for a retry; the later drop is harmless |
| QueuedMessages.TimeoutLeavesMessage | src/dev/smc.c:120-137 | on an unsevered descriptor a timed-out wait leaves the message outstanding if and only if the driver's last answer was `EAGAIN` |
| Kernel.RunKeepsInv | include/ttdal.h:339-359 | in every run of all clients, an exclusive holder is its device's only holder, mappings of a process never overlap and belong to its descriptors, and descriptors belong to one client |
| Kernel.OthersRun | include/ttdal.h:339-359 | whatever the others do leaves a process's own descriptors, windows and mappings as they are, short of severing them |
| Kernel.ExclusiveResetSeversNobody | src/dev/reset.c:21-41 | in every run, a reset issued on an exclusive descriptor severs no descriptor at all |
| Kernel.SharedResetSevers | src/dev/reset.c:32-38 | a reset on a shared descriptor does sever another client's, so exclusivity is what protects it |
| Kernel.OutOfBandSeversAll | include/ttdal.h:222-226 | a reset issued on no descriptor, or a removal, leaves no holder of the device usable; the first leaves the holds, the second ends them |
| Kernel.AloneUntilClosed | src/dev/reset.c:32-42 | from an exclusive open until its descriptor is closed or its device removed no other descriptor holds the device, whatever anybody does in between |
| Kernel.ResetHarmsNobody | src/dev/reset.c:93-96 | from an exclusive open on, whatever anybody does, removal and re-probing included, a reset on its descriptor severs nobody |
| Kernel.RemovalFreesDevice | DESIGN.md:372-376 | an exclusive holder keeps every open out, and after removal and re-probing none, though its descriptor is still alive; its own reset is refused from then on |
| Lifecycle.TtOpen | src/dev/mod.c:174-211 | flags other than 0, `TT_OPEN_EXCL`, `TT_OPEN_NONBLOCK` and both are refused, and each of the two is passed on exactly when given; one fresh unsevered descriptor of the device, exclusive if and only if `TT_OPEN_EXCL` was given; `EAGAIN` exactly for a non-blocking open against an incompatible holder, `ENODEV` for every other failure; a failed open changes nothing; one system call at most |
| Lifecycle.TtClose | src/dev/mod.c:235-255 | the descriptor is released and logged once; the number is cleared exactly when `close` succeeds |
| Lifecycle.TtReopen | src/dev/mod.c:217-230 | closes and then opens; the old descriptor is released on every path, mappings stay, the new one has the old flags; a failed reopen clears the number exactly when `close` reported success; an exclusive session with a window of its own still mapped cannot reopen |
| Lifecycle.FailedReopenCloses | src/dev/mod.c:217-230 | a failed reopen leaves the session closed if and only if it was before or `close` reported success, and the descriptor is released either way |
| Lifecycle.FailedReopenKeepsNumber | src/dev/mod.c:226 | the promise that it always does fails for an open descriptor whose close reports an error |
| Lifecycle.TtDevInfo | src/dev/mod.c:260-289 | the information is that of the descriptor's device; a failure reports the driver's cause, normalised |
| Tlbs.TlbAlloc | src/dev/tlb.c:17-71 | a window the descriptor did not have and an unbound handle to it, or neither; a bad cache mode reports `EINVAL` after one call that gives the new window back, and leaves it only if that call failed |
| Tlbs.TlbBind | src/dev/tlb.c:77-147 | success maps the window once, clear of every live mapping, points it at the target and drops the old mapping; failure past the session check leaves none, and reports the first failed call whatever the clean-up does |
| Tlbs.FailedBindClears | src/dev/tlb.c:85-146 | a failed bind leaves the handle unmapped if and only if the session was open or the handle was unmapped before |
| Tlbs.TlbFree | src/dev/tlb.c:152-178 | unmaps first, also on a closed session; only then gives the window back and clears the id; a failed unmap changes nothing |
| Ownership.RunOwned | src/dev/tlb.c:17-178 | at every point of every run of permitted calls, live mappings belong to handles or have leaked, and handles of one descriptor have distinct ids |
| Ownership.OwnedIffPermitted | src/dev/tlb.c:17-178 | whatever the call and whichever descriptor the session has by then, ownership survives it if and only if the call was permitted: it failed, or is no bind of another descriptor's handle and no free that takes another handle's window |
| Ownership.OneMappingEach | src/dev/tlb.c:65-178 | at every point of every run, a handle's window has exactly one live mapping if its pointer is set and none otherwise |
| Ownership.HoldEndsExactly | src/dev/mod.c:217-255 | at every point of every run, a descriptor keeps its hold exactly while it is open, one of its handles is mapped, or one of its mappings has leaked |
| Ownership.RebindNeverOverlaps | src/dev/tlb.c:88-135 | the new mapping of a rebound handle never overlaps the old one |
| Ownership.FreeHarmlessIff | src/dev/tlb.c:152-175 | a free, on whatever descriptor the session is by then, keeps ownership if and only if it fails or no other handle of that descriptor has the same id |
| Ownership.StaleFreeTakesWindow | src/dev/tlb.c:152-175 | a handle used on a later descriptor of the session may take that descriptor's window of the same id |
| Programs.Program.Owns | src/dev/tlb.c:17-178 | between any calls a program makes on its session and windows, the ownership laws hold of its actual handles |
| Programs.Program.Alloc | src/dev/tlb.c:17-71 | an allocation, with a known or unknown cache mode, is a step of the program's run |
| Programs.Program.Bind | src/dev/tlb.c:77-147 | in every state a program reaches, a set pointer names a live mapping; a bind of any live handle is a step of the run if permitted, and ends ownership otherwise |
| Programs.Program.Free | src/dev/tlb.c:152-178 | a free of any live handle, on whatever descriptor or after closing, is a step of the run if permitted, and ends ownership otherwise |
| Programs.Program.Close | src/dev/mod.c:235-255 | a close, whatever it reports, is a step of the run |
| Resets.AwaitCompletion | src/dev/reset.c:96-127 | the last look at sysfs is the first that shows the device back after an absence or its marker cleared; a timeout means none did and 5000 ms passed; a sleep of 100 ms after each look that does not end it; at least one look, and at most 50 plus interrupted sleeps |
| Resets.AwaitFirmware | src/dev/reset.c:129-139 | at least 500 ms pass before the post-reset, however many signals arrive |
| Resets.FinishedMeans | src/dev/reset.c:101-124 | on the bytes read: a wait completes at the first look that shows the device back after an absence, or in place with bit 6 of its command byte clear; an unreadable byte shows nothing |
| Resets.TtReset | src/dev/reset.c:27-155 | the log shows exactly: an exclusive open, the query, the ASIC reset, the looks, the post-reset, one close, as far as it came; every reset severs nobody; the post-reset comes only after an accepted reset, a look that showed completion and 500 ms; success takes result code 0 from both and a clean close; each failure reports its first cause; the descriptor holds nothing afterwards |
| Resets.TtResetWith | src/dev/reset.c:163-184 | the session is consumed on every path; after a clean close the log and the answer are those of a whole reset, otherwise no reset call is made and the close's cause is reported; with one of its windows still mapped and the device not removed, a clean close ends in `EAGAIN` and no reset call is made |
| Lifecycle.MappingBlocks | include/ttdal.h:617-619 | a mapping alone keeps a closed descriptor's hold against exclusive opens |
| Traps.Trap.Handle | src/trap.c:34-70 | recovers exactly the faults in the armed range and disarms; resumes exactly on a re-raised signal while armed; chains or dies otherwise |
| Traps.Trap.Deliver | src/trap.c:34-70 | after any finite number of re-raises, a fault is recovered if and only if its address was armed, and it is never chained while covered |
| TagIndex.IndexMeaning | src/dev/telem.c:177-195 | the build is refused exactly when two entries share an in-range tag and the earlier one's offset is not the sentinel; otherwise each tag has its last entry's offset |
| TagIndex.LastOffMeaning | src/dev/telem.c:177-195 | the last offset of a tag is the offset of the entry no later entry repeats |
| TagIndex.PackedMeaning | src/dev/telem.c:177-195 | the same on the packed words: the lower half is the tag, the upper the offset; tags 1 to 68 get the offset of their last entry, and two entries for one are refused unless the earlier offset is 0xffff |
| Snapshots.ReadIndex | src/dev/telem.c:172-195 | reads the count and then as many entries, at most 128, up to the first that clashes; the in-place construction equals `Build` of the entries read, and is refused with `EIO` exactly when that is |
| Snapshots.ReadValues | src/dev/telem.c:204-208 | every mapped tag holds the value of a cycle during the pass, every other zero, also when a fault cuts it short; the reads made are those of the mapped tags, in order |
| Snapshots.Attempt | src/dev/telem.c:198-214 | reads the heartbeat, the mapped tags in order, and the heartbeat again, and nothing else; accepted if and only if there is no heartbeat or both of its reads agree |
| Coherence.CheckPassesIff | src/dev/telem.c:210-214 | the heartbeat check passes exactly when a multiple of 2^32 publishes lies between the two reads |
| Coherence.CoherentIff | include/ttdal.h:976 | for every index and interval, all tables an attempt may accept are from one cycle if and only if nothing was published in between, or at most one tag is mapped, or the heartbeat is and the publishes are no multiple of 2^32 |
| Coherence.AcceptedIsCoherent | src/dev/telem.c:161-166 | with fewer than 2^32 publishes, an accepted attempt's whole table is from one cycle |
| Snapshots.Snapshot | src/dev/telem.c:167-221 | success gives the table of the one accepted attempt, with an index of all the counted entries; refusal an all-zero table and a clash or three attempts that missed; a fault nothing but values of mapped tags read in the current attempt, and zeros, or only zeros while the index is unfinished; the reads made are exactly those |
| Snapshots.RefusedOnlyIfBusy | src/dev/telem.c:163-166 | a snapshot is refused only for a clash or if the firmware published at least three times meanwhile |
| Coherence.WrapTears | src/dev/telem.c:210-214 | with a heartbeat, for any two mapped tags and any multiple of 2^32 publishes a torn table is accepted |
| Coherence.NoHeartbeatTears | src/dev/telem.c:210-212 | without a heartbeat, for any two mapped tags and any publish a torn table is accepted |
| Telemetry.Windows | src/dev/telem.c:82-137 | both register pointers lie in one 2 MB window on both architectures, and a checked pointer plus any offset reaches exactly the address it names |
| Telemetry.ReadPointers | src/dev/telem.c:101-109 | both pointers are read from their registers inside the armed window; it stops short exactly at a fault, having made the reads before it |
| Telemetry.ReadThrough | src/dev/telem.c:80-147 | any pointers the firmware supplies are either refused or read wholly inside the armed window; it ends in `ECONNRESET`, with the guard disarmed, if and only if a read faulted |
| Telemetry.TtTelemetry | src/dev/telem.c:38-159 | success is linearised: an index of all the entries counted, a value of the accepted pass for each mapped tag, and one cycle during the call that the whole table is from; the reads made are exactly those of the pointers, the index and the passes; on every path the guard is disarmed, every read was covered, the window is given back once and mappings and windows are as before; the call is trapped if and only if a read faulted, and then ends in `ECONNRESET` and leaves values of mapped tags of the current pass or zeros, every other failure past the zeroing an all-zero table, earlier ones leave it alone, and each reports its cause, a system call's only before the tables are read |
| Tables.PointersMean | src/dev/telem.c:13-28 | the registers and nodes of both architectures, and that pointers are followed exactly into the 512 KiB of core shared memory |
| Tables.EntriesMean | src/dev/telem.c:172-186 | after a success, the count is the second word behind the tag pointer, at most 128 is read, and the entries are the words from the third on |
| Tables.ValuesMean | src/dev/telem.c:177-208 | after a success, each tag that an entry gives an offset holds the word that many words behind the data pointer, as of the accepted pass, and each tag without an entry zero |
| Tables.OneInstant | include/ttdal.h:976 | if an entry gives tag 32 an offset and the firmware counts there, publishing fewer than 2^32 times, all of these words are of one instant of the call |
| Retry.Perform | bind/rs/src/dev/mod.rs:265-301 | the log and the operation's count show operations and reopens in turn, the operation run four times at most and the device opened three; each reopen closes the descriptor the steps before left and opens the same device with the same options, no other descriptor is touched, and the session ends with the number the last one gave; a run that ends in anything but `ECONNRESET` is the last and its outcome the answer, and only a successful reopen is followed by another; a persistent session never surfaces `ECONNRESET` |
| Retry.OutcomesTell | bind/rs/src/dev/mod.rs:265-285 | in terms of the outcomes alone: all runs but the last ended in `ECONNRESET`; any other outcome of the last is the answer; four lost runs answer `ENODEV`, fewer the reopen's failure |
| Retry.PersistentAnswer | bind/rs/src/dev/mod.rs:265-285 | the log of a persistent call holds at most four runs and three opens, all of the session's device and with its options; the answer is the last run's, the reopen's own error, or `ENODEV` on exhaustion |
| Retry.PlainAnswer | bind/rs/src/dev/mod.rs:269-284 | without persistence the log holds one run of the operation, whose outcome is handed on, and the session keeps its descriptor |
| Retry.OutcomesDecide | bind/rs/src/dev/mod.rs:265-285 | whatever the operation's and the reopens' outcomes, the call answers what they alone determine |
| Scan.DevScan | src/dev/mod.c:135-167 | the buffer receives the first devices listed, in order, as far as it goes and nothing else is written; the count is of all of them |
| Scan.NumberNamesDevice | src/dev/mod.c:152-160 | an entry named by a device's decimal number is that device |
| Scan.NamesDevice | src/dev/mod.c:148-160 | which entries name which device: character devices whose whole name is a decimal number, with blanks and a sign before it, taken modulo 2^32, or empty, which is read as 0 |
| Scan.RoomDoubles | bind/rs/src/dev/mod.rs:138-166 | after k retries the room has doubled k times, and some pass listed more than 32 * 2^(k-1) devices |
| Scan.ScanAll | bind/rs/src/dev/mod.rs:137-174 | the result is every device of one pass, in order, read from initialised cells only; passes thrown away overflowed; with at most N devices per pass the number k of retries satisfies 32 * 2^(k-1) < N |
| Pci.Language | bind/rs/src/pci.rs:109-142 | parsing yields an address if and only if the text writes its fields in the full form, or in the short form with domain 0 |
| Pci.RoundTrip | bind/rs/src/pci.rs:87-142 | parsing what is printed gives the address back, for all 2^40 addresses; the short form means domain 0 |
| Pci.DisplayInjective | bind/rs/src/pci.rs:87-95 | no two addresses print alike |
| Pci.DisplayShape | bind/rs/src/pci.rs:87-95 | four, two, two and one or two lower-case digits, with the separators in their places |
| Pci.WideFieldsAccepted | bind/rs/src/pci.rs:109-142 | device and function numbers are accepted up to eight bits |
| Lookup.ComparisonExact | src/dev/mod.c:80-123 | for all 32-bit fields, the texts clipped to 19 characters are equal if and only if all four numbers are |
| Lookup.UnpacksIff | src/dev/mod.c:117-122 | a device has exactly the address whose domain is its own and whose bus, slot below 32 and function below 8 pack to its number |
| Lookup.LookupLanguage | src/dev/mod.c:70-78 | exactly which texts the lookup reads, as which numbers: the full form, or the short form in domain 0 of a text that is in no way a full one, each field with blanks, a sign or a prefix before it and anything behind the last |
| Lookup.TextScanned | src/dev/mod.c:70-78 | hex fields of any width between the separators of either form are scanned field by field, the short form as domain 0 |
| Lookup.AddressExact | src/dev/mod.c:70-78 | a text in either form, with hex fields of any width, is scanned as the address it writes if and only if all of its fields fit 32 bits |
| Lookup.PrintedIsScanned | bind/rs/src/dev/mod.rs:109-120 | an address the binding prints is scanned back to the same four numbers |
| Lookup.WideFieldAliases | src/dev/mod.c:70-78 | with any other fields, a text of domain `100000003` is scanned as the address with domain 3, so that device answers to it |
| Lookup.Query | src/dev/mod.c:104-111 | a device is opened and released again, leaving nothing open, for the address of that device or a failed call |
| Lookup.TtDevFromBdf | src/dev/mod.c:65-130 | devices are asked one by one in the order listed, each opened and closed; the first that tells the scanned address is found; `ENODEV` only after all were asked and none that told has it; each one passed over for not telling has a failed call of its own; the loop leaves the 64 cells of its buffer if and only if more devices are listed and none of the first 64 tells the address; `EINVAL` for a text that does not scan |
| Lookup.DeviceAt | bind/rs/src/dev/mod.rs:109-120 | an address printed by the binding finds the first listed device whose domain is its own and whose packed number is 256 times the bus plus 8 times the device plus the function, if there is one among the first 64, past devices that fail to answer |
| Versions.ReadsBackIff | src/ver.c:81-104 | a canonical version, followed by anything that does not extend it, is read back if and only if it has at most 31 characters |
| Versions.RcFits | src/ver.c:112-114 | a release candidate's text never exceeds 23 of the 32 bytes |
| Versions.ReadLanguage | src/ver.c:81-104 | exactly which texts are read, and as what: the first 31 characters before a nul must start with four decimal numbers with dots between them |
| Versions.TtFwVersion | src/ver.c:63-117 | success writes the whole record of the version read; every failure has its errno and leaves the record alone |
| Versions.RecordKeepsRc | bind/rs/src/ver.rs:14-36 | the candidate's text survives the trip through the record's buffer and the pre-release check |
| Versions.RecordRead | bind/rs/src/ver.rs:18-34 | the pre-release of any record is what stands before its first nul character, if valid, and none otherwise |
| Versions.ValidPreIff | bind/rs/src/ver.rs:33 | a pre-release is valid if and only if it is a series of identifiers in the sense of section 9 of Semantic Versioning 2.0.0 |
| Versions.PrecedenceExample | bind/rs/src/ver.rs:29-35 | the order used is that of section 11 of Semantic Versioning 2.0.0, on its own example |
| Versions.CandidatesInOrder | src/ver.c:112-114 | candidates rank by number, below the stable release, in the precedence of Semantic Versioning 2.0.0 |
| Versions.VersionsEmbed | bind/rs/src/ver.rs:14-36 | from attribute texts to semantic versions, order of releases and precedence agree, and different releases stay different |

## Left out

- Lookup.TtDevFromBdf: what comes of a loop that has left its buffer, which C does not define
- Lookup.DeviceAt: the same
- Tlbs.TlbBind: a set pointer is taken to name a live mapping, as it does in every state a program reaches (`Programs.Program.Bind`)
- Smc.Wait: the bound on polls is stated below the wrap of the 32-bit spin counter; the bound by sleeps (`FewPolls`) holds beyond it
- Ownership.RunOwned: runs are of permitted calls; `StaleFreeTakesWindow` shows why, and `OwnedIffPermitted` that no more can be had
- One severed set for the SMC slot and the kernel: a channel's descriptor is severed by a flag of its own, which may be raised at any time
- Null argument checks: each is one branch at the head of a call
- The values left in automatic variables after a jump out of the signal handler; the language of the model has no such jump, so a trapped read returns an empty result instead
- Reuse of file descriptor numbers, descriptors shared by `fork` or passed to other processes, and the limit on open files
- Starvation of blocking opens: a blocking open that waits is one call that fails or succeeds
- Drivers before 2.10, which ignore the exclusive flag
- Alignment of firmware-supplied pointers: a read of four bytes is taken to be possible at any offset
- Two threads sharing one session, which the library disclaims
- `tt_power`, `tt_kmd_version`, `tt_dev_from_path`, enumerations and tables of constants: single branches or lookups
- Contents of windows apart from telemetry, which need not behave like memory
- Python bindings: the logic of the Rust side behind another interpreter
- Build metadata of a version: always empty for firmware, so it plays no part in the order
