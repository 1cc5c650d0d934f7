# ALSA middle layer: models and proofs

Dafny models of the device-independent logic in the sound core and its FreeBSD bridge, and proofs
about them. The code's imperative form is kept: structures that are updated in place are classes,
loops are loops, and each method is tied to a specification over which the properties are proved.

| files | what they model |
|---|---|
| `PcmInterval`, `PcmMasks` | interval constraints: refinement, arithmetic, lists, ranges and their masks |
| `RingMath`, `PcmPointers`, `PcmFifo`, `PcmSilence`, `PcmRuntime`, `PcmRaces` | the playback ring: wrapping pointers, silence fill, pointer update, starts and drains, transfer loop |
| `ControlTypes`, `ControlNumid`, `ControlIndex`, `ControlRegistry`, `ControlUsers`, `ControlCard` | the control registry: numids, lookup tables, user controls and their accounting |
| `ControlEvents` | per-file event queues |
| `CardId` | unique card ids |
| `ComprLife`, `ComprRing`, `Compress` | compressed playback: the order of events, replaced rings, byte ring and states |
| `SgFallback` | chunked page allocation |
| `SoundCore` | minors of the OSS sound core |
| `DeviceList` | device order and life cycle |
| `BlockGeometry` | block sizes of the FreeBSD channels |
| `Words` | machine words, error numbers, optional values |

`dafny verify dfyconfig.toml` checks everything.

## What is assumed

Some definitions live in headers that are not part of this model; they are taken as follows.

- An interval contains x iff min <= x <= max, strictly at an open end, and x is integral if the integer
  flag is set; it is empty iff min > max, or min == max with an open end.
- Playback free space is hw_ptr + buffer_size - appl_ptr brought into [0, boundary). There is something
  to play if it is less than a buffer, or if the stop threshold is at least the boundary.
- A machine word has 64 bits, an `unsigned int` 32. With that, the boundary is a multiple of the buffer
  size of at least three buffers (`SetBoundary`).
- get_order(n) is the least k with PAGE_SIZE << k >= n; a page has 4096 bytes.
- Drivers report errors, as XRUN, SUSPENDED or DISCONNECTED, and ends of drains only for streams whose
  parameters were set.
- The end of a drain returns a stream to RUNNING if a partial drain is pending and to SETUP otherwise.
- The element types of controls are numbered 1 to 6 in the order of the size table; sizes are those of
  a 64-bit machine. The header of a user element is a parameter.
- The kernel's letters are those of ASCII and Latin-1.
- An event record has 72 bytes. An id name is the text that a bounded comparison sees.

Locks make steps atomic. Where the stream lock is dropped, any number of interrupts, queries, starts,
drains, stops, pauses and settings of software parameters happen in between, and preparations where the
buffer is not locked against them. Positions reported by hardware, driver answers, allocation
results, user-space copies and sleeping are inputs.

## What does not hold, and exactly when

- The underrun test fires exactly while the hardware is past the queue by less than boundary - buffer size
  (`UnderrunSeen`). An advance below that is always noticed (`NoticedUnderrun`), and with period interrupts,
  or fewer elapsed jiffies than the boundary has buffers, less three, every accepted advance is
  (`InTimeIsShort`). `Run` asks for no more. The boundary being near 2^62 frames, no real stream goes
  beyond.
- A silence fill starts at the committed pointer, so it can overwrite frames that a writer has copied but
  not yet committed: in the threshold mode an interrupt, a start, or setting the software parameters of a
  moving stream does (`InterruptMutes`), in the free-running mode a start (`StartMutes`, `StartTears`) or
  setting the software parameters (`ParamsMute`). Such a frame is later played as silence. Harm is
  done exactly if a frame that is hit was not silent (`FillOverFlight`, `StartOverFlight`); committed
  frames are never hit (`FillKeeps`, `ThresholdSparesQueue`). So in every run the ring holds what was
  handed in or silence, and exactly what was handed in if no fill reaches a chunk between its copy and
  its commit (`Run`, `RingIsFifo`).
- A write that sleeps for space goes on after a preparation by someone else: its result counts frames
  that were thrown away, exactly those committed before the last preparation (`Xfer`, `TransferAll`).
- A chunk that was copied but not committed (fault, or refusal by the driver) leaves the silence
  bookkeeping right exactly if it was silent where it counts (`DropQuiet`, `FaultLeavesNoise`).
- The catch-up loop for streams without period interrupts ends exactly if a buffer lasts at least a jiffy
  or at most one jiffy is unexplained (`CatchUpEnds`); `CatchUpHangs` names settings with which it does not.
- A user control is removed before its replacement is checked, so a failed replacement lowers the
  accounted bytes: exactly if the call is a replacement, the name is good, and the lookup without numid
  finds a user control that nobody else holds (`ElemAdd`, `ReplaceLoses`).
- A renamed control can be unfindable: addition checks that indices do not wrap, renaming does not
  (`FindableIff`, `RenameHides`).
- Addition does not keep element ids apart: it does exactly if no live control shares an element with the
  new one (`AddApart`), but it looks only the first element up, and by numid if one is given. That is
  enough for a single element without numid (`CheckSuffices`), and not otherwise (`TwinByNumid`,
  `TwinByCount`). Lookup stays exact all the same (`LookupExact`).
- A notice that arrives while a subscription is being switched off stays queued and is delivered after
  the next subscription, exactly if a record was made of it (`Subscribe`, `StaleDelivery`).
- Setting parameters for an announced track replaces the ring while it is in use, before the driver is
  asked. Unconsumed bytes survive that exactly if there are none, or the ring stays in the driver's memory
  and they fit it in the slots they had (`KeepsIff`, `FreshKeepsIff`, `SetParams`, `ParamsLose`).
- A poll ends a drain that is not over (`PollCutsDrain`), and refused metadata counts as given
  (`RefusedMetadataCounts`).
- A partial drain that the driver refuses leaves its flag set, and the next full drain ends in RUNNING
  (`RefusedPartialDrainSticks`, `FullDrain`).
- The resize of a channel buffer does not always succeed, as the source's comment has it. A changed size
  takes effect exactly if, for HDSP, a frame has at most 2048 bytes, and for other devices half of the
  256 KiB has room for 64 frames and for the wish (`TakesEffect`, `TooBigAWish`).

## Model

| member | source | states |
|---|---|---|
| `PcmInterval.NonemptyIsSteppable` | linux/sound/core/pcm_lib.c:626-667 | a nonempty interval can step an open integer end inwards without 32-bit wrap |
| `PcmInterval.MeetIsIntersection` | linux/sound/core/pcm_lib.c:626-667 | the normalised meet of two intervals contains exactly the common members, over the reals |
| `PcmInterval.RefineExact` | linux/sound/core/pcm_lib.c:626-667 | refinement of nonempty intervals denotes exactly the intersection, answers -EINVAL iff that is empty, and yields normal form |
| `PcmInterval.RefineReportsChange` | linux/sound/core/pcm_lib.c:626-667 | from normal form, the answer 0 says exactly that the denoted set is unchanged |
| `PcmInterval.RefineNeedsNonempty` | linux/sound/core/pcm_lib.c:626-667 | the nonempty operands are needed: a concrete empty operand wraps and comes back to life |
| `PcmInterval.OutwardLowIsTightest` | linux/sound/core/pcm_lib.c:559-612 | an outward-rounded lower end admits every value from its exact bound on, and no tighter end does |
| `PcmInterval.OutwardHighIsTightest` | linux/sound/core/pcm_lib.c:559-612 | the same for upper ends |
| `PcmInterval.Div32Saturates` | linux/sound/core/pcm_lib.c:559-587 | 32-bit division with remainder is division saturated at UINT_MAX, also by zero |
| `PcmInterval.Mul32IsSaturatedProduct` | linux/sound/core/pcm_lib.c:589-596 | the overflow test of the product by division is exact: the result is the product saturated at UINT_MAX |
| `PcmInterval.QuotientEnds` | linux/sound/core/pcm_lib.c:559-587 | 32-bit quotients with the open-end flags are the outward-rounded exact fractions |
| `PcmInterval.MulSound` | linux/sound/core/pcm_lib.c:702-714 | every product of positive members lies in the computed interval, below saturation |
| `PcmInterval.MulEndsExact` | linux/sound/core/pcm_lib.c:702-714 | each end of the product is the outward-rounded product of the ends |
| `PcmInterval.DivSound` | linux/sound/core/pcm_lib.c:726-748 | every quotient of positive members lies in the computed interval |
| `PcmInterval.DivEndsExact` | linux/sound/core/pcm_lib.c:726-748 | each end of the quotient is the outward-rounded quotient of the ends |
| `PcmInterval.MulDivKSound` | linux/sound/core/pcm_lib.c:761-779 | every a*b/k of positive members lies in the computed interval |
| `PcmInterval.MulDivKEndsExact` | linux/sound/core/pcm_lib.c:761-779 | each end of a*b/k is the outward-rounded exact value |
| `PcmInterval.MulKDivSound` | linux/sound/core/pcm_lib.c:792-815 | every a*k/b of positive members lies in the computed interval |
| `PcmInterval.MulKDivEndsExact` | linux/sound/core/pcm_lib.c:792-815 | each end of a*k/b is the outward-rounded exact value |
| `PcmInterval.MulNeedsPositive` | linux/sound/core/pcm_lib.c:702-714 | positive members are needed: a concrete product with a zero lower bound falls out |
| `PcmInterval.ListSpanIsTight` | linux/sound/core/pcm_lib.c:1050-1072 | the span kept by the loop holds exactly the least and greatest selected values inside the interval so far |
| `PcmInterval.ListTightest` | linux/sound/core/pcm_lib.c:1050-1072 | list refinement keeps exactly the least and greatest selected values inside, and fails iff there are none |
| `PcmInterval.UnionIsHull` | linux/sound/core/pcm_lib.c:1089-1126 | the running union of cut ranges is their hull, an end being open iff every range attaining it is open there |
| `PcmInterval.RangesHull` | linux/sound/core/pcm_lib.c:1089-1126 | range refinement yields the hull of the selected ranges cut by the interval, or fails iff all cuts are empty |
| `PcmInterval.SndInterval.Refine` | linux/sound/core/pcm_lib.c:626-667 | the in-place refinement computes the specified value and code |
| `PcmInterval.SndInterval.Mul` | linux/sound/core/pcm_lib.c:702-714 | the in-place product computes the specified value |
| `PcmInterval.SndInterval.Div` | linux/sound/core/pcm_lib.c:726-748 | the in-place quotient computes the specified value |
| `PcmInterval.SndInterval.MulDivK` | linux/sound/core/pcm_lib.c:761-779 | the in-place a*b/k computes the specified value |
| `PcmInterval.SndInterval.MulKDiv` | linux/sound/core/pcm_lib.c:792-815 | the in-place a*k/b computes the specified value |
| `PcmInterval.SndInterval.List` | linux/sound/core/pcm_lib.c:1050-1072 | the in-place list refinement computes the specified value and code |
| `PcmInterval.SndInterval.Ranges` | linux/sound/core/pcm_lib.c:1089-1126 | the in-place range refinement computes the specified value and code |
| `PcmMasks.SelectedIff` | linux/sound/core/pcm_lib.c:1050-1072 | a mask asks for exactly the entries whose bits are set, or for all if none is |
| `PcmMasks.PowerSelects` | linux/sound/core/pcm_lib.c:1050-1072 | a power of two asks for exactly the entry of its exponent |
| `PcmMasks.PassesIff` | linux/sound/core/pcm_lib.c:1050-1072 | the test for a list value is membership in the interval |
| `PcmMasks.ListExact` | linux/sound/core/pcm_lib.c:1050-1072 | list refinement fails exactly if none of the values asked for is a member, and leaves exactly what lies between two that are |
| `PcmMasks.OneLeft` | linux/sound/core/pcm_lib.c:1050-1072 | a mask of one bit whose value is a member leaves exactly that value |
| `PcmMasks.SharedIff` | linux/sound/core/pcm_lib.c:1089-1126 | the cuts hold exactly the common members of the interval and the ranges asked for |
| `PcmMasks.RangesExact` | linux/sound/core/pcm_lib.c:1089-1126 | range refinement fails exactly if the ranges asked for share no member with the interval, and leaves exactly what lies between two such members |
| `PcmPointers.GapIsDistance` | linux/sound/core/pcm_lib.c:37-53 | the wrapped difference of two pointers is the distance of the frame counts they stand for |
| `PcmPointers.AvailIsSpace` | linux/sound/core/pcm_lib.c:209-234 | the wrapped free space is the true free space, less one boundary once it reaches that |
| `PcmPointers.UnderrunSeen` | linux/sound/core/pcm_lib.c:209-234 | the underrun test fires exactly while the hardware is past the queue's end by less than boundary - buffer size |
| `PcmPointers.UnderrunStops` | linux/sound/core/pcm_lib.c:209-234 | an advance of less than boundary - buffer size frames past a held queue never goes unseen |
| `PcmPointers.SetBoundary` | linux/sound/core/pcm_native.c:838-840 | the boundary is a multiple of the buffer size, at least three buffers, and leaves room for a buffer below LONG_MAX but not for another doubling |
| `PcmPointers.CatchUpEnds` | linux/sound/core/pcm_lib.c:385-396 | the catch-up loop ends exactly if a buffer lasts a jiffy or the unexplained time is at most one |
| `PcmPointers.CatchUpHangs` | linux/sound/core/pcm_lib.c:385-396 | 32 frames at 48 kHz and 100 Hz with two ticks unexplained: its guard holds after any number of turns |
| `PcmPointers.AdvanceBound` | linux/sound/core/pcm_lib.c:321-398 | an advance is less than two buffers and one more for each elapsed jiffy |
| `PcmPointers.InTimeIsShort` | linux/sound/core/pcm_lib.c:376-398 | a report before the boundary's worth of jiffies, or with regular interrupts, is an advance below boundary - buffer size |
| `PcmPointers.LostFramesAre` | linux/sound/core/pcm_lib.c:385-396 | the catch-up loop counts as many whole buffers as leave at most half a buffer's jiffies and one unexplained |
| `PcmPointers.ReturnsIff` | linux/sound/core/pcm_lib.c:376-398 | the pointer update returns on every report of a stream with regular interrupts or a buffer that lasts a jiffy, and otherwise exactly if at most one jiffy is unexplained |
| `PcmPointers.MovedIsTaken` | linux/sound/core/pcm_lib.c:299-407 | a report is taken over exactly if it moves the hardware, by an account of the move of its own, in remainders: to the reported position, by a buffer more if the interrupt is late, and by the buffers that time says were lost |
| `PcmPointers.TimelyMoves` | linux/sound/core/pcm_lib.c:299-407 | with regular interrupts a report in time and in range moves the hardware to exactly the reported position |
| `PcmFifo.CopyExtends` | linux/sound/core/pcm_lib.c:2271-2416 | a chunk copied behind the queue's end extends the queue held by the ring, frame by frame |
| `PcmFifo.SilencingMutes` | linux/sound/core/pcm_lib.c:64-135 | silencing behind the committed end, up to a turn after the hardware, keeps every committed frame and mutes just what it hits of the chunk behind them |
| `PcmFifo.MutedSame` | linux/sound/core/pcm_lib.c:64-135 | muting leaves frames as they were exactly if it hits silence only |
| `PcmFifo.SilencingExtends` | linux/sound/core/pcm_lib.c:64-135 | silencing right behind a silent stretch makes it longer and leaves nothing else in it |
| `PcmFifo.HoldsIsQueue` | linux/sound/core/pcm_lib.c:2271-2416 | a ring that holds the stream, read off from the hardware position, is exactly the unconsumed part in order |
| `PcmSilence.ThresholdFillRegion` | linux/sound/core/pcm_lib.c:70-88 | a threshold fill starts behind the committed end and ends a threshold ahead of the hardware, or falls short only by the size limit of one fill |
| `PcmSilence.FreeFillRegion` | linux/sound/core/pcm_lib.c:112-120 | a free-running fill covers exactly the slots the hardware has just left |
| `PcmSilence.FreeInitRegion` | linux/sound/core/pcm_lib.c:94-120 | the fill at a free-running start covers exactly the free part of the ring |
| `PcmSilence.FillOverFlight` | linux/sound/core/pcm_lib.c:70-135 | a threshold fill that runs into a chunk being copied keeps it iff the frames it hits are silent anyway |
| `PcmSilence.DropQuiet` | linux/sound/core/pcm_lib.c:2380-2397 | after a chunk that was copied but not committed, the silence bookkeeping is right iff the chunk was silent where it counts |
| `PcmSilence.FillKeeps` | linux/sound/core/pcm_lib.c:64-135 | a fill behind the committed end never touches a committed frame, whatever is in flight |
| `PcmSilence.FillIsQuiet` | linux/sound/core/pcm_lib.c:64-135 | what a fill keeps and adds behind the queue and any strayed frames is silent |
| `PcmSilence.ThresholdOutcome` | linux/sound/core/pcm_lib.c:64-135 | whatever is in flight, a threshold fill keeps every committed frame, mutes what it hits of the chunk, and counts only silent frames as silent |
| `PcmSilence.ThresholdSparesQueue` | linux/sound/core/pcm_lib.c:70-88 | no slot between hardware and application pointer changes in a threshold fill |
| `PcmSilence.FillJustLeftIsSilent` | linux/sound/core/pcm_lib.c:112-120 | the slots that the hardware has just left are silent after a free-running fill |
| `PcmSilence.FreeStep` | linux/sound/core/pcm_lib.c:64-135 | a free-running fill keeps the queue and whatever is being copied behind it, and silences what was just played |
| `PcmSilence.FreeInitStep` | linux/sound/core/pcm_lib.c:94-120 | the fill at a free-running start keeps every committed frame and mutes all of a chunk in flight |
| `PcmSilence.StartOverFlight` | linux/sound/core/pcm_lib.c:94-120 | it keeps the chunk exactly if that was silent |
| `PcmSilence.CopyKeeps` | linux/sound/core/pcm_lib.c:2271-2416 | copying a piece that fits keeps the queue and what is in flight, and puts the piece behind them |
| `PcmSilence.DropKeeps` | linux/sound/core/pcm_lib.c:2271-2416 | a chunk given up after its copy leaves the committed queue |
| `PcmRuntime.Substream.FillFrames` | linux/sound/core/pcm_lib.c:2182-2192 | one in-range fill of the ring, stated on the rest of the circular fill |
| `PcmRuntime.Substream.FillRing` | linux/sound/core/pcm_lib.c:125-133 | the fill loop silences exactly the slots asked for, in one in-range chunk or, where they wrap around, in two |
| `PcmRuntime.Substream.UpdateSilenceVars` | linux/sound/core/pcm_lib.c:37-53 | the start moves to the new pointer and the silent count shrinks by the wrapped distance, not below zero |
| `PcmRuntime.Substream.ThresholdDemand` | linux/sound/core/pcm_lib.c:70-88 | start, rest and addition of a threshold fill are those of the specification |
| `PcmRuntime.Substream.FreeDemand` | linux/sound/core/pcm_lib.c:88-120 | start, rest and addition of a free-running fill are those of the specification |
| `PcmRuntime.Substream.PlaybackSilence` | linux/sound/core/pcm_lib.c:64-135 | a silence call writes at most two chunks and leaves ring and variables as specified for its mode |
| `PcmRuntime.Substream.ThresholdAhead` | linux/sound/core/pcm_lib.c:64-135 | a threshold fill is carried out as decided and keeps every promise, whatever is in flight; of that it mutes what it hits |
| `PcmRuntime.Substream.ThresholdLands` | linux/sound/core/pcm_lib.c:64-135 | after a threshold fill the ring holds the queue and the muted chunk, and the books count only silent frames |
| `PcmRuntime.Substream.FreeInitLands` | linux/sound/core/pcm_native.c:1464-1477 | so it does after the fill at a free-running start |
| `PcmRuntime.Substream.CopyLands` | linux/sound/core/pcm_lib.c:2363-2383 | a piece copied where it fits, across pointer wraps, is in flight behind a kept queue and the pieces before it |
| `PcmRuntime.Substream.FreeAhead` | linux/sound/core/pcm_lib.c:64-135 | a free-running fill is carried out as decided, keeps every promise and any chunk in flight, and leaves what was just played silent |
| `PcmRuntime.Substream.SilenceAhead` | linux/sound/core/pcm_lib.c:470-472 | the silence step of a pointer update carries out its mode's fill and keeps every promise, whatever is in flight |
| `PcmRuntime.Substream.Locate` | linux/sound/core/pcm_lib.c:321-398 | base, crossings and advance computed from a report lie at the old pointer plus the specified step, whenever the catch-up loop ends |
| `PcmRuntime.Substream.Read` | linux/sound/core/pcm_lib.c:299-407 | a report is accepted exactly if plausible and new; the position it means is the old one plus the step, modulo boundary |
| `PcmRuntime.Substream.MoveInterrupt` | linux/sound/core/pcm_lib.c:474-482 | the interrupt pointer moves by whole periods to less than one period behind |
| `PcmRuntime.Substream.Take` | linux/sound/core/pcm_lib.c:470-490 | an accepted position is taken over, the fill for it carried out first, keeping the promises |
| `PcmRuntime.Substream.UpdateState` | linux/sound/core/pcm_lib.c:209-234 | -EPIPE exactly when the queue has run dry for the state; the state and the maximum move accordingly |
| `PcmRuntime.Substream.NoticedUnderrun` | linux/sound/core/pcm_lib.c:209-234 | an underrun by an advance below boundary - buffer size stops a stream with a stop threshold of at most a buffer, with or without period interrupts |
| `PcmRuntime.Substream.RunDryIff` | linux/sound/core/pcm_lib.c:209-234 | after a short advance the free space ends the stream exactly if what is left of the queue is at most a buffer less the stop threshold, and nothing in a drain |
| `PcmRuntime.Substream.FillDisturbs` | linux/sound/core/pcm_lib.c:470-472 | a fill leaves every frame in flight as it was handed in or silent, and untouched if the chunk fits the silence kept or the mode is not the threshold one |
| `PcmRuntime.Substream.Adopt` | linux/sound/core/pcm_lib.c:470-490 | an accepted position is taken over, and an underrun by a short advance is not let pass |
| `PcmRuntime.Substream.ReachesValid` | linux/sound/core/pcm_lib.c:299-374 | an accepted position keeps the base a multiple of the buffer size, within a buffer of the pointer |
| `PcmRuntime.Substream.UpdateHwPtr0` | linux/sound/core/pcm_lib.c:286-494 | the pointer update: by how much each report moves the hardware; that a report ends the stream exactly if it moves the hardware and the queue has run dry; that the unwrapped position never goes back, advances less than a buffer and a period, and is less than a period past the interrupt pointer; what it does to a chunk in flight |
| `PcmRuntime.Substream.HwEvent` | linux/sound/core/pcm_lib.c:497-500 | an interrupt or query in any state keeps the invariant and moves the hardware by what the report says; it ends the stream exactly if the queue has run dry, a drain if everything was played; outside the threshold mode a chunk in flight is untouched; in time, no underrun is let pass |
| `PcmRuntime.Substream.ApplyApplPtr` | linux/sound/core/pcm_lib.c:2227-2268 | the pointer moves exactly if nothing objects; any error, also from the driver, leaves it as it was |
| `PcmRuntime.Substream.CopyIn` | linux/sound/core/pcm_lib.c:2363-2383 | a piece is copied behind the application pointer and what is in flight there, across pointer wraps |
| `PcmRuntime.Substream.CommitChunk` | linux/sound/core/pcm_lib.c:2391-2397 | a chunk is committed iff the driver accepts the new pointer; otherwise the pointer is back where it was |
| `PcmRuntime.Substream.Prepare` | linux/sound/core/pcm_native.c:1939-1971 | an accepted preparation empties queue and silence; a refusal, by the state or by the driver, changes nothing |
| `PcmRuntime.Substream.PostStart` | linux/sound/core/pcm_native.c:1464-1477 | a start keeps every promise and carries out the fill that the mode asks for, also with a chunk in flight |
| `PcmRuntime.Substream.Start` | linux/sound/core/pcm_native.c:1427-1477 | a stream with nothing to play or a refusing driver does not start; a started one has had its fill |
| `PcmRuntime.Substream.DataIff` | linux/sound/core/pcm_native.c:1427-1441 | there is something to play exactly if the queue is not empty, or underruns do not matter |
| `PcmRuntime.Substream.DrainInit` | linux/sound/core/pcm_native.c:2031-2065 | a prepared stream with something queued is started for its drain, fill included, an empty one is set up again; promises are kept |
| `PcmRuntime.Substream.SwParams` | linux/sound/core/pcm_native.c:943-993 | setting the software parameters to what they are gives a moving stream the fill of a start, looks at its free space, and keeps every promise; which parameters are refused |
| `PcmRuntime.Substream.Happen` | linux/sound/core/pcm_native.c:1395-1477 | what each event outside the lock does to state and position; it keeps the invariant; a calm one leaves a chunk in flight untouched, one in time lets no underrun pass |
| `PcmRuntime.Substream.WaitForAvail` | linux/sound/core/pcm_lib.c:1949-2036 | success means the free space asked for is there, at once if it was there before; each error comes with the state it stands for, and a sleep that was too long with a stream that could go on; a preparation by someone else starts a new life, with nothing of the old one |
| `PcmRuntime.Substream.AvailFits` | linux/sound/core/pcm_lib.c:2340-2366 | free space never promises more than the ring has |
| `PcmRuntime.Substream.HappenAsleep` | linux/sound/core/pcm_lib.c:1996-2000 | any event while a writer sleeps, a preparation included, keeps the invariant; what is committed stays, or a new life begins |
| `PcmRuntime.Substream.CopyPieces` | linux/sound/core/pcm_lib.c:2377-2383 | a copy in pieces of any length, with anything happening between them, gets in flight what it copied; as handed in if no fill can reach it |
| `PcmRuntime.Substream.CopyOutsideLock` | linux/sound/core/pcm_lib.c:2377-2390 | the unlocked copy, in pieces among arbitrary events, starts, drains and software parameters included, ends with the whole chunk in flight or with none; the ring has it as handed in if no fill can reach it; it fails exactly for a fault or a state that cannot be written to |
| `PcmRuntime.Substream.CopyAndCommit` | linux/sound/core/pcm_lib.c:2377-2397 | a chunk is copied and committed, or neither; what was committed before stays as it was |
| `PcmRuntime.Substream.MaybeStart` | linux/sound/core/pcm_lib.c:2402-2408 | a prepared stream starts exactly when enough is queued and the driver lets it |
| `PcmRuntime.Substream.TransferChunk` | linux/sound/core/pcm_lib.c:2373-2409 | a chunk is committed whole or not at all, whatever fails; on success a prepared stream with enough queued has been started |
| `PcmRuntime.Substream.FreeSpace` | linux/sound/core/pcm_lib.c:2340-2366 | while the queue is kept the free space is what the queue leaves of the ring |
| `PcmRuntime.Substream.Space` | linux/sound/core/pcm_lib.c:2351-2359 | without free space a nonblocking write is told to try again and nothing else happens; only such a write is told so; a blocking one waits |
| `PcmRuntime.Substream.TransferSome` | linux/sound/core/pcm_lib.c:2360-2409 | with free space, a full copy and a consenting driver exactly the lesser of data, free space and rest of the ring is committed |
| `PcmRuntime.Substream.Turn` | linux/sound/core/pcm_lib.c:2343-2409 | one pass commits a prefix of the data, and the whole portion that fits if nothing fails; -EAGAIN is for nonblocking writes; a preparation before it throws away what was committed earlier |
| `PcmRuntime.Substream.TransferAll` | linux/sound/core/pcm_lib.c:2342-2409 | the loop commits exactly the frames it counts, in order, also when an error ends it; the first portion is committed if nothing fails; how many of them were thrown away by preparations while it slept |
| `PcmRuntime.Substream.Xfer` | linux/sound/core/pcm_lib.c:2271-2416 | a positive result is the number of frames committed, in order, all of them in the queue unless the stream was prepared meanwhile; otherwise nothing is, and in the same life the pointer has not moved; what a state that cannot be written to answers; -EAGAIN only for nonblocking writes or from the driver, and for those exactly at once if a still stream has no space; what fits at once is written unless something fails or stops the stream |
| `PcmRuntime.Substream.Run` | linux/sound/core/pcm_lib.c:2271-2416 | any script of writes, interrupts, starts, drains, software parameters and preparations keeps the invariant; the ring gets exactly what was handed in if no fill comes between a copy and its commit; no underrun is let pass if the stream stops when dry and reports come in time |
| `PcmRuntime.Substream.RingIsFifo` | linux/sound/core/pcm_lib.c:2271-2416 | the refinement: the ring read from the hardware pointer to the application pointer is exactly the frames committed and not consumed, in order, each as handed in or silenced before its commit; the free space is its complement |
| `PcmRaces.StartMutes` | linux/sound/core/pcm_native.c:1464-1477 | free-running: a start between copy and commit, and the frame written is played as silence: a reachable run |
| `PcmRaces.StartTears` | linux/sound/core/pcm_native.c:1464-1477 | free-running: a start in the middle of a copy silences the part copied before it, and only that: a reachable run |
| `PcmRaces.ParamsMute` | linux/sound/core/pcm_native.c:985-989 | free-running: setting unchanged software parameters between copy and commit does the same on a running stream, without interrupt, start or drain: a reachable run |
| `PcmRaces.FaultLeavesNoise` | linux/sound/core/pcm_lib.c:2380-2387 | threshold mode: after a faulty copy the slot on the books as silent holds a frame of it: a reachable run |
| `PcmRaces.InterruptMutes` | linux/sound/core/pcm_lib.c:70-88 | threshold mode: an interrupt between copy and commit, and the end of the chunk is played as silence: a reachable run |
| `PcmRuntime.PointerContents` | linux/sound/core/pcm_lib.c:2047-2052 | reading from a wrapped pointer is reading from the frame count it stands for |
| `ControlTypes.MatchIsElement` | linux/sound/core/control.c:367-397 | an id that matches a control is one of its elements and has that element's hash |
| `ControlNumid.JumpSkipsNothing` | linux/sound/core/control.c:333-350 | jumping behind a conflicting range passes over no feasible start |
| `ControlNumid.EndedByCounts` | linux/sound/core/control.c:333-364 | each jump leaves one more range behind, so none conflicts twice in a pass |
| `ControlNumid.Restart` | linux/sound/core/control.c:337-339 | restarting near the 32-bit limit keeps the record of what was passed over |
| `ControlNumid.Jump` | linux/sound/core/control.c:341-348 | one jump of the search keeps that record and counts the step |
| `ControlNumid.HoleFits` | linux/sound/core/control.c:491-499 | a control placed in a hole keeps all ranges disjoint, from 1 up, below the 32-bit limit |
| `ControlIndex.StoreKeepsNumids` | linux/sound/core/control.c:400-420 | storing a new range keeps the numid table equal to the range scan |
| `ControlIndex.EraseKeepsNumids` | linux/sound/core/control.c:423-441 | so does erasing a range |
| `ControlIndex.InsertKeepsHash` | linux/sound/core/control.c:400-420 | filing a control keeps: no entry without its control, and everything filed unless the collision flag is set |
| `ControlIndex.EraseKeepsHash` | linux/sound/core/control.c:423-441 | so does erasing one; no entry outlives its control |
| `ControlIndex.MissMeansNone` | linux/sound/core/control.c:840-864 | without the collision flag a miss in the hash table means that no live control matches |
| `ControlUsers.BytesAt` | linux/sound/core/control.c:1599-1612 | changing one control or its user data changes the sum by that control's bytes only |
| `ControlUsers.ParsesIff` | linux/sound/core/control.c:1573-1584 | the validation loop accepts exactly the buffers that begin with as many proper NUL-terminated names as there are items |
| `ControlUsers.CheckNames` | linux/sound/core/control.c:1573-1584 | the loop decides that predicate |
| `ControlUsers.ItemName` | linux/sound/core/control.c:1418-1441 | reading an item walks inside the buffer and returns exactly the name that was validated, the last one for too large an item |
| `ControlRegistry.SoundAdd` | linux/sound/core/control.c:491-501 | adding a control in a hole keeps ranges, tables and addresses in order |
| `ControlRegistry.SoundRemove` | linux/sound/core/control.c:574-597 | removing one does, and leaves no trace of its address |
| `ControlRegistry.SoundRename` | linux/sound/core/control.c:746-762 | renaming one in place does, under its old numid |
| `ControlRegistry.NumidLookup` | linux/sound/core/control.c:815-826 | the numid table finds a control iff the scan of the ranges would |
| `ControlRegistry.FindableIff` | linux/sound/core/control.c:367-376 | a control can be found by some id without numid iff its indices do not wrap, which addition checks and renaming does not |
| `ControlRegistry.LookupExact` | linux/sound/core/control.c:829-864 | with sound tables the lookup finds something exactly if a live control is asked for, and then such a one |
| `ControlRegistry.AddApart` | linux/sound/core/control.c:458-501 | adding a control keeps element ids apart exactly if none of its elements is taken |
| `ControlRegistry.AccountRemove` | linux/sound/core/control.c:1599-1612 | removing a control gives back exactly its bytes |
| `ControlRegistry.AccountAdd` | linux/sound/core/control.c:1697-1702 | adding one charges exactly its bytes |
| `ControlRegistry.AccountChange` | linux/sound/core/control.c:1510-1519 | changing one control's data moves the sum by the difference |
| `ControlCard.Card.RemoveNumidConflict` | linux/sound/core/control.c:333-350 | the first conflicting control in list order decides the next start; without one the start is feasible |
| `ControlCard.Card.FindHole` | linux/sound/core/control.c:352-364 | success is a first fit that passes over no feasible start; with fewer than 50000 controls it fails only if there is no hole |
| `ControlCard.Card.AddHashEntries` | linux/sound/core/control.c:400-420 | the loop stores and files as specified |
| `ControlCard.Card.RemoveHashEntries` | linux/sound/core/control.c:423-441 | the loop erases as specified |
| `ControlCard.Card.FindNumid` | linux/sound/core/control.c:815-826 | finds the control that covers a numid, or there is none |
| `ControlCard.Card.FindId` | linux/sound/core/control.c:840-864 | finds a control iff some live one matches, and what it finds matches, collisions or not |
| `ControlCard.Card.FreeOne` | linux/sound/core/control.c:1599-1612 | gives back header, values, TLV and names of a user control |
| `ControlCard.Card.RemoveLocked` | linux/sound/core/control.c:574-597 | removes one control from list, tables, counts and accounting |
| `ControlCard.Card.RemoveId` | linux/sound/core/control.c:637-646 | removes a matching control, or there is none |
| `ControlCard.Card.Place` | linux/sound/core/control.c:485-501 | places a control in the first hole, or leaves everything as it was |
| `ControlCard.Card.AddReplace` | linux/sound/core/control.c:458-507 | who is refused with which error and no change, whose control is replaced, where the new one goes, and what is left on failure |
| `ControlCard.Card.RenameLocked` | linux/sound/core/control.c:775-786 | a control changes its id in place; tables and accounting stay in order |
| `ControlCard.Card.RenameId` | linux/sound/core/control.c:746-762 | renames a matching control under its old numid, or there is none |
| `ControlCard.Card.Rename` | linux/sound/core/control.c:775-786 | the new name, cut to what fits |
| `ControlCard.Card.RemoveUser` | linux/sound/core/control.c:659-676 | removes the control that the lookup finds exactly if it is a user control nobody else holds; otherwise the error says why, and nothing changes |
| `ControlCard.Card.Charge` | linux/sound/core/control.c:1674-1702 | charges header and values within the limit |
| `ControlCard.Card.InitEnumNames` | linux/sound/core/control.c:1555-1592 | names are taken over exactly if short enough, within the limit, copied and in order; otherwise nothing changes |
| `ControlCard.Card.AddUser` | linux/sound/core/control.c:1670-1741 | an addition succeeds if there is memory, within the limit, the names are in order, the id is free and numids are left, and fails with the matching error otherwise; a failed one leaves list, user data and accounting as they were |
| `ControlCard.Card.Enlist` | linux/sound/core/control.c:1725-1730 | a charged control is listed if its id is free and numids are left, or its bytes are given back |
| `ControlCard.Card.ElemAdd` | linux/sound/core/control.c:1614-1741 | which calls from user space succeed and which error each of the others gets; the bytes after a call; a failed one changes them exactly if it was a replacement with a good name of a found, unheld user control |
| `ControlCard.Card.ElemAddUser` | linux/sound/core/control.c:1743-1760 | which calls succeed; if the new id cannot be copied out the new control is gone again, with its bytes |
| `ControlCard.Card.GoneIsFree` | linux/sound/core/control.c:1632-1645 | where ids are kept apart, removing the control that an id finds leaves none that it finds |
| `ControlCard.Card.ReplaceTlv` | linux/sound/core/control.c:1475-1526 | exactly when TLV bytes are taken, which error each refusal gets, and that the accounting moves by the difference; otherwise nothing changes |
| `ControlCard.AcceptedIff` | linux/sound/core/control.c:941-983 | a description is accepted exactly if it asks for at most 1028 elements of a known type, with items where they are needed, and for values that fit their part of an element's value |
| `ControlCard.NameOkIff` | linux/sound/core/control.c:1627-1631 | a name is good exactly if there is one and storing it would not cut it |
| `ControlCard.LostBytes` | linux/sound/core/control.c:1594-1612 | a removed user control takes at least its header along |
| `ControlCard.RenameHides` | linux/sound/core/control.c:746-762 | any control that can be found can be renamed so that no id without numid matches it |
| `ControlCard.CheckSuffices` | linux/sound/core/control.c:467-489 | looking up the first element is enough for a control of one element that brings no numid |
| `ControlCard.TwinByNumid` | linux/sound/core/control.c:467-489 | a numid that no control has hides a control of the same id: both are listed |
| `ControlCard.TwinByCount` | linux/sound/core/control.c:467-489 | a control of two elements is added beside a live one that has the second of them |
| `ControlCard.ReplaceLoses` | linux/sound/core/control.c:1632-1645 | a replacement refused for its element count has already destroyed the old control: the accounted bytes drop |
| `ControlCard.Serve` | linux/sound/core/control.c:458-1741 | each kind of request, by drivers and by user space, keeps the whole invariant; which of them succeed, and what they leave in the list |
| `ControlCard.Run` | linux/sound/core/control.c:458-1741 | after any run of requests the accounted bytes are those of the live user controls, within the limit, and lookup by id is exact |
| `ControlEvents.MaskMerge` | linux/sound/core/control.c:165-170 | merging a mask into a pending record adds exactly that mask to its numid |
| `ControlEvents.QueuedKeeps` | linux/sound/core/control.c:163-180 | a notice keeps one record per numid, and read, pending and lost masks equal to the notified and stale ones |
| `ControlEvents.TakenKeeps` | linux/sound/core/control.c:2011-2020 | taking a record out moves its mask to the delivered, or the lost, ones |
| `ControlEvents.QueuedOrder` | linux/sound/core/control.c:163-180 | a notice leaves the order of the waiting numids alone, and a new one goes to the end |
| `ControlEvents.NothingMissed` | linux/sound/core/control.c:149-187 | without losses, what was read or is pending is everything notified, and what was stale |
| `ControlEvents.EventFile.Post` | linux/sound/core/control.c:163-182 | the queue after a notice: merged, appended, or unchanged for want of memory; waiting numids stay in the order of their first notice |
| `ControlEvents.EventFile.TakeOne` | linux/sound/core/control.c:2011-2024 | records are read from the front; a failed copy loses one |
| `ControlEvents.EventFile.PostAll` | linux/sound/core/control.c:163-182 | many notices: numids wait in the order of their first notice |
| `ControlEvents.EventFile.Next` | linux/sound/core/control.c:1990-2024 | one turn of reading: a record is taken or lost, or the reader is told to try again, waits, or is ended by a shutdown or a signal, in this order |
| `ControlEvents.EventFile.Read` | linux/sound/core/control.c:1977-2033 | errors, byte counts, order and conservation of a read among concurrent notices: what is there is read as far as it fits, and a reader waits, or is told to try again, exactly if there is nothing |
| `ControlEvents.EventFile.Subscribe` | linux/sound/core/control.c:1772-1791 | what switching the subscription does; after switching off the queue is empty exactly if no record was made of a notice arriving in between, and what is left is stale for the next subscription |
| `ControlEvents.EventFile.EmptyQueue` | linux/sound/core/control.c:97-107 | the queue is emptied and the books start anew |
| `ControlEvents.StaleDelivery` | linux/sound/core/control.c:1772-1791 | a notice that comes while a subscription is switched off is read by the next subscriber, who was notified of nothing: a reachable run |
| `ControlEvents.Notify` | linux/sound/core/control.c:149-187 | exactly the subscribed files of a card that is not shut down get the notice |
| `ControlEvents.Run` | linux/sound/core/control.c:149-187 | after any run of notices, reads and subscriptions at most one record of a numid is pending, and read, pending and lost are what was notified since the subscription, and what was stale; without losses, and records made while switching off, read plus pending is exactly what was notified since |
| `CardId.NextCandidate` | linux/sound/core/init.c:739-746 | the next suffix overwrites the last one and what is in front of it is still the base |
| `CardId.CandidatesDiffer` | linux/sound/core/init.c:730-747 | no two candidates of a base are alike, even when the base is cut |
| `CardId.SuffixedAllowed` | linux/sound/core/info.c:20-47 | an id with a suffix is never a reserved word |
| `CardId.Pigeonhole` | linux/sound/core/init.c:730-747 | with fewer taken ids than candidates some candidate is not taken |
| `CardId.SomeCandidateFree` | linux/sound/core/init.c:730-747 | with at most n - 1 other cards some candidate of an allowed base is free |
| `CardId.CleanedBase` | linux/sound/core/init.c:691-706 | a cleaned name is a base unless empty or starting with card, and never starts with a digit |
| `CardId.KeptAsIs` | linux/sound/core/init.c:691-706 | a short name of letters and digits that starts with a letter is kept as it is |
| `CardId.PassedOver` | linux/sound/core/init.c:691-706 | any other character is passed over |
| `CardId.LetterInFront` | linux/sound/core/init.c:691-706 | a name that starts with a digit gets the first letter of the source name, or D, in front |
| `CardId.CutShort` | linux/sound/core/init.c:691-706 | a longer name is cut to what the buffer holds |
| `CardId.HexIsHex` | linux/sound/core/init.c:739-746 | a suffix is its number in capital hexadecimal without leading zeros |
| `CardId.CandidateIs` | linux/sound/core/init.c:730-747 | a candidate is the base, or as much of it as the suffix leaves room for, and the suffix |
| `CardId.CopyValid` | linux/sound/core/init.c:691-706 | the copy loop leaves exactly the cleaned, cut name in the buffer |
| `CardId.StrCpy` | linux/sound/core/init.c:746-746 | a copy into the buffer leaves the kept prefix followed by the text |
| `CardId.TryCandidates` | linux/sound/core/init.c:730-747 | the loop ends at the first free candidate, or has found none free |
| `CardId.SetId` | linux/sound/core/init.c:711-757 | for every name and any other cards the id ends up free, as the first free candidate of the name or of Default: no other card has it, it is no reserved word and does not start with card; the last resort is not reached |
| `ComprLife.GoingWasStarted` | linux/sound/core/compress_offload.c:785-869 | whatever has to be stopped was started after a write, unless an error or the end of a tried partial drain was reported, and has not been stopped or drained since |
| `ComprLife.AnnouncedWasDescribed` | linux/sound/core/compress_offload.c:709-724 | every next track was announced with metadata of its own, given since the last announcement and stop, whether the driver accepted it or not |
| `ComprLife.FinishingWasAnnounced` | linux/sound/core/compress_offload.c:958-992 | every partial drain, begun or refused, leads to a track announced since the last one begun |
| `ComprLife.RanOnWasTried` | linux/sound/core/compress_offload.c:958-992 | a stream runs on after a drain only if a partial one was tried since the last time, and since the last stop |
| `ComprRing.SameAreaKeeps` | linux/sound/core/compress_offload.c:555-590 | a ring of another size in the same memory holds the queue if its bytes stay in their slots |
| `ComprRing.KeepsIff` | linux/sound/core/compress_offload.c:555-590 | whatever the bytes are, they outlive a change of the ring's size exactly if they fit and stay in their slots |
| `ComprRing.FreshKeepsIff` | linux/sound/core/compress_offload.c:555-590 | new memory holds a queue, whatever is in it, exactly if nothing is unconsumed |
| `Compress.GoodBufferFits` | linux/sound/core/compress_offload.c:596-621 | an accepted buffer is not empty and its size fits 32 bits |
| `Compress.ComprStream.SetParams` | linux/sound/core/compress_offload.c:623-660 | which calls are refused; the ring is replaced before the driver is asked, and exactly which unconsumed bytes are lost by that |
| `Compress.ComprStream.AllocateBuffer` | linux/sound/core/compress_offload.c:555-590 | the ring is replaced exactly if there is memory; the unconsumed bytes survive exactly if there are none, or they stay in their slots of the driver's memory |
| `Compress.ComprStream.CalcAvail` | linux/sound/core/compress_offload.c:194-228 | all three branches give the ring's size less the unconsumed bytes, and wrap around exactly if these are more |
| `Compress.ComprStream.CopyQueued` | linux/sound/core/compress_offload.c:264-293 | one part of a copy extends the queue held by the ring, or on a fault leaves it |
| `Compress.ComprStream.WriteData` | linux/sound/core/compress_offload.c:264-293 | a write split at the ring's end extends the queue as one; on a fault the queue is what it was |
| `Compress.ComprStream.Append` | linux/sound/core/compress_offload.c:326-333 | bytes that fit extend the queue; where the room has wrapped around they overrun the oldest, and from where the ring is sound |
| `Compress.ComprStream.Write` | linux/sound/core/compress_offload.c:295-343 | as many bytes as there is room for are taken, or all; the new state; the first write prepares the stream even on error |
| `Compress.ComprStream.SafeIff` | linux/sound/core/compress_offload.c:295-343 | a write stays in the buffer exactly if it takes no more bytes than the ring has |
| `Compress.ComprStream.Poll` | linux/sound/core/compress_offload.c:405-466 | when a poll says that a fragment fits, and that an error or a drain is always reported; a poll takes a drain for over |
| `Compress.ComprStream.StopError` | linux/sound/core/compress_offload.c:855-869 | an error report puts a stream into the state it names, from any state |
| `Compress.ComprStream.SetMetadata` | linux/sound/core/compress_offload.c:705-724 | metadata counts as given whatever the driver answers |
| `Compress.ComprStream.Stop` | linux/sound/core/compress_offload.c:806-830 | a stopped stream is set up again with nothing written |
| `Compress.ComprStream.PartialDrain` | linux/sound/core/compress_offload.c:958-992 | a partial drain needs a next track; its flag stays set even if the driver refuses |
| `Compress.RefusedPartialDrainSticks` | linux/sound/core/compress_offload.c:958-992 | so after a refused partial drain a full one ends running instead of set up |
| `Compress.FullDrain` | linux/sound/core/compress_offload.c:906-930 | a full drain ends set up exactly if no partial drain was tried before |
| `Compress.PauseThenResume` | linux/sound/core/compress_offload.c:739-783 | resuming undoes a pause, in a drain as well where pausing is allowed there; nothing can be written in between |
| `Compress.PollCutsDrain` | linux/sound/core/compress_offload.c:449-455 | a poll ends a drain with bytes unconsumed, and after a partial one the report of its end restarts the stream |
| `Compress.RefusedMetadataCounts` | linux/sound/core/compress_offload.c:720-723 | metadata that the driver refused is good enough to announce a track with |
| `Compress.ParamsLose` | linux/sound/core/compress_offload.c:623-660 | parameters for an announced track make an unconsumed byte read as another one although the driver refuses them, and the free room wrap around: a reachable run |
| `Compress.ReadOff` | linux/sound/core/compress_offload.c:264-343 | from the first sound unconsumed byte on the ring is exactly what was written, in order, and that fits the ring |
| `Compress.Run` | linux/sound/core/compress_offload.c:194-869 | after any run what was written, is not consumed and was not lost with a replaced ring is in the ring, in order; nothing is lost if parameters are set once, or keep the size of a ring in the driver's memory; everything happened when it was allowed to |
| `Compress.ByteAt` | linux/sound/core/compress_offload.c:264-293 | unconsumed byte n is at n modulo the buffer size |
| `SgFallback.SmallerShrinks` | linux/sound/core/memalloc.c:102-118 | the next size is the least power of two of pages that holds half the chunk, and it is smaller than the chunk |
| `SgFallback.AllocFallback` | linux/sound/core/memalloc.c:102-118 | the size that succeeds is the first in the shrinking series; a lack of memory is reported only at one page; the loop ends |
| `SgFallback.TilesGrow` | linux/sound/core/memalloc.c:747-753 | recording one more chunk keeps the chunks tiling the table |
| `SgFallback.TilesTotal` | linux/sound/core/memalloc.c:735-754 | tiling chunks hold as many pages as they span |
| `SgFallback.TilesCover` | linux/sound/core/memalloc.c:747-753 | every page of the table lies in the chunk recorded over it |
| `SgFallback.PageAllocator.Record` | linux/sound/core/memalloc.c:747-753 | the fill loop records a chunk's pages |
| `SgFallback.PageAllocator.FreeAll` | linux/sound/core/memalloc.c:689-709 | the walk gives back every recorded chunk exactly once with its own size, also after a partial allocation |
| `SgFallback.PageAllocator.Fill` | linux/sound/core/memalloc.c:732-754 | the loop ends; on success the chunks tile the table; it fails only when a single page is refused, and what was handed out is recorded |
| `SgFallback.PageAllocator.SgAlloc` | linux/sound/core/memalloc.c:712-779 | success hands out chunks that tile all pages, failure at any step leaves nothing handed out and is for want of a single page if for want of pages |
| `SgFallback.VmallocChunkSize` | linux/sound/core/memalloc.c:386-406 | the longest contiguous piece from an offset, up to the size asked for |
| `SoundCore.JoinKeeps` | linux/sound/sound_core.c:199-203 | a unit put between smaller and greater minors keeps the chain sorted and congruent |
| `SoundCore.LeaveUndoesJoin` | linux/sound/sound_core.c:212-226 | taking the joined unit out restores the chain |
| `SoundCore.Units.FindFree` | linux/sound/sound_core.c:163-180 | the scan stops at the least free minor |
| `SoundCore.Units.InsertUnit` | linux/sound/sound_core.c:159-206 | least free minor below top or -ENOENT iff none; the minor asked for or -EBUSY iff taken |
| `SoundCore.Units.RemoveUnit` | linux/sound/sound_core.c:212-226 | removes the unit with a minor, or there is none |
| `SoundCore.Units.Attempt` | linux/sound/sound_core.c:248-276 | a refused registration leaves the chain as it was |
| `SoundCore.Units.SoundInsert` | linux/sound/sound_core.c:239-287 | with retries: the least minor that is neither in the chain nor claimed elsewhere, or -ENOENT iff none; failure leaves no entry; the loop ends |
| `SoundCore.Units.LookForUnit` | linux/sound/sound_core.c:519-531 | the early exit finds a unit iff it is in the chain |
| `DeviceList.LifeCounts` | linux/sound/core/device.c:59-80 | an unbroken life registers at most once, disconnects at most once and only then, and frees once |
| `DeviceList.FreedIsLast` | linux/sound/core/device.c:69-80 | an event after the release would break a life |
| `DeviceList.NewKeeps` | linux/sound/core/device.c:47-54 | insertion from the end keeps the list sorted by kind, equal kinds in order of creation |
| `DeviceList.BackwardsOrder` | linux/sound/core/device.c:222-239 | of two devices freed in one pass the later one in the list goes first |
| `DeviceList.TwoPasses` | linux/sound/core/device.c:222-239 | two passes free controls and low-level devices after all others, and the later one of a group first |
| `DeviceList.Card.New` | linux/sound/core/device.c:29-56 | a new device goes behind all of the same or a lower kind, and before all of a higher one |
| `DeviceList.Card.RegisterAt` | linux/sound/core/device.c:145-156 | the register callback is called once; a failure leaves the device unregistered |
| `DeviceList.Card.DisconnectAt` | linux/sound/core/device.c:59-67 | only a registered device is disconnected |
| `DeviceList.Card.FreeAt` | linux/sound/core/device.c:69-80 | a device is disconnected if need be, freed and unlinked |
| `DeviceList.Card.Register` | linux/sound/core/device.c:171-182 | the device with the pointer is registered, or -ENXIO |
| `DeviceList.Card.Disconnect` | linux/sound/core/device.c:106-118 | the device with the pointer is disconnected |
| `DeviceList.Card.Free` | linux/sound/core/device.c:130-142 | the device with the pointer is freed |
| `DeviceList.Card.RegisterAll` | linux/sound/core/device.c:189-202 | registers the new devices in the order of the list up to the first failure and leaves the rest |
| `DeviceList.Card.DisconnectAll` | linux/sound/core/device.c:208-216 | disconnects exactly the registered devices, last one first |
| `DeviceList.Card.FreePass` | linux/sound/core/device.c:222-233 | one pass from the end frees exactly the devices that are not exempt, in reverse order |
| `DeviceList.Card.FreeAll` | linux/sound/core/device.c:222-239 | every device is freed: any of another kind before every control or low-level one, and of each group the later in the list first |
| `DeviceList.Run` | linux/sound/core/device.c:29-239 | in every run each device is created once and freed once, disconnected exactly if registered, never twice |
| `BlockGeometry.RoundUp` | sys/alsa/alsa_pcm_bsd.c:339-344 | the least power of two from 64 to 8192 frames for a wish |
| `BlockGeometry.CapDown` | sys/alsa/alsa_pcm_bsd.c:361-366 | the cap keeps a power of two, the greatest that fits |
| `BlockGeometry.Channel.Frames` | sys/alsa/alsa_pcm_bsd.c:327-371 | the block length in frames per kind of device |
| `BlockGeometry.Channel.ResizeBuffer` | sys/alsa/alsa_pcm_bsd.c:410-419 | the number of blocks, and the buffer after the resize |
| `BlockGeometry.Channel.SetBlockSize` | sys/alsa/alsa_pcm_bsd.c:301-436 | the block is a whole number of frames of the current format; the buffer takes it on exactly if there is room for the wish, and then has two such blocks, or for other devices as many as fit 256 KiB |
| `BlockGeometry.HdspFits` | sys/alsa/alsa_pcm_bsd.c:361-366 | two double-buffer blocks fit 256 KiB exactly if a frame is at most 2048 bytes |
| `BlockGeometry.HdspIsBest` | sys/alsa/alsa_pcm_bsd.c:338-366 | a double-buffer block is the wish rounded up, or if two of that do not fit less than the wish, and two of twice its length do not fit |
| `BlockGeometry.OthersFit` | sys/alsa/alsa_pcm_bsd.c:367-371 | other blocks are the wish rounded down to whole frames, at least 64 |
| `BlockGeometry.AsManyAsFit` | sys/alsa/alsa_pcm_bsd.c:415-417 | for a block of at most 128 KiB there are at least two blocks, and no room for another one |
| `BlockGeometry.FillsBuffer` | sys/alsa/alsa_pcm_bsd.c:410-419 | with room for the wish the buffer holds two blocks, or where more are wanted as many as fit |
| `BlockGeometry.KnownFormats` | sys/alsa/alsa_pcm_bsd.c:316-324 | a frame has a sample for each channel; no channels count as two, samples of unknown size as two bytes |
| `BlockGeometry.ResizeIff` | sys/alsa/alsa_pcm_bsd.c:383-419 | the new geometry takes effect exactly if the block is at most 128 KiB |
| `BlockGeometry.TakesEffect` | sys/alsa/alsa_pcm_bsd.c:301-419 | a changed block size takes effect exactly if there is room for two blocks of the wish: a condition on wish and frame |
| `BlockGeometry.TooBigAWish` | sys/alsa/alsa_pcm_bsd.c:383-419 | 50000 stereo frames: the channel takes the size on, the buffer does not |
| `BlockGeometry.CreditGoesRound` | sys/alsa/alsa_pcm_bsd.c:343-354 | an update credits the way from one pointer to the next, going round the buffer at most once |
| `BlockGeometry.CreditedPairs` | sys/alsa/alsa_pcm_bsd.c:343-354 | the credit of an alternating pointer over k interrupts, for any buffer |
| `BlockGeometry.OneBlockPerInterrupt` | sys/alsa/alsa_pcm_bsd.c:343-354 | each interrupt is credited one block exactly if the buffer has two of them |

## Left out

- Xfer: frames are abstract, so sample formats and interleaving are not modelled; silence is one frame value, so other formats' silence patterns are not either.
- Run: writers do not overlap; a second thread that writes while one is copying is not modelled, nor are rewinding and forwarding, mmap access, resuming from suspend and the reset ioctl, whose companion is not part of this model. A report on which the pointer update would never return is skipped. Card and device runs are sequences of whole calls.
- SwParams: a change to different software parameters is not modelled; the parameters are those of the stream from its setup on.
- UpdateHwPtr0: the jiffies check, which needs a debug switch, timestamps and the 64-bit wrap of hw_ptr_wrap are left out.
- Capture direction of PCM and compressed streams: mirrors playback without the silence fill.
- Mul: the soundness results ask for positive members, as MulNeedsPositive shows they must; the nearest-ratio refinements are left out because with several ratios they can drop a reachable rate, and stepping with them.
- FindId: hash tables keep control values under addresses; drivers that edit an id in place without renaming, and tables that run out of memory, are not modelled.
- AddReplace: notices to event files are modelled apart in ControlEvents; element locks enter as the answer whether someone else holds the control.
- ElemAdd: the removal and the addition are one step, although the lock is dropped in between; runs contain them as two requests as well, with any others in between. Reading and writing of element values is left out.
- Notify: wake-ups, signals and the layer callbacks are left out.
- SetId: the random and platform-derived source names are inputs.
- EventFile.Read: another thread that switches the subscription while a reader sleeps is not modelled.
- Write: a write of more than the ring's size while the free room has wrapped around leaves the buffer; such a write is skipped in runs. The DSP's counter is taken as unbounded and as never ahead of what was written; drivers with their own copy are left out, as are accelerator tasks.
- SgAlloc: mapping steps after the allocation enter as one possible failure; caching attributes are left out.
- SoundInsert: other registrations do not interleave with one call; which minors are claimed elsewhere does not change during it.
- New: a missing callback counts as one that does nothing and succeeds.
- SetBlockSize: the driver's parameter callback and the remapping of the buffer are left out, and so are 32-bit overflows of sizes, which need frames of many megabytes.
- Drivers, codecs, DMA glue, firmware, compat ioctls, sysfs, procfs, jacks, LEDs, MIDI and the FLTK tools.
