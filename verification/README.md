# Verified kernels of the DVB middleware

The middleware is mostly device plumbing; this project models the parts of it that are algorithms and
protocols, and proves what they promise.

* `Clip`, `StretchPlan`, `PixelFormat`, `PixelLaws`, `Raster`, `Blit`, `BlitLaws`, `FillRect`: the software blitter.
  Clipping, the truncating divisions of the scaling blit, the pixel formats and what conversion means in colours, and
  the loops over byte buffers, down to the bytes that are and are not written.
* `Memwatch`: the heap tracker. The doubly linked chain of blocks, its accounting and limit, no-mans-land blocks,
  realloc built from malloc and free, and the grab list.
* `Dmx`, `DmxProtocol`, `Dvr`: the demux filter table as an object, its data thread beside API callers as a state
  machine over locked regions and unlocked accesses, and the recorder on top of the filter table.
* `Fend`: the frontend lock, a monitor thread beside one client.
* `CfgText`, `CfgPrint`, `CfgParse`, `CfgRoundTrip`, `CfgHand`, `CfgInt`: the writer and the reader of configuration
  files, and what the reader makes of files that were written by hand.
* `SectionTable`: which sections of an SI table have been received, following section 5.2.4 of EN 300 468 for
  EIT segments.
* `UserData`: the ring buffer of length-prefixed packets.
* `Utf8`: the decoder of section 2 of RFC 2279 and the filter built on it.
* `KernelList`: the circular doubly linked list.
* `Runs`: runs of a state machine, for the two protocols; `Arith`, `Bits`, `BitTests`, `Seqs`, `Wrappers`: small
  shared parts.

Code that changes state is modelled by classes and loops, each proved against a function or a sequence that says
what it computes; the results about whole runs are lemmas on those. Driver answers are parameters, and the system
allocator answers arbitrarily, also whether it moves a buffer that grows.

Where a promise turned out false of the code, the code is kept and the exact condition is proved:

* the scaling blit stays on the source surface if and only if `EdgeSafe` holds on both axes, with a concrete
  rectangle that leaves it (`SamplesOnSurface`, `NegativeStartSamplesOutside`);
* a clipped scaling blit samples the same pixels as an unclipped one if and only if two truncated parts do not carry
  (`SampledPixel`, `ClipShiftsColumn`);
* a clip is stored unchecked, so a fill or blit writes only pixels of its surface if and only if the drawn rectangle
  lies on it, and a clip guarantees that for every drawing if and only if it lies there itself or is empty
  (`DrawsOnSurfaceExactly`, `ClipKeepsExactly`, and an overrun in `ClipOffSurfaceOverruns`);
* a configuration file reads back if and only if all its names are legal and the system never moves the parser's
  growing buffer while a key points into it (`ProgramReadsBackExactly`); on every system if and only if, besides
  the names, every entry fits behind its key (`ReadsBackAnywhereExactly`, with the shortest failing entry in
  `LongValueCrashes`), and where growing never moves the buffer if and only if the names are legal
  (`ReadsBackInPlaceExactly`); such lines and two kinds of nameless ones are exactly the lines the parser faults on
  (`FaultsExactly`);
* a key with nothing behind its '=' does not get an empty value but the whole next line, or at the end of the file the
  byte that stands for the end (`PlainLineReads`, `MissingValueReads`);
* freeing a demux filter without the sync lets its callback still start if and only if the data thread had already
  chosen it (`LateCallbackExactly`, reached in `FreeAloneIsNotEnough`);
* a frontend lock can return if and only if the mode is known and the callbacks are switched on
  (`LockReturnsExactly`, with the hanging calls in `DisabledCallHangs` and `UnknownModeHangs`), and then does so in
  every run once a matching event is fetched (`FetchedAnswerIsCertain`, `ThreadGetsOn`);
* its answer can be older than the tuning if and only if a matching event was already fetched and the callbacks are
  switched on (`AnswerIsOldExactly`, reached in `AnswerMayBeOld`);
* `list_cut_position` promises the other head the cut entries, but on an empty list it leaves that head as it was
  (`ListCutPosition`).

Nothing was executed.

## Model

| member | source | states |
|---|---|---|
| Clip.ClipIsIntersection | am_adp/am_osd/clip.c:99-116 | clipping is intersection of pixel sets for rectangles of any size and sign; it fails exactly when no pixel is common, and a result is never empty |
| StretchPlan.AxisExact | am_adp/am_osd/sw_op.c:464-479 | on one axis, with the chained truncating divisions as written: every sampled index lies before the end of the clipped source, and not before its start exactly under the edge condition |
| StretchPlan.SamplesOnSurface | am_adp/am_osd/sw_op.c:456-503 | every source column and row the scaling blit samples lies on the source surface if and only if both axes pass a condition on the start of the rectangle, which holds whenever it does not start left of or above the surface |
| StretchPlan.SamplesInRequestedRect | am_adp/am_osd/sw_op.c:464-503 | under that condition every sample also lies in the requested source rectangle |
| StretchPlan.NegativeStartSamplesOutside | am_adp/am_osd/sw_op.c:464-493 | a source rectangle starting one column left of the surface, scaled three to two, makes the blit sample a column outside |
| StretchPlan.SampledPixel | am_adp/am_osd/sw_op.c:477-503 | every drawn pixel samples the column and row on which its own place, scaled from the destination to the source rectangle, falls; or the one before exactly on an axis where the place of the first drawn position and the distance from it lose a whole step to truncation, which never happens where drawing starts with the destination rectangle |
| StretchPlan.ClipShiftsColumn | am_adp/am_osd/sw_op.c:477-488 | so a clip can change the column a pixel samples, by one, exactly under that condition |
| StretchPlan.StretchDraws | am_adp/am_osd/sw_op.c:456-486 | the drawn pixels are exactly those of the clip in the rounded-down image of the source part on the surface; none for empty rectangles or more than 1920 columns |
| StretchPlan.WholeImage | am_adp/am_osd/sw_op.c:456-475 | a source rectangle on its surface is drawn on all of the destination rectangle that the clip leaves |
| PixelFormat.FieldLossless | am_adp/am_osd/am_osd_internal.h:46-56 | one component taken out of a pixel and put back is the pixel's own bits under the mask |
| PixelFormat.TableFieldsCover | am_adp/am_osd/am_osd.c:170-288 | the fields of every RGB entry of the format table fill its pixel without overlap |
| PixelFormat.ColorRoundTrip | am_adp/am_osd/am_osd_internal.h:49-64 | pixel to colour and back is the identity on pixels of any format whose fields fill the pixel |
| PixelFormat.SameFormatCopies | am_adp/am_osd/sw_op.c:306-444 | between equal formats of the table, with alpha and key off, the per-pixel conversion stores the source pixel's own bytes |
| PixelLaws.StoredLowFirst | am_adp/am_osd/am_osd_internal.h:36-44 | a pixel is stored with its lowest byte first |
| PixelLaws.PixelsArePacked | am_adp/am_osd/am_osd.c:170-288 | a pixel made from a colour holds the highest bits of the components, one behind the other from the lowest bit on in the order of the format's name, and fits the pixel size |
| PixelLaws.TableColorShows | am_adp/am_osd/am_osd_internal.h:46-64 | a colour stored in a pixel and read back keeps the bits that the format has room for, and is opaque without an alpha field |
| PixelLaws.BlendMixes | am_adp/am_osd/sw_op.c:412-415 | a blended component is alpha / 255 parts of the source and the rest of the destination, rounded down or one less; at both ends of alpha it is the source or the destination less one step |
| PixelLaws.BlendMoves | am_adp/am_osd/sw_op.c:412-414 | more alpha moves a component from the destination's towards the source's |
| PixelLaws.PixelIsPainted | am_adp/am_osd/sw_op.c:315-434 | between all formats: pixels of the key value and transparent ones leave the destination, palettes take the source's lowest byte, opaque pixels store the source colour whatever was there, others the source colour mixed over the one that was there |
| Blit.NormalPlanCovers | am_adp/am_osd/sw_op.c:273-290 | the drawn rectangle is exactly the clip pixels whose translated source pixel is requested and exists |
| Blit.DrawsOnSurfaceExactly | am_adp/am_osd/sw_op.c:201-304 | the row loops write only pixels of the surface, each line in its own row, if and only if the drawn rectangle lies on the surface; they stay in the buffer if and only if its first and last byte do |
| Blit.ClipKeepsExactly | am_adp/am_osd/am_osd.c:1026-1042 | a clip keeps every drawing on the surface if and only if it lies on it, or is empty |
| Blit.ClipOffSurfaceOverruns | am_adp/am_osd/am_osd.c:1032-1035 | a surface of one byte, a clip of 100 by 100 and a 10 by 10 fill: bytes behind the buffer are written |
| Blit.Surface.SetClip | am_adp/am_osd/am_osd.c:1026-1042 | any clip is stored as given; without one the clip is the surface, and keeps every drawing on it |
| Blit.SwBlitter.NormalBlit | am_adp/am_osd/sw_op.c:267-447 | for a drawn rectangle on the surface: whichever loop runs, row copy or per-pixel, the buffer ends as the per-pixel conversion of the drawn rectangle |
| Blit.SwBlitter.StretchBlit | am_adp/am_osd/sw_op.c:449-626 | under the edge condition, for a drawn rectangle on the surface, the buffer ends as the per-pixel conversion of the sampled pixels |
| Blit.SwBlitter.BlitSurface | am_adp/am_osd/sw_op.c:628-638 | equal sizes take the plain blit, others the scaling one |
| Blit.NormalBlitPixel | am_adp/am_osd/sw_op.c:267-447 | after a plain blit each pixel of the surface is the conversion of its translated source over its old value, or unchanged when there is none |
| BlitLaws.NormalBlitDraws | am_adp/am_osd/sw_op.c:267-447 | the same in colours: every clip pixel whose translated source pixel is requested and exists is painted from it, all others keep their bytes |
| BlitLaws.StretchBlitDraws | am_adp/am_osd/sw_op.c:449-626 | in the buffer the scaling blit leaves, the clip pixels in the image of the source are painted from the source pixel at their scaled place, or one before where the truncated parts carry, and all others keep their bytes |
| Blit.SameFormatBlitCopies | am_adp/am_osd/sw_op.c:295-305 | where pixels pass unchanged the result is a translated copy of the source pixels |
| Blit.DonePixel | am_adp/am_osd/sw_op.c:486-620 | after either blit, pixels outside the drawn rectangle keep their bytes and those inside convert the pixel they sample |
| Raster.BlittedPadding | am_adp/am_osd/sw_op.c:299-304 | bytes between and behind the rows of pixels are never written |
| Blit.Surface.constructor | am_adp/am_osd/sw_op.c:52-76 | a new surface has rows padded to four bytes and a buffer that holds them all |
| FillRect.FilledRect | am_adp/am_osd/sw_op.c:201-265 | for a clipped rectangle on the surface the loops leave exactly the filled, clipped rectangle |
| FillRect.FilledPixel | am_adp/am_osd/sw_op.c:201-265 | pixels of the rectangle that lie in the clip get the value cut to the pixel size, all others keep their bytes |
| Memwatch.LiveFreed | am_adp/am_mem/memwatch.c:1100-1116 | freeing a live block, by marking or by unlinking it, takes exactly that block and its bytes out of the live ones |
| Memwatch.LivePurged | am_adp/am_mem/memwatch.c:2102-2112 | unlinking a no-mans-land block leaves the live blocks as they are |
| Memwatch.Heap.IsHeapOK | am_adp/am_mem/memwatch.c:1902-1923 | on a well-linked chain the walk finds exactly the blocks of the chain |
| Memwatch.Heap.IsOwned | am_adp/am_mem/memwatch.c:1925-1985 | on an uncorrupted heap exactly the blocks of the chain are owned |
| Memwatch.Heap.Unlink | am_adp/am_mem/memwatch.c:1576-1601 | the block leaves the chain, which stays linked both ways |
| Memwatch.Heap.Free | am_adp/am_mem/memwatch.c:1054-1155 | a live block leaves with its count and bytes: with a no-mans-land level it stays at its place in the chain, filled, else it leaves the chain; null, freed and wild pointers change nothing |
| Memwatch.Heap.Malloc | am_adp/am_mem/memwatch.c:866-948 | null means an overflowing size, the limit, or a final refusal of the system, and leaves the live blocks alone; otherwise the filled new block is the newest, and with the limit on the bytes end within it |
| Memwatch.Heap.NeededExactly | am_adp/am_mem/memwatch.c:879-884 | the system is asked for the size and the overhead, and the overflow test tells exactly the sizes for which that does not fit |
| Memwatch.Heap.Realloc | am_adp/am_mem/memwatch.c:950-1030 | null is an allocation, size 0 a free; a live block is replaced by one whose leading bytes are byte for byte those of the old one, followed by fill bytes, or left alone exactly when size, limit or system refuse; the limit is kept and restored |
| Memwatch.Heap.FreeUp | am_adp/am_mem/memwatch.c:2085-2134 | no live block is touched, and failure means that no no-mans-land memory, and when urgent no grabbed memory, is left |
| Memwatch.Heap.Perform | am_adp/am_mem/memwatch.c:866-1509 | over every sequence of malloc, free, realloc and free-up, on held blocks, on null and on freed blocks, with client writes and changes of the limit, the no-mans-land level and the grabbed memory in between: the held blocks are exactly the live ones and follow from the answers alone, every held block contains what it was filled with, what realloc copied and what the client wrote, both counters match them, the grab size matches its list, limit, level and grabbed memory are what the calls say, bytes within an unchanged limit stay within it, and a freed block stays out of the live ones and may be passed again until mwFreeUp purges it |
| Memwatch.Heap.PerformSetup | am_adp/am_mem/memwatch.c:1205-1509 | mwLimit, mwNoMansLand, mwGrab and mwDrop change no block; the grabbed memory grows by what mwGrab got and shrinks by what mwDrop may take, and the no-mans-land level leaves it alone |
| Memwatch.Heap.PerformIdle | am_adp/am_mem/memwatch.c:1084-1140 | a null free, a double free or a stale realloc of an unpurged block changes no counter and no live block |
| Memwatch.IdleVanishes | am_adp/am_mem/memwatch.c:1084-1140 | such a call can be taken out of any run without a change to what is held and freed |
| Memwatch.RunConserves | am_adp/am_mem/memwatch.c:866-1155 | over every run, the blocks and bytes held and freed are the earlier ones and those handed out since |
| Memwatch.Heap.DropMem | am_adp/am_mem/memwatch.c:1443-1486 | the grab list loses its first min(kb, n) entries of the kind and that number is returned; its size stays block size times length |
| Memwatch.DropConserves | am_adp/am_mem/memwatch.c:1443-1486 | dropping keeps the later entries of the kind and all entries of the other kind, in order |
| Memwatch.Heap.GrabMem | am_adp/am_mem/memwatch.c:1406-1441 | new entries go in front of the list, fewer than asked only when the limit or the system stops it, and the limit holds for tracked and grabbed bytes together |
| Memwatch.GrabDropRoundTrip | am_adp/am_mem/memwatch.c:1406-1486 | dropping as many as were just grabbed restores the list |
| Memwatch.Heap.NoMansLandLevel | am_adp/am_mem/memwatch.c:1492-1509 | unknown levels are ignored; entries of the other kind are kept |
| Dmx.FreeTakesOneSlot | am_adp/am_dmx/am_dmx.c:266-312 | a successful free takes exactly this slot out of the used ones and leaves it disabled; a failed one keeps it |
| Dmx.AllocTakesLowestSlot | am_adp/am_dmx/am_dmx.c:430-476 | a successful allocation adds the lowest unused slot, disabled; without driver refusal it fails only on a full table |
| Dmx.OthersKeepUsed | am_adp/am_dmx/am_dmx.c:486-530 | stopping, starting and setting callbacks keep the used set and the invariant that enabled filters are used |
| Dmx.Device.AllocateFilter | am_adp/am_dmx/am_dmx.c:430-476 | the loop hands out the slot the specification names, or none |
| Dmx.Device.FreeFilter | am_adp/am_dmx/am_dmx.c:584-606 | success removes exactly this handle, failure none, other slots are untouched |
| Dmx.Device.SetFilter | am_adp/am_dmx/am_dmx.c:540-575 | the filter is stopped first, and only then is the driver asked; success leaves it used, disabled and set to the pid |
| Dmx.Device.StopFilter | am_adp/am_dmx/am_dmx.c:655-679 | a driver answer of 0 or above disables the filter |
| Dmx.Device.StartFilter | am_adp/am_dmx/am_dmx.c:615-646 | only a driver answer of 0 enables the filter |
| Dmx.Device.SetCallback | am_adp/am_dmx/am_dmx.c:760-783 | the pair of an allocated slot is replaced, other handles are refused |
| DmxProtocol.InvHolds | am_adp/am_dmx/am_dmx.c:145-250 | in every reachable state the run flag is set exactly between setting and clearing it, and enabled filters are used |
| DmxProtocol.Quiescence | am_adp/am_dmx/am_dmx.c:829-845 | in every interleaving, after a successful free of a slot by any thread and a client's sync, no callback for the slot runs or starts until it is handed out again |
| DmxProtocol.StopQuiescence | am_adp/am_dmx/am_dmx.c:655-679 | the same for stopping: after a stop that disables the slot and a client's sync no callback runs or starts until the slot is started again |
| DmxProtocol.LateCallbackExactly | am_adp/am_dmx/am_dmx.c:189-226 | after a successful free without sync, in every reachable state, a callback for the slot can still start if and only if the data thread had already chosen it |
| DmxProtocol.FreeAloneIsNotEnough | am_adp/am_dmx/am_dmx.c:189-226 | such a state is reachable |
| DmxProtocol.InvokedPairWasReadTogether | am_adp/am_dmx/am_dmx.c:189-226 | every callback gets a pair that one locked read found while the filter was used and enabled |
| DmxProtocol.NewPairAfterSync | am_adp/am_dmx/am_dmx.c:760-845 | after setting a callback and a client's sync, later callbacks of the slot get the new pair, also across free and reallocation |
| DmxProtocol.PassDelivers | am_adp/am_dmx/am_dmx.c:163-232 | a pass of the data thread that no API call disturbs makes exactly the callbacks of the slots in its mask that are enabled, have a callback and can be read, each once, in order and with its own pair |
| Dvr.FidsUpdated | am_adp/am_dvr/am_dvr.c:151-164 | changing one stream's filter changes the held set by exactly that filter |
| Dvr.Recorder.AddStream | am_adp/am_dvr/am_dvr.c:120-137 | one more stream without filter, its pid cut to 16 bits, or the overflow error |
| Dvr.Recorder.StartAllStreams | am_adp/am_dvr/am_dvr.c:141-171 | every stream gets a filter of its own, set to its pid and enabled if the driver agrees, unless the driver refuses one or none is free; filters of others are untouched |
| Dvr.Recorder.StopAllStreams | am_adp/am_dvr/am_dvr.c:174-192 | every held filter is given back except exactly those whose free, or whose stop inside the free, the driver refuses |
| Dvr.Recorder.StartRecord | am_adp/am_dvr/am_dvr.c:324-365 | error cases in order; at most 32 streams, each served as above; the newly used filters are exactly the held ones, distinct and unused before |
| Dvr.Recorder.StopRecord | am_adp/am_dvr/am_dvr.c:373-391 | recording off means no streams; the demux loses exactly the held filters that could be freed |
| Dvr.Recorder.RecordAndStop | am_adp/am_dvr/am_dvr.c:324-391 | starting and stopping restores the demux's used set when the driver agrees to stop and free, however many allocations failed |
| Fend.ParaEqualIsEquivalence | am_adp/am_fend/am_fend.c:108-139 | the comparison is an equivalence for the known modes and always false for any other |
| Fend.MatchesExactly | am_adp/am_fend/am_fend.c:108-139 | an event answers a call if and only if it has a status, the mode is known, the frequency is equal, and in QPSK the symbol rate, in QAM symbol rate and modulation, in ATSC the modulation; nothing else counts |
| Fend.LockSucceeds | am_adp/am_fend/am_fend.c:1064-1157 | when the lock call returns, the earlier pair is back and the status is the non-zero one of a delivered event with the requested frequency and, by mode, the requested symbol rate and modulation |
| Fend.LockRefused | am_adp/am_fend/am_fend.c:1136-1156 | when tuning is refused, the installed lock callback is taken back while the lock is held: in every run at most one event is fetched in between, so the thread never sees it; pair, status and client are as before |
| Fend.NoDeadParameter | am_adp/am_fend/am_fend.c:1064-1089 | at every step of every run, a callback gets a lock parameter, and the lock callback uses it, only while that lock call waits; callback and parameter always belong together |
| Fend.LockReturnsExactly | am_adp/am_fend/am_fend.c:148-182 | in every reachable state in which tuning is accepted, some run lets the call return if and only if the mode is known and the callbacks are switched on |
| Fend.FetchedAnswerIsCertain | am_adp/am_fend/am_fend.c:148-182 | once a matching event is fetched, with the lock callback in place and the callbacks on, in every run the call can return when the thread waits again, whatever callbacks and other callers do meanwhile |
| Fend.ThreadGetsOn | am_adp/am_fend/am_fend.c:148-182 | while a call waits the thread always has a step to do, each of them brings it nearer to its next wait, and no other step moves it |
| Fend.DisabledCallHangs | am_adp/am_fend/am_fend.c:166-171 | a call after the client has switched the callbacks off never returns |
| Fend.UnknownModeHangs | am_adp/am_fend/am_fend.c:1071-1078 | a call in a mode the comparison does not know never returns |
| Fend.AnswerIsFresh | am_adp/am_fend/am_fend.c:148-182 | unless a matching event was already fetched when tuning was accepted, the status is that of a matching event fetched after that |
| Fend.AnswerIsOldExactly | am_adp/am_fend/am_fend.c:148-182 | a run without a further fetch can answer the call if and only if a matching event was already fetched and the callbacks are switched on |
| Fend.AnswerMayBeOld | am_adp/am_fend/am_fend.c:148-182 | such a state is reachable in every known mode |
| CfgPrint.Output.StoreStr | am_mw/am_cfg/am_cfg_output.c:244-302 | appends the text of the entry, a null string like an empty one |
| CfgPrint.Output.BeginSection | am_mw/am_cfg/am_cfg_output.c:312-322 | appends the section head and goes one level down |
| CfgPrint.Output.EndSection | am_mw/am_cfg/am_cfg_output.c:330-345 | appends the section end one level up, or fails at level 0 without writing |
| CfgPrint.Output.Perform | am_mw/am_cfg/am_cfg_output.c:244-345 | any sequence of output calls writes its text |
| CfgParse.Parser.NextLine | am_mw/am_cfg/am_cfg_input.c:69-355 | reading a line character by character into a buffer that the system may move whenever it grows makes the callbacks and stack changes of the specification, with a fault where the key handed over points into an earlier allocation |
| CfgParse.Parser.ParseFile | am_mw/am_cfg/am_cfg_input.c:357-368 | for every system, the loop ends on every input with the specified events, status and section stack |
| CfgParse.EventsNest | am_mw/am_cfg/am_cfg_input.c:181-231 | on every input and every system begins and ends nest, each end carries the innermost open name, and the stack is exactly the begins without end |
| CfgParse.CloseNeedsOpen | am_mw/am_cfg/am_cfg_input.c:197-213 | a line starting with a closing brace is accepted exactly when a section is open, and closes the innermost one |
| CfgParse.ParsesExactly | am_mw/am_cfg/am_cfg_input.c:69-368 | for every system, the parser does what the text means if and only if no key dangles; else it crashes behind the first events of the text |
| CfgParse.FaultsExactly | am_mw/am_cfg/am_cfg_input.c:69-330 | for every system, the parser faults exactly on a section without name, on an empty key whose quoted value is blank, and on an entry for whose value the buffer that holds the key is moved |
| CfgParse.StringsInBuffer | am_mw/am_cfg/am_cfg_input.c:122-134 | key and value can both be read back from the one buffer |
| CfgHand.PlainLineReads | am_mw/am_cfg/am_cfg_input.c:249-324 | a line `key = value` without quotes gives the callback the key and the whole value, whatever characters they contain, both without the white space around them |
| CfgHand.LastLineReads | am_mw/am_cfg/am_cfg_input.c:304-311 | so does such a line at the end of the file |
| CfgHand.MissingValueReads | am_mw/am_cfg/am_cfg_input.c:249-311 | a key whose value is missing at the end of the file gets the byte that the end is stored as |
| CfgHand.FlagLineReads | am_mw/am_cfg/am_cfg_input.c:326-343 | a key without a value, with or without a comment behind it, reads as an empty value |
| CfgHand.QuotedLineReads | am_mw/am_cfg/am_cfg_input.c:260-323 | a quoted value means its characters, escapes and joined lines up to the quote that ends it; without that quote the line is an error |
| CfgHand.FileReads | am_mw/am_cfg/am_cfg_input.c:149-368 | a file of such lines, comments, section heads and closing braces, in any order and layout, means what its lines stand for, up to the first error |
| CfgHand.HandWrittenReads | am_mw/am_cfg/am_cfg_input.c:62-368 | the parser does that on every system that never moves the buffer, and on any other one it does that or crashes behind the first events of it |
| CfgRoundTrip.ValueReadsBack | am_mw/am_cfg/am_cfg_input.c:264-310 | reading undoes escaping for every value, with quotes, backslashes, line ends and trailing blanks |
| CfgRoundTrip.StoreReadsBackExactly | am_mw/am_cfg/am_cfg_output.c:244-302 | the text of an entry means the entry exactly when its key is legal, or it has a value but no key |
| CfgRoundTrip.OpenReadsBackExactly | am_mw/am_cfg/am_cfg_output.c:312-322 | the text of a section head means the head exactly when its name is legal |
| CfgRoundTrip.ReadNamesAreLegal | am_mw/am_cfg/am_cfg_input.c:215-244 | whatever is read from a file without NULs has a legal name; only a key can be empty |
| CfgRoundTrip.RoundTrip | am_mw/am_cfg/am_cfg_input.c:173-368 | for every sequence of legal output calls their text means exactly their events in order, with all values unchanged |
| CfgRoundTrip.FileReadsBackExactly | am_mw/am_cfg/am_cfg_input.c:173-368 | a whole written file means the events of its calls if and only if all calls are legal |
| CfgRoundTrip.ProgramRoundTrip | am_mw/am_cfg/am_cfg_input.c:69-368 | for every system, parsing the text of legal calls yields their events if no growth behind a key moves the buffer; else the parser crashes behind the first of them |
| CfgRoundTrip.ProgramReadsBackExactly | am_mw/am_cfg/am_cfg_input.c:69-368 | for all calls and every system: parsing what they wrote ends well with exactly their events if and only if all are legal and no growth behind a key moves the buffer |
| CfgRoundTrip.ReadsBackAnywhereExactly | am_mw/am_cfg/am_cfg_input.c:69-368 | a file reads back on every system if and only if all calls are legal and every entry fits the room its key has |
| CfgRoundTrip.ReadsBackInPlaceExactly | am_mw/am_cfg/am_cfg_input.c:69-368 | where growing never moves the buffer, a file reads back if and only if all calls are legal |
| CfgRoundTrip.ShortEntriesFit | am_mw/am_cfg/am_cfg_input.c:70-92 | keys and values of at most 62 characters together always fit, so they read back on every system |
| CfgRoundTrip.LongValueCrashes | am_mw/am_cfg/am_cfg_input.c:70-92 | a first entry with a key of one character reads back up to 61 characters of value; from 62 on the parser crashes exactly if the system moves the buffer at one of the growths, and surely if it does at the first |
| CfgRoundTrip.ForestRoundTrip | am_mw/am_cfg/am_cfg_output.c:244-345 | for every legal tree of sections and keys the text means its events and leaves no section open, and the parser yields them, on any system, if and only if no growth behind a key moves the buffer |
| CfgRoundTrip.WriteThenRead | am_mw/am_cfg/am_cfg_output.c:244-345 | the two programs, run one after the other on any calls and any system, return all events if and only if all calls are legal and no growth behind a key moves the buffer |
| CfgInt.IntRoundTrip | am_mw/am_cfg/am_cfg_input.c:470-499 | every 32-bit int converts back from its decimal, octal and hexadecimal text |
| CfgInt.TextsAre | am_mw/am_cfg/am_cfg_output.c:122-169 | the decimal text has its sign, the others the prefix of their base and the int's bits; all digits are of the base, in lower case and without leading zeros |
| CfgInt.TextScans | am_mw/am_cfg/am_cfg_input.c:476-490 | white space, a sign and digits scan as their value whatever follows, and nothing scans without a digit |
| CfgInt.StoredIntReadsBack | am_mw/am_cfg/am_cfg_output.c:122-169 | a stored int is what its callback value converts to, and the entry reads back, on any system, if and only if no growth behind its key moves the buffer |
| SectionTable.BitSetMeans | am_mw/am_epg/am_epg.c:68-70 | setting bit b changes membership of section b alone |
| SectionTable.BitClearMeans | am_mw/am_epg/am_epg.c:68-71 | clearing bit b removes section b alone |
| SectionTable.BitTestMeans | am_mw/am_epg/am_epg.c:68-72 | the test is membership |
| SectionTable.BitClearAboveMeans | am_mw/am_epg/am_epg.c:73-74 | the segment mask removes exactly the later sections of the same group of eight |
| SectionTable.MarkRefines | am_mw/am_epg/am_epg.c:439-499 | a mark keeps every slot what the history of its extension says, with one slot for each extension |
| SectionTable.MaskMeans | am_mw/am_epg/am_epg.c:476-493 | a mask bit is set exactly when the section is not behind the last one, was not received and was not cut off by a segment end since the version or length changed |
| SectionTable.MissingExactly | am_mw/am_epg/am_epg.c:468-493 | what is missing, told from the marks alone: the sections up to the last one that no mark accounts for since version and last section are those of the extension's last mark |
| SectionTable.TableCtl.Clear | am_mw/am_epg/am_epg.c:335-349 | the history is empty |
| SectionTable.TableCtl.RestartArrival | am_mw/am_epg/am_epg.c:2288-2295 | waiting for the table again forgets the arrival and keeps every slot and the history |
| SectionTable.TableCtl.TestComplete | am_mw/am_epg/am_epg.c:397-411 | complete means that data has arrived and no section of any seen sub-table is missing |
| SectionTable.TableCtl.TestRecved | am_mw/am_epg/am_epg.c:414-436 | yes exactly for sections of the current version and length that are not missing; the arrival time is stamped only then |
| SectionTable.TableCtl.MarkSection | am_mw/am_epg/am_epg.c:439-499 | the exact failure cases; success extends the history by the mark and changes no slot of another extension |
| UserData.RingBuffer.Avail | am_adp/am_userdata/am_userdata.c:147-167 | what is available and what is free add up to size - 1 |
| UserData.RingBuffer.Read | am_adp/am_userdata/am_userdata.c:169-188 | takes the first len bytes, across the end of the array |
| UserData.RingBuffer.Write | am_adp/am_userdata/am_userdata.c:190-215 | appends the bytes, across the end of the array |
| UserData.RingBuffer.PackageWrite | am_adp/am_userdata/am_userdata.c:229-252 | the whole packet joins the queue exactly when it and all stored packets, with four bytes for each, come to at most size - 1; else nothing is written |
| UserData.RingBuffer.PackageRead | am_adp/am_userdata/am_userdata.c:254-294 | the oldest packet leaves whole, handed over byte for byte or dropped when too large; the branch for missing bytes is unreachable |
| UserData.FramedFront | am_adp/am_userdata/am_userdata.c:259-265 | the front of the ring is the length and the bytes of the oldest packet |
| UserData.FramedSize | am_adp/am_userdata/am_userdata.c:229-252 | a queue takes four bytes and its own for each packet |
| UserData.UnreadableExactly | am_adp/am_userdata/am_userdata.c:254-262 | the one stored queue from which nothing can be read is a lone empty packet |
| UserData.Conservation | am_adp/am_userdata/am_userdata.c:229-294 | over every run, what was queued and accepted is what was taken out and what is left, in order |
| UserData.RingBuffer.Perform | am_adp/am_userdata/am_userdata.c:229-294 | any run of packet writes and reads on the ring does to the queue what the specification says |
| Utf8.DecodesExactly | am_adp/am_misc/am_misc.c:326-396 | the decoder answers a value and width exactly when the input starts with the shortest encoding of that value below 2^31 |
| Utf8.EncodeBytes | am_adp/am_misc/am_misc.c:326-396 | the bytes of the shortest encoding, form by form as in section 2 of RFC 2279 |
| Utf8.ErrorsMean | am_adp/am_misc/am_misc.c:326-396 | which inputs are answered with which error |
| Utf8.CharsTake | am_adp/am_misc/am_misc.c:411-442 | an encoded character in front of any text is taken whole |
| Utf8.CharsSkip | am_adp/am_misc/am_misc.c:411-442 | bytes at which no encoding starts are left out, and nothing behind them |
| Utf8.PrefixFree | am_adp/am_misc/am_misc.c:326-396 | no encoding is the beginning of another one |
| Utf8.FilterCleans | am_adp/am_misc/am_misc.c:411-442 | for every input and room the output fits, is the longest run of leading characters that fits, and is well-formed |
| Utf8.FilterKeepsExactly | am_adp/am_misc/am_misc.c:411-442 | the output is the input exactly when the input is well-formed and fits |
| Utf8.FilterIdempotent | am_adp/am_misc/am_misc.c:411-442 | filtering twice is filtering once |
| Utf8.CheckUtf8 | am_adp/am_misc/am_misc.c:411-468 | the loop leaves exactly the filter's output in the destination and the rest of it unchanged |
| KernelList.RotateRing | am_mw/am_fend_ctrl/list.h:57-66 | a ring read from another node is a ring |
| KernelList.ListAdd | am_mw/am_fend_ctrl/list.h:80-83 | the entry becomes the first one |
| KernelList.ListAddTail | am_mw/am_fend_ctrl/list.h:94-97 | the entry becomes the last one |
| KernelList.ListDel | am_mw/am_fend_ctrl/list.h:119-124 | the list closes over the entry, whose links are dead |
| KernelList.ListDelInit | am_mw/am_fend_ctrl/list.h:156-160 | the list closes over the entry, which becomes an empty list |
| KernelList.ListReplace | am_mw/am_fend_ctrl/list.h:136-143 | the new node takes the place of the old entry |
| KernelList.ListReplaceHead | am_mw/am_fend_ctrl/list.h:136-143 | replacing a head, with or without entries, makes the new node the head of the same entries |
| KernelList.ListReplaceInit | am_mw/am_fend_ctrl/list.h:145-150 | the same, and the old head is an empty list |
| KernelList.ListReplaceInitEntry | am_mw/am_fend_ctrl/list.h:145-150 | the new node takes the place of the old entry, which becomes an empty list |
| KernelList.ListMove | am_mw/am_fend_ctrl/list.h:167-171 | the entry becomes the first one of its own list |
| KernelList.ListMoveTo | am_mw/am_fend_ctrl/list.h:167-171 | the entry becomes the first one of another list |
| KernelList.ListMoveTail | am_mw/am_fend_ctrl/list.h:178-183 | the entry becomes the last one of its own list |
| KernelList.ListMoveTailTo | am_mw/am_fend_ctrl/list.h:178-183 | the entry becomes the last one of another list |
| KernelList.ListRotateLeft | am_mw/am_fend_ctrl/list.h:228-236 | the first entry becomes the last one |
| KernelList.ListIsSingular | am_mw/am_fend_ctrl/list.h:242-245 | true exactly for one entry |
| KernelList.ListIsLast | am_mw/am_fend_ctrl/list.h:190-194 | true exactly for the last entry |
| KernelList.ListSplice | am_mw/am_fend_ctrl/list.h:287-311 | the entries of one list go in front of those of the other |
| KernelList.ListSpliceTail | am_mw/am_fend_ctrl/list.h:318-323 | the entries of one list go behind those of the other |
| KernelList.ListSpliceInit | am_mw/am_fend_ctrl/list.h:332-339 | and the list they came from is empty |
| KernelList.ListSpliceTailInit | am_mw/am_fend_ctrl/list.h:349-356 | the same at the other end |
| KernelList.ListCutPosition | am_mw/am_fend_ctrl/list.h:247-285 | the two lists are the exact split at the entry; an empty list changes neither head |
| KernelList.CutAndSplice | am_mw/am_fend_ctrl/list.h:247-311 | cutting at an entry and splicing back restores the list |

## Left out

- Blit.SwBlitter.StretchBlit: is stated for rectangles that pass the edge condition and a drawn rectangle on the surface; for rectangles that fail the edge condition the original samples outside the source surface, and before its buffer on the first row, which the model has no value for.
- Blit.SwBlitter.BlitSurface: carries the same edge condition when the sizes differ, and a drawn rectangle on the surface.
- Blit.SwBlitter.NormalBlit: source and destination buffers are distinct, so a surface blitted onto itself is not modelled, and the drawn rectangle lies on the surface; a clip off the surface lets the original write other pixels or behind the buffer, which the buffer contracts do not describe.
- FillRect.FilledRect: the clipped rectangle lies on the surface, for the same reason.
- Rectangle products and offsets of the blitter are unbounded integers; 32-bit overflow is not modelled.
- Big-endian builds, YUV formats and the hardware and GL drawing paths of the blitter; single pixels, lines, the line clip helpers and AM_OSD_CollectRect.
- The format table is a function of the type, not an array filled at the first call; C bit operators are defined on naturals, and those of the UTF-8 decoder are written as divisions and remainders.
- Dmx.Device.StartFilter: needs an allocated handle, because the original follows a null pointer for any other.
- Opening and closing devices, am_gAdpLock, section filter parameters and the data the callbacks receive.
- A build that defines DMX_WAIT_CB, which is commented out in the source.
- Memory order: unlocked reads of the data thread and of the frontend monitor see the latest writes.
- Fend.LockSucceeds: covers one locking client; AM_FEND_SetMode and closing the device during a call are not modelled, and the parameter union is a record of the compared members.
- Users of AM_FEND_SetCallback pass their own callbacks, not the lock callback that AM_FEND_GetCallback could hand them during a call.
- Dvr.Recorder.StopRecord: nobody else frees the recorder's filters while it holds them.
- Memwatch.Heap.Free: a pointer whose header still carries a matching checksum belongs to a tracked block; a stale pointer into memory that the system has handed out again, or to a no-mans-land block purged by mwFreeUp, is not modelled, and a run makes no call on such a block.
- Corrupted blocks with mwRelink and the checksum repair, per-module statistics, marks, the last-free list, logs, the mutex, mwCalloc, mwStrdup and mwFree without a file name; the no-mans-land counters are not conserved by the original, since mwFreeUp does not update them.
- CfgParse.Parser.ParseFile: callbacks answer AM_SUCCESS, and reads and memory do not fail; line numbers are not modelled. A key that dangles is a fault, whatever its old memory still holds.
- CfgInt.IntRoundTrip: scanning covers white space, sign and digits; values above 32 bits and a second 0x prefix are left out, as are the boolean, floating point and address conversions.
- SectionTable.TableCtl.MarkSection: versions have five bits and the clock reads non-zero, as the macros of the monitor assume; the monitor's own clearing of a single slot when it restarts a filter, which keeps the slot's extension, is not modelled.
- UserData.RingBuffer.PackageWrite: packets stay below 2^31 - 4 bytes, since the original casts their size to int; read_unused_data always gets its memory, and polling is left out.
- Utf8.CheckUtf8: a negative source length, on which the original does not end, is excluded.
- KernelList.ListDel: the poison addresses are modelled as null.
- KernelList.ListReplace: the old entry keeps its links, as in the original; the careful emptiness test and hash lists are not modelled.
- The event table of am_evt.c.
- Memory pools, the smart card ring buffer, the CA manager's table tracking, DiSEqC, rotor and satellite geometry.
