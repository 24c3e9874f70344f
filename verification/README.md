# Code-cache allocation and its neighbours, verified

A Dafny model of the parts of the runtime whose correctness rests on global invariants rather
than on any one branch, with proofs that the invariants hold and of what they are for.

- **Shared code caches** (`SharedState`, `SharedSteps`, `SharedSpec`, `SharedMarks`, `SharedFlush`,
  `SharedCache`, `SharedTheorems`, `SharedCorners`). A class with the cache's units, its memory as the allocator writes it (first
  words, free-entry headers, footers), the fragment records and the nine segregated free lists.
  Ghost fields give the division of each unit into slots. `Stable` says that the slots are a partition
  of each unit up to its append point, with boundary tags, list links, after-free marks and alignment
  in agreement. Every operation keeps it, three of them exactly under a condition stated in their
  contracts; `SharedCorners` holds a run into each of the corners that are left.
- **Private code caches** (`PrivateState`, `PrivateSteps`, `PrivateSpec`, `PrivateSurplus`,
  `PrivateCache`). Slots and empties threaded on the half-circular FIFO, the two-walk eviction of
  contiguous victims, growth by committing more of a unit or adding one, and the return of unneeded space.
- **Units** (`Units`): live, dead, pending-flush and pending-free lists of all units and the size
  account of every cache. **Working sets** (`WorkingSet`): the regenerated/replaced ratio test.
- **Transcoding** (`Transcode`, `Utf`, `UtfOrder`, `UtfRoundTrip`): UTF-16 to UTF-8 and back into bounded
  buffers.
- **Configuration** (`ConfigLines`, `ConfigReader`, `Config`, `ConfigRoundTrip`): the buffered line reader
  against a plain split of the file, the precedence of the sources of a value, and reading back what was
  written.
- **Self-protection** (`Protection`): data-section protection as a state machine over all
  interleavings of threads. **Dispatch** (`Signals`, `Dispatch`): the pending signals of a thread, the
  protocol between dispatcher, cache, system calls, native code and signals, and what the application
  executes under it.
- `Layout`, `Lists`, `Alignment` and `Options` are shared vocabulary: slots that tile units, sequences
  that stand for linked lists, multiples of an alignment, values that may be absent.

Addresses and sizes are unbounded integers, 0 is NULL, and each public operation of a cache is
atomic, as it is under the cache lock. Memory handed to application code is erased from the model,
so reading a header the allocator has not written is an error, not a value. What comes from outside
(addresses of new units and heap objects, the verdict of the ratio test, the number of threads, file
contents, environment, arriving signals) is a parameter. The widths that matter are explicit: entry
sizes up to 65535, `fcache_extra` up to 255, 16-bit units and the 32-bit subtraction in the
transcoder.

The code and its comments differ in these places; the model follows the code.

- When a shared cache needs a new unit, the rest of the current one becomes a free entry unless it
  is larger than the largest entry: then it is claimed without a header and later walks of that unit
  read memory nobody wrote. `SharedCache.Cache.AddFragment` proves exactly when, and
  `SharedCorners.UnitLeftBehind` reaches it. A rest too small for an entry, which the code would also
  claim without a header, is proved not to arise (`SharedSpec.UsableGap`).
- Freeing a slot larger than the largest entry returns without doing anything, and `fragment_delete` then
  frees the record: the slot's first word dangles and every later walk of the unit follows it
  (`SharedCache.Cache.DeleteFragment` proves exactly when, `SharedCorners.OversizeDangles` reaches it).
- Returning a surplus larger than the largest entry shrinks the fragment although nothing was freed, so
  the surplus belongs to no slot, unless it lies at the append point of the current unit
  (`SharedCache.Cache.ReturnExtraSpace`, `SharedCorners.TailLost`).
- In units over the entry limit two free entries can touch, and freeing the last slot of the current unit
  can leave a free entry at its append point, which the code calls impossible
  (`SharedCache.Cache.RemoveFragment` proves exactly when, `SharedCorners.FreeBeforeAppend` reaches it).
- A fragment placed right after a free entry is then not marked as following one, against the consistency
  check of the free lists. Adding a fragment keeps the marks exact just when no free entry comes before
  the place it gets, and every other operation keeps them (`SharedCache.Cache.AddFragment`; reached by
  taking an entry in `SharedCorners.UnmarkedAfterFree` and by appending in
  `SharedCorners.AppendedAfterFree`). The other half of that check, that entries which touch are too large
  together to be one, is kept by every operation while the marks are exact (`SharedTheorems.FreeListCheck`).
- Signals are not received in the order of their arrival: the newest of the lowest pending number goes
  first, and a third alarm replaces the second (`Signals.FirstWhich`, `Signals.ThirdAlarm`; the oldest goes
  first exactly as `Signals.OldestExactly` says, and `Dispatch.SecondStartsFirst` is a run in which it does
  not).
- A signal that is pending when a thread goes native loses its flag but stays pending
  (`Dispatch.StepFlagged`, `Dispatch.SignalStranded`).
- Appending a chain of two or more units to the pending-free list clears the cache of all but the
  last, and freeing the others follows the NULL (`Units.ChainOfTwoFaults`; exactly when:
  `Units.AllUnits.FreePending`, `Units.SafeForever`).
- The line reader drops an unterminated last line that follows another line, unless more of the file
  was still to be read when it got there (`ConfigLines.RawLines`, `ConfigLines.LastLineLost`).
- The transcoders accept some malformed input: a low surrogate as the first half of a pair, stray
  and overlong UTF-8, encoded surrogates; a stray byte advances the output without writing it; the
  size call steps over the terminator at a lone last surrogate; and `*written` does not count the
  terminator its comment counts (`UtfRoundTrip.WellFormedPoints`, `UtfRoundTrip.AcceptsExactly`,
  `UtfRoundTrip.Utf16ToUtf8Size`).

## Model

| member | source | states |
|---|---|---|
| SharedTheorems.UnitPartitioned | core/fcache.c:1134-1194 | in every stable state each address of a unit below its append point lies in exactly one slot, and walking header by header accounts for every byte |
| SharedTheorems.FreeListsExact | core/fcache.c:1664-1703 | the free lists hold exactly the free slots, once each, in the list of their size, and next and prev are inverse |
| SharedTheorems.BoundaryTags | core/fcache.c:348-373 | header and footer sizes of a free slot agree with it, a fragment's record agrees with its slot, slots are aligned, and the spare bytes fit in a byte |
| SharedTheorems.MarkedFollowsFree | core/fcache.c:3063-3071 | a fragment marked as following a free entry does follow one, whatever the size of its unit |
| SharedTheorems.Coalesced | core/fcache.c:1692-1706 | in a unit no larger than the largest entry no two free slots touch, a fragment is marked exactly when the slot before it is free, and none ends at the append point while the unit can still take fragments |
| SharedTheorems.FreeListCheck | core/fcache.c:1692-1706 | what the consistency check of the free lists asserts holds of every entry exactly when the marks are exact and entries that touch are too large to be merged |
| SharedMarks.MarksAre | core/fcache.c:1692-1700 | between operations the marks are exact just when every fragment after a free slot is marked, the other direction being part of the invariant |
| SharedMarks.PlacedMarks | core/fcache.c:3204-3267 | an unmarked fragment in a claimed entry keeps the marks exact just when no free slot comes before it |
| SharedMarks.AppendedMarks | core/fcache.c:3319-3337 | one at the append point does just when no free slot ends there |
| SharedMarks.FreedAppend | core/fcache.c:3096-3110 | freeing the last slot of the current unit leaves a free entry at the append point exactly when one comes before what is returned; freeing any other changes nothing there |
| SharedMarks.FreedTouch | core/fcache.c:3015-3110 | freeing a slot keeps touching entries too large to be merged, and an entry at the append point too large to be merged with what is left there, when every fragment after a free entry is marked |
| SharedSteps.Discriminates | core/fcache.c:376-381 | looking through the first word of a slot at the flags of what it points to tells free slots from live ones, both ways |
| SharedState.Bucket | core/fcache.c:2931-2940 | every size falls in the one list whose range contains it |
| Layout.SlotRequest | core/fcache.c:3666-3679 | the slot size asked for is the least aligned one of at least the minimum that holds the fragment and its header, so that it exceeds the fragment by 8 to 89 bytes |
| Layout.SurplusAt | core/fcache.c:3458-3474 | no subtraction of the surplus computation goes below zero, its parts add up, both what stays and what goes is aligned and large enough, and padding to the minimum is added just as far as needed |
| Layout.CommitSize | core/fcache.c:2529-2539 | the doubling loop ends; the amount is the increment doubled just as often as the request needs, or all that is left of the reservation |
| SharedSpec.KeptFits | core/fcache.c:3547-3558 | after returning or keeping the surplus the fragment's record still names the same header and the remaining slot, and fcache_extra fits in a byte |
| SharedSpec.UsableGap | core/fcache.c:2484-2493 | the room left in the current unit is none or enough for an entry, so the headerless claim of a sliver never happens |
| SharedSpec.MarkMeans | core/fcache.c:3063-3099 | what the mark on a fragment says about the slot before it, used when that slot is found through its footer |
| SharedSpec.FirstFitFirst | core/fcache.c:3180-3202 | the entry the search is specified to find is the first large enough one of the lowest list that has one |
| SharedSpec.OldestGoes | core/fcache.c:2563-2639 | the unit given up for a new one is the oldest, and the others keep their order |
| SharedCache.Cache.constructor | core/fcache.c:1550-1615 | a new cache with its first unit satisfies everything the operations rely on, with exact marks, no touching entries and no free entry at the append point |
| SharedCache.Cache.RemoveFromFreeList | core/fcache.c:2954-2984 | exactly the given entry leaves its list; nothing else moves |
| SharedCache.Cache.AbsorbNext | core/fcache.c:3015-3061 | the slot after a freed one is merged if it is free and the sum is within the limit, or its fragment is marked; no mark is lost |
| SharedCache.Cache.AbsorbPrev | core/fcache.c:3063-3099 | the free entry found through its footer is merged if the sum is within the limit |
| SharedCache.Cache.Coalesce | core/fcache.c:3015-3099 | both merges together: the resulting slot, its bounds, and no change to any fragment but marks |
| SharedCache.Cache.ReturnOrPush | core/fcache.c:3101-3148 | the last slot of the current unit goes back to the append point, any other becomes the first entry of its size's list; no other list changes |
| SharedCache.Cache.AddToFreeList | core/fcache.c:2986-3148 | the layout after a slot is freed, as a function of the layout before; every other slot and fragment is kept, and if every fragment after a free slot was marked it still is |
| SharedCache.Cache.SearchFreeLists | core/fcache.c:3180-3202 | the search fails only if no entry in any list is large enough, and otherwise finds the first such entry of the lowest list that has one |
| SharedCache.Cache.PlaceFragment | core/fcache.c:2686-2732 | a slot in limbo becomes the fragment's, with the back-pointer and the record in agreement |
| SharedCache.Cache.SplitEntry | core/fcache.c:3229-3240 | the tail of a claimed entry goes back on a list, the rest keeps the invariants for a fragment to stand there |
| SharedCache.Cache.TakeWholeEntry | core/fcache.c:3241-3267 | the fragment after a wholly claimed entry loses its mark, and no other does |
| SharedCache.Cache.ClaimEntry | core/fcache.c:3209-3267 | the entry leaves its list; the claimed slot is exactly the request if the rest is worth keeping and all of the entry otherwise |
| SharedCache.Cache.FindFreeListSlot | core/fcache.c:3150-3282 | succeeds exactly when the request is within the limit and some entry is large enough; then the fragment stands where the first such entry was, in a slot of exactly the claimed size, and nothing below it changed, and the marks stay exact just when no free slot came before that entry; else nothing changed |
| SharedCache.Cache.ExtendUnitEnd | core/fcache.c:2470-2511 | how far the append point moves, what is eaten, and when the rest becomes a free entry |
| SharedCache.Cache.AppendFragment | core/fcache.c:3319-3337 | a fragment added at the end stands at the old append point and its slot is exactly the request and any rest too small to use; every fragment after a free slot is marked just when that was so and no free entry ended there |
| SharedCache.Cache.ExtendCommitment | core/fcache.c:2524-2543 | commits exactly the increment doubled as often as the request needs, or all that is left of the reservation |
| SharedCache.Cache.GrantUnit | core/fcache.c:2563-2639 | a new unit heads the list, and on request the oldest moves to the front of the units waiting to be flushed |
| SharedCache.Cache.TryForMoreSpace | core/fcache.c:2513-2684 | a new unit is made exactly when the current one's reservation cannot hold the request; otherwise exactly as much is committed as the request needs |
| SharedCache.Cache.AddFragmentCommon | core/fcache.c:3284-3350 | the recursion ends within two rounds, makes at most one unit, and leaves the fragment in a slot of exactly the claimed size |
| SharedCache.Cache.AddFragment | core/fcache.c:3642-3692 | the fragment gains a slot, where the first fitting entry was, of exactly the claimed size, or at the append point, every other keeps its own, and the cache stays divided into slots exactly when no new unit is needed or the space it leaves fits an entry, always so in units up to the entry limit; exact marks stay exact just when no free entry comes before the place it is going to get, no free entry comes to end at the append point, and entries that touch stay too large to be merged |
| SharedCorners.UnitLeftBehind | core/fcache.c:2494-2499 | a concrete cache and request after which bytes below an append point belong to no slot |
| SharedCache.Cache.RemoveFragment | core/fcache.c:3694-3734 | the layout afterwards as a function of the layout before; exactly the fragment's slot stops being live, unless it is over the limit: then nothing changes and the slot still points at the record; exact marks stay exact, with them entries that touch stay too large to be merged, and a free entry ends at the append point exactly when one did or, if the last slot is freed, when one comes before what is returned |
| SharedCache.Cache.FreeFragment | core/fragment.c:3083-3085 | freeing a record keeps the cache stable exactly when no slot points at it, and then the marks; a lazy list stays one of deleted fragments exactly when the record is not on it |
| SharedCache.Cache.DeleteFragment | core/fragment.c:3066-3085 | removing and freeing a fragment keeps the cache stable exactly when its slot is within the entry limit, and then the marks; a lazy list stays one of deleted fragments exactly when the fragment is not on it |
| SharedCorners.OversizeDangles | core/fcache.c:3005-3013 | a concrete run after which a slot points at a freed record |
| SharedCache.Cache.RemoveSharedNoFlush | core/fragment.c:3144-3238 | a fragment is marked deleted and joins the lazy list once, on which only deleted fragments are |
| SharedCache.Cache.ShiftStartPc | core/fcache.c:3387-3432 | neither header address nor slot size nor the marks change |
| SharedCache.Cache.ReleaseSurplus | core/fcache.c:3476-3546 | the tail is released exactly when it makes a useful hole at the unit's end, lies at the append point, can be merged with a free entry after it, or can stand alone; its bytes are conserved exactly when it fits an entry or lies at the append point; otherwise nothing changes and the tail is smaller than a useful hole |
| SharedCache.Cache.ReturnExtraSpace | core/fcache.c:3434-3576 | for every surplus: bytes kept plus bytes given up are the old slot, both aligned, all the surplus is given up exactly when that is worth it, so that what stays unused is bounded, no other fragment changes, the cache stays stable exactly when the bytes fit an entry or lay at the append point, exact marks stay exact, entries that touch stay too large to be merged, and no free entry comes to end at the append point |
| SharedCorners.TailLost | core/fcache.c:3536-3541 | a concrete run after which the bytes a fragment gave up belong to no slot |
| SharedCorners.UnmarkedAfterFree | core/fcache.c:1692-1700 | a concrete run after which an unmarked fragment follows a free entry |
| SharedCorners.FreeBeforeAppend | core/fcache.c:3096-3110 | a concrete run after which a free entry ends at the append point |
| SharedCorners.AppendedAfterFree | core/fcache.c:3319-3337 | a concrete run in which a fragment is appended there, unmarked |
| SharedCache.Cache.FragmentPcLookup | core/fcache.c:1134-1194 | returns a fragment exactly when its body contains the address, though the walk stops at the first header at or past it |
| SharedSpec.OneBody | core/fcache.c:1134-1194 | at most one fragment's body contains an address |
| SharedCache.Cache.ChainFragmentsForFlush | core/fcache.c:3803-3910 | the walk visits every slot of the unit in address order and ends at the append point; no list keeps an entry of the unit, the others keep their order, the chain is the unit's fragments but for deleted ones not on the lazy list, and exactly the chained deleted ones leave that list |
| SharedCache.Cache.FlushUnit | core/fcache.c:3912-4021 | after the flush the cache is as if the unit had never been there, with its marks still exact if they were |
| SharedFlush.OutsideMembers | core/fcache.c:3824-3850 | what stays on a list is what does not lie in the flushed part |
| SharedFlush.ChainMembers | core/fcache.c:3851-3890 | the fragments handed over are those with a slot in the unit that are not deleted or are on the lazy list |
| SharedFlush.FlushTakesLazy | core/fcache.c:3851-3876 | flushing a unit takes exactly its own fragments off the lazy list |
| PrivateState.AppendFifo | core/fcache.c:2271-2290 | the link writes of appending refine appending to a sequence |
| PrivateState.RemoveFifo | core/fcache.c:2292-2319 | the link writes of removing refine removing one element, at either end or in the middle |
| PrivateState.PrependFifo | core/fcache.c:2366-2375 | the link writes of prepending refine prepending to a sequence |
| PrivateSpec.EmptiedStep | core/fcache.c:2342-2378 | turning a slot into empty space, by merging with the front of the FIFO or by a new entry, keeps the invariant, empties first included |
| PrivateSpec.ReachLeast | core/fcache.c:2812-2834 | the victims end at the first slot boundary that leaves room enough, else where the unit's slots end |
| PrivateSpec.EvictableRange | core/fcache.c:2811-2834 | the victims may go exactly when no slot that starts within the requested bytes is undeletable |
| PrivateSpec.VictimBytes | core/fcache.c:2812-2834 | the victims are exactly the slots up to there, and their sizes add up to the bytes gained |
| PrivateSpec.EmptiesArePrefix | core/fcache.c:463-465 | in every state the empty slots are the first entries of the FIFO and no others |
| PrivateSpec.EvictStep | core/fcache.c:2845-2853 | one more victim: its slot joins the hole, its node leaves the FIFO and the heap, nothing else changes |
| PrivateSpec.CutStep | core/fcache.c:2873-2887 | splitting the hole leaves the new slot and one new or enlarged empty one |
| PrivateSpec.MadeDeletableIs | core/fcache.c:3369-3384 | aborting the trace in progress makes its fragments deletable and changes nothing else |
| PrivateCache.Cache.constructor | core/fcache.c:1550-1615 | a new private cache satisfies everything the operations rely on |
| PrivateCache.Cache.FifoRemove | core/fcache.c:2292-2319 | the entry leaves the FIFO, an empty slot's record is freed |
| PrivateCache.Cache.FifoPrependEmpty | core/fcache.c:2321-2378 | the freed bytes enlarge the front empty if they touch it on either side, else a new one heads the FIFO |
| PrivateCache.Cache.RemoveFragment | core/fcache.c:3694-3734 | the fragment's bytes are part of an empty slot, the FIFO is the old one without it, with at most one new empty in front, and every other fragment keeps its record and slot |
| PrivateCache.Cache.CheckVictims | core/fcache.c:2811-2834 | the first walk succeeds exactly when every victim may be deleted |
| PrivateCache.Cache.EvictVictims | core/fcache.c:2841-2871 | the second walk removes the same victims and no others, and the FIFO keeps the order of the rest |
| PrivateCache.Cache.ExtendUnitEnd | core/fcache.c:2470-2511 | the claimed bytes, and all that is left if that is too little for another slot |
| PrivateCache.Cache.ReplaceFragments | core/fcache.c:2797-2907 | all or nothing: false exactly when an undeletable victim is in the way, with nothing changed; otherwise victims plus newly claimed tail equal the new slot plus one new or enlarged empty, fcache_extra fits in a byte and no other record changes |
| PrivateCache.Cache.ReplaceFirst | core/fcache.c:2909-2929 | the first entry of the FIFO that can make room does, only empty ones being tried on request; if none can nothing changed |
| PrivateCache.Cache.AppendFragment | core/fcache.c:3319-3337 | the fragment's slot at the end of the unit and at the end of the FIFO, with its record and spare bytes in agreement |
| PrivateSurplus.KeptFits | core/fcache.c:3547-3558 | after returning or keeping the surplus a private fragment's record still names the same header and the remaining slot, and fcache_extra fits in a byte |
| PrivateSurplus.RetractStep | core/fcache.c:3476-3505 | the tail of the last slot goes back to the append point of a unit that is left with a useful hole |
| PrivateCache.Cache.GrowNext | core/fcache.c:3506-3520 | the empty slot after the fragment takes in the bytes it gives up, wherever it stands in the FIFO |
| PrivateCache.Cache.ReleaseSurplus | core/fcache.c:3476-3546 | the tail is released exactly when it makes a useful hole at the unit's end, lies at the append point, is followed by an empty slot, or can stand alone; otherwise nothing changes |
| PrivateCache.Cache.ReturnExtraSpace | core/fcache.c:3434-3576 | for every surplus: bytes kept plus bytes given up are the old slot; those given up are past the append point, in the empty slot after the fragment, or in a new one at the front of the FIFO, and what stays unused is bounded; empties still come first, no other fragment changes, and fcache_extra fits in a byte |
| PrivateCache.Cache.ReplaceFifo | core/fcache.c:2909-2929 | the first entry that can make room does, an empty one on request; the victims are the slots from its own on that the request reaches, the fragment is placed with its record in agreement, and no fragment that remains has moved |
| PrivateCache.Cache.UseUpUnit | core/fcache.c:2470-2511 | the rest of a unit, none or enough for a slot, becomes empty space at the front of the FIFO; no fragment moves and what could make room still can |
| PrivateCache.Cache.ExtendCommitment | core/fcache.c:2524-2543 | commits exactly the increment doubled as often as the request needs, or all that is left of the reservation |
| PrivateCache.Cache.GrantUnit | core/fcache.c:2635-2639 | a new unit heads the list; nothing in the cache changes |
| PrivateCache.Cache.TryForMoreSpace | core/fcache.c:2513-2684 | succeeds exactly when the current unit's reservation or the limit on the cache's size allows, and then there is room in a reservation; a unit is added exactly when the current one cannot hold the request and the limit allows, and otherwise exactly as much is committed as the request needs |
| PrivateCache.Cache.AddFragmentCommon | core/fcache.c:3284-3385 | the recursion ends within two rounds; the fragment goes to the first empty entry of the FIFO that can make room, else to the end of the current unit, else, unless the ratio test wants growth, to the first other entry that can, and only else does the cache grow; it is placed whenever one of these can make room, and not placed only if at the end none can; only the victims of the entry chosen leave, no fragment that remains has moved, and on failure all remain |
| PrivateCache.Cache.AddFragment | core/fcache.c:3642-3692 | the same for the slot size computed from the fragment; nothing is committed and no unit added while an empty entry, the current unit or, without a verdict for growth, another entry can make room; a unit is added when nothing else does, and fcache_extra fits in a byte |
| PrivateCache.Cache.AbortAndReplace | core/fcache.c:3369-3384 | once the trace in progress is aborted the FIFO is tried again from its front |
| PrivateCache.TwoUnits | core/fcache.c:2556-2639 | a concrete run through a second unit whose FIFO spans both |
| PrivateCache.Cache.FragmentPcLookup | core/fcache.c:1134-1194 | returns a fragment exactly when its body contains the address, over fragments and empty slots |
| Units.BytesWithout | core/fcache.c:921-939 | a cache's committed bytes are the sum over its units, so one unit accounts for exactly its own |
| Units.AllUnits.AddCache | core/fcache.c:1550-1558 | a new cache accounts for nothing |
| Units.AllUnits.FindDead | core/fcache.c:1334-1365 | the first fit on the sorted dead list is the smallest |
| Units.AllUnits.CreateUnit | core/fcache.c:1318-1453 | a fitting dead unit is reused, the smallest, else a new one is made; either way it is empty, live, of the given cache and waits for nothing, and the invariant of all lists and accounts is kept |
| Units.AllUnits.ExtendCommitment | core/fcache.c:1893-1908 | unit and cache grow by the same amount |
| Units.AllUnits.ExtendUnitEnd | core/fcache.c:2475-2490 | claiming bytes at a unit's end, or all of a rest too small, keeps the append point in its unit and all accounts |
| Units.AllUnits.InsertionPoint | core/fcache.c:1491-1509 | where a unit goes for the dead list to stay sorted |
| Units.AllUnits.FreeUnit | core/fcache.c:1455-1523 | kept or released by the heuristic and the caller's wish, exactly one list lower; fails exactly when it is to be kept and names no cache |
| Units.AllUnits.AppendUnitsToFreeList | core/fcache.c:3765-3801 | the chain joins the queue in flush order, and every unit of it but the last loses its cache |
| Units.AllUnits.FlushPending | core/fcache.c:3985-4021 | time moves on once, every waiting unit joins the queue with a flushtime later than any thread was seen at before, no other unit changes, and all waiting units keep their caches exactly when they did before and at most one unit was flushed |
| Units.AllUnits.FreePending | core/fcache.c:4023-4051 | exactly the units whose flushtime has come leave, kept or released by the heuristic, no other unit changes, and it does not fault exactly when none of those the dead list still takes has lost its cache |
| Units.DueExact | core/fcache.c:4028-4050 | on a queue sorted by flushtime stopping early misses nothing |
| Units.NotYetDue | core/fcache.c:4028-4050 | a unit flushed after the time given is not freed |
| Units.FlushThenFree | core/fcache.c:4008-4050 | flushing and then freeing on behalf of threads last seen before the flush leaves every flushed unit queued and live |
| Units.KeepsBelowLimit | core/fcache.c:1488-1490 | the heuristic keeps units up to the larger of five and a quarter of the threads |
| Units.SafeForever | core/fcache.c:1515-1517 | freeing is safe at every time and thread count exactly when every waiting unit names its cache |
| Units.ChainOfTwoFaults | core/fcache.c:3787-3796 | two units flushed together make the next free fault |
| WorkingSet.Counters.CheckRegenReplaceRatio | core/fcache.c:2380-2468 | the verdict in closed form past the early exits, the verdict of each exit, and all counters afterwards |
| WorkingSet.Counters.Subtract | core/fcache.c:2443-2456 | the subtraction loop ends with equally many of each parameter taken off and decides the comparison of the two quotients |
| WorkingSet.ReachesRatio | core/fcache.c:2440-2462 | growth is allowed only above the ratio of the parameters |
| WorkingSet.ReachesExact | core/fcache.c:2440-2462 | and exactly above it when the regenerated count is a multiple of its parameter |
| WorkingSet.NotExact | core/fcache.c:2440-2462 | rounding can hide an excess over the ratio |
| Transcode.FitLongest | core/io.c:241-304 | what is written is the longest prefix of whole characters that fits |
| Utf.PutUtf8 | core/io.c:243-293 | one character is written whole or not at all |
| Utf.ReadUtf16 | core/io.c:260-268 | a surrogate must be followed by a low one |
| Utf.Utf16ToUtf8 | core/io.c:220-313 | for every string and buffer: -1 exactly when something malformed is reached, else the longest fitting prefix, its length, its characters, and the terminator if there is room |
| Utf.ReadUtf8 | core/io.c:151-208 | every byte sequence is classified as the code does |
| Utf.PutUtf16 | core/io.c:152-200 | one character is written whole or not at all, a stray byte leaves its element as it was |
| Utf.Utf8ToUtf16 | core/io.c:128-218 | for every byte string and buffer, as the other direction |
| UtfRoundTrip.RoundTrip | core/io.c:128-313 | to UTF-8 and back succeeds exactly for well-formed UTF-16 and then gives the string back |
| UtfRoundTrip.EncodedReads | core/io.c:260-268 | an encoded string is well-formed and read character by character |
| UtfRoundTrip.EncodeBack | core/io.c:194-200 | encoding the characters of a well-formed string gives it back |
| UtfRoundTrip.BytesRead | core/io.c:151-208 | the bytes of a string are read back as its units, and refused if a character is beyond U+10FFFF |
| UtfRoundTrip.SmallBuffer | core/io.c:220-313 | with any buffer a well-formed string leaves the encoding of its longest fitting prefix, counted by *written |
| UtfRoundTrip.Utf16ToUtf8Size | core/io.c:315-320 | the size call returns exactly the bytes that would be written, and reads past the string exactly when a lone surrogate ends it |
| UtfRoundTrip.WellFormedPoints | core/io.c:260-268 | UTF-16 is well-formed exactly when it is accepted and no pair starts with a low surrogate |
| UtfRoundTrip.AcceptsExactly | core/io.c:151-208 | UTF-8 is well-formed exactly when it is accepted and has no stray byte, overlong form or encoded surrogate |
| UtfRoundTrip.SloppyTaken | core/io.c:151-212 | each of the three kinds of malformed UTF-8 is accepted |
| UtfRoundTrip.LowPairTaken | core/io.c:260-268 | a pair of two low surrogates is accepted |
| UtfOrder.Shaped8 | core/io.c:243-293 | every character has the length and the byte ranges of section 4 of RFC 3629 |
| UtfOrder.Ordered8 | core/io.c:243-293 | the bytes of characters are ordered as the characters are (section 1 of RFC 3629) |
| UtfOrder.Ordered16 | core/io.c:194-200 | pairs are a high and a low surrogate and are ordered as the characters are |
| ConfigLines.RawLines | core/config.c:338-383 | for every file and buffer the reader finds the lines of the plain split, those that do not fit cut into pieces of the buffer's size, and the text after the last newline, cut likewise, exactly under the stated condition |
| ConfigLines.Uncut | core/config.c:338-383 | where all lines fit nothing is cut |
| ConfigLines.WholeFile | core/config.c:338-383 | a file that ends in a newline and whose lines fit is read line by line |
| ConfigLines.SmallFile | core/config.c:345-362 | a file that fits the buffer loses an unterminated last line exactly when a newline precedes it |
| ConfigLines.LastLineLost | core/config.c:358-362 | a two-line file of which one line is seen |
| ConfigReader.Shift | core/config.c:351-367 | the unfinished line is moved to the front and as much read behind it as was freed |
| ConfigReader.CutLine | core/config.c:369-379 | the line without its newline and one carriage return, or all the buffer holds |
| ConfigReader.NextLine | core/config.c:338-379 | each turn of the loop yields the next line of the specification or the end |
| Config.ConfigInfo.ProcessConfigLine | core/config.c:285-316 | each variable after a line, and the fatal error exactly when the line names a variable without assigning it |
| Config.ConfigInfo.ReadConfigFile | core/config.c:319-389 | the values after a file are those after its lines in turn |
| Config.ApplyFirst | core/config.c:300-313 | without overwriting a file gives each unset variable its first assignment |
| Config.ConfigInfo.SetConfigFromEnv | core/config.c:238-259 | the environment fills exactly the variables still unset |
| Config.ConfigInfo.ConfigRead | core/config.c:480-494 | every variable has its first assignment in the application's lines, else in the default's, else its environment value; fails exactly when a line read is invalid |
| Config.SettledByLines | core/config.c:338-383 | for a file that ends in a newline and whose lines fit those assignments are the ones in its own lines |
| ConfigRoundTrip.WrittenFile | core/config.c:285-383 | settings written one per line, among comments and blank lines and with either line end, are read as the first value written for each name, and some line is invalid exactly when a variable's name begins another setting's |
| ConfigRoundTrip.ReadBack | core/config.c:285-494 | reading back two written files and an environment restores every variable, whole if its value fits, the application's before the default's before the environment's; it fails exactly when a variable's name begins the name of another setting |
| Protection.StepKeeps | core/dynamo.c:3371-3424 | every step of every thread keeps counters, pages, locks and holds in agreement |
| Protection.RunSafe | core/dynamo.c:3371-3458 | in every interleaving of paired calls no window closes under a thread, threads in the runtime can write the context-switch sections, no counter is written while its own pages are read-only or decremented at 0, and pages are writable exactly when counted between calls |
| Protection.CallTakesEffect | core/dynamo.c:3371-3458 | in every interleaving an unprotect call has opened exactly one window of its section when it returns, a protect call closed one, and entering or leaving the runtime has let the thread in or out; before that it has done so or not yet |
| Protection.CallAlone | core/dynamo.c:3371-3458 | with no lock held by others every call returns within twelve steps of the thread, an unprotect call with its section writable, an entry into the runtime with both context-switch sections writable |
| Protection.InvSafe | core/dynamo.c:3058-3184 | the context-switch sections are read-only exactly when no thread is in the runtime and no window is open |
| Protection.InitialOk | core/dynamo.c:692-716 | initialization ends in such a state |
| Protection.NoDeadlock | core/dynamo.c:3058-3184 | some thread can always go on |
| Dispatch.PlayOk | core/dispatch.c:164-245 | on every sequence of turns and arriving signals the protocol holds at every place, the events of the application lead from each other without a lost or repeated address, every handler is started at the address the application was about to execute, an ordinary system call goes on right after itself, and every signal that arrived was started once, or is pending once, or is an alarm that was given up, and only one of these |
| Dispatch.RunBoth | core/dispatch.c:376-389 | of two threads in the same state, one that goes through all turns and one that goes through those no flush aborts end in the same state |
| Dispatch.FragmentOk | core/dispatch.c:359-527 | an entrance departs exactly when no signal is pending at the check, and then for the address it was given; else the first signal in line is started at the address that was to be entered; no arriving signal is lost |
| Dispatch.CallOk | core/dispatch.c:1783-2114 | a system call departs exactly when it is not skipped and, if ordinary, no signal is pending; an aborted one is interrupted at its own instruction |
| Dispatch.CallEvents | core/dispatch.c:1783-2114 | a skipped call goes on as if executed, an ordinary one that meets a signal is interrupted at its own instruction by the first in line, any other enters the cache and comes back behind itself or where it is redirected |
| Dispatch.CallArrivals | core/dispatch.c:1783-2114 | no signal that arrives while a call is handled is lost |
| Dispatch.ReturnStarts | core/dispatch.c:1151-1157 | coming back from the cache starts a handler exactly when a flagged signal is pending or one arrives while the system call is handled |
| Dispatch.ReturnCounts | core/dispatch.c:1151-1157 | and then exactly one signal less is pending |
| Dispatch.RoundsStart | core/dispatch.c:164-245 | while no new signals arrive every entrance and return starts one, until none is pending |
| Dispatch.StepFlagged | core/dispatch.c:709-717 | a turn leaves pending signals unflagged exactly when it drops one on the way to native code |
| Dispatch.PlayFlagged | core/unix/signal.c:6026-6043 | no run without such a drop ever leaves a pending signal unflagged |
| Dispatch.SignalStranded | core/dispatch.c:709-717 | a signal just before going native stays pending, unflagged |
| Dispatch.SecondStartsFirst | core/unix/signal.c:6003-6036 | of two signals that arrive together the second is started first if its number is not higher |
| Signals.RecordedOk | core/unix/signal.c:4380-4428 | recording a signal keeps every signal accounted for: started, pending in its number's list, newest first, or an alarm given up |
| Signals.RecordedOne | core/unix/signal.c:4380-4428 | exactly one more is pending unless it takes the place of an alarm |
| Signals.ThirdAlarm | core/unix/signal.c:4385-4402 | of three pending alarms the oldest and the newest are kept |
| Signals.TakenOk | core/unix/signal.c:6003-6034 | starting one keeps every signal accounted for |
| Signals.TakenOne | core/unix/signal.c:6003-6034 | exactly one signal less is pending then |
| Signals.FirstWhich | core/unix/signal.c:6003-6034 | the signal that is started is the newest of the lowest pending number |
| Signals.OldestExactly | core/unix/signal.c:6003-6034 | it is the oldest pending signal exactly when it is alone in its number and every pending signal of a higher number arrived later |
| Dispatch.Dcontext.EnterFragment | core/dispatch.c:359-527 | refines the entrance of the step machine; one that departs enters the address it was given and remembers where the application is; a flushed one changes nothing at all |
| Dispatch.Dcontext.Attempts | core/dispatch.c:2023-2051 | the retry loop ends after at most two entrances, departed unless an ordinary call meets a signal |
| Dispatch.Dcontext.HandleSystemCall | core/dispatch.c:1783-2114 | refines the system-call step, for skipped, aborted and executed calls; one that departs enters the cache at the address it was given and notes where the application goes on; sigreturn and clone are entered whatever signals are pending or arrive |
| Dispatch.Dcontext.EnterDynamorio | core/dispatch.c:724-970 | refines the return step, with the system call handled first and the pending signal received last: the event that ended comes first in the log, and a handler was started exactly when a signal was due |
| Dispatch.Dcontext.EnterNative | core/dispatch.c:653-721 | refines the step to native code; the loop ends when the signals stop |
| Dispatch.Run | core/dispatch.c:164-245 | the methods in any order they apply play the step machine |

## Left out

- SharedCache.Cache.RemoveFragment: stated for caches divided into slots everywhere; after the corners of `SharedCorners` the code reads unwritten or freed memory, which has no outcome to state.
- PrivateCache.Cache.TryForMoreSpace: for caches whose units are not resized (a client is present or the unit is at its maximum size); resizing relocates fragments and is not part of this model.
- Dispatch.Dcontext.HandleSystemCall: Windows paths are left out.
- Utf.Utf8ToUtf16: return value and contents only; what the caller's pointer arithmetic does after -1 is not modelled.
- Signals that are blocked, ignored or have a default action; a pending signal here is one whose handler will run.
- Start padding in private caches; it is modelled for shared ones.
- Coarse-grain and persisted caches, cache resets, flushing all caches at once, unit relocation on resize.
- Private units that touch: the model has a guard page between them, as the default options do.
- Memory mapping, guard pages, writable aliases of cache memory, and the vector that finds a unit by address; a unit is found by its range.
- Locks inside the allocator; each public operation is atomic.
- Statistics, logging, profiling and timing.
- Query mode and rereading of the configuration, and the search for which files to read.
- The missing terminator of a configuration value that fills its buffer; the model keeps the characters that fit.
- Trace building, block building and the lookup tables of the dispatcher, none of which touch the protocol.
- The single-privileged-thread option, which the source calls not implemented.
