# dlog, verified core

dlog relays log lines: it reads bytes from its sources, cuts them into lines, runs a small rule
language with Lua patterns over each line, and hands what the rules write to its destinations. This
project models the four layers in which the hard decisions are taken and proves what they do:

- **Patterns** (`Pattern*.dfy`, for `patterns.c`): the recursive backtracking matcher over its mutable
  `match_state`, against an ordered list of outcomes and, behind that, an unordered match relation.
- **Memory and lines** (`Bytes`, `MemPool*`, `Arena*`, `DynStr`, `LineModel`, `LineReader`, for `mempool.c`,
  `arena.c`, `dynstr.c`, `lr.c`): a free list that lives in the bytes of the free slots, size classes
  routed by address, growable strings inside arena blocks, and a line splitter on top of them.
- **Rules** (`Rule*.dfy`, for `parse.y`, `node.c`): the parser actions that link nodes in place, the evaluator
  that saves and restores one capture pointer, and lexical scoping as the meaning both must give.
- **Tables and templates** (`HashTable`, `StrPartial`, for `hashtable.c`, `strpartial.c`).

`dafny verify dfyconfig.toml` checks everything. Files that update state in the source are classes and
methods here (`MatchState`, `Pool`, `Arena`, `LineReader`, `Parser`, `Exec`, `Table`); what they compute is tied to
functions on values, and the theorems are about those functions.

## Main results

1. Without an error, `match` returns exactly the first outcome of the ordered backtracking semantics,
   with its captures, and NULL exactly when there is none; a failing call leaves captures, level and depth
   as it found them; calls never nest deeper than `MAXCCALLS + 1 + 2 * maxcaptures`, errors included.
   A price is defined beside the outcomes: items refused, calls nested, flaws run into. Without an error exactly
   that price is paid, and an error about a budget is recorded only if the price, summed over all starts, is
   above it; every other error comes from a flaw of the pattern text.
2. The ordered list holds exactly the outcomes of the match relation, and the relation is exactly walking through the
   subject from item to item, captures being what lies between the positions of their brackets; `*` and `+` prefer the
   longest run that works, `-` the shortest; patterns compose; the search is leftmost and complete, anchored by `^`;
   reported captures are laminar. Pattern texts and item sequences are read and written back without loss, and
   sets and classes accept what their entries say.
3. The plain-search path agrees with the general search on a subject if and only if the pattern has
   no `)`, which `SPECIALS` leaves out, or does not occur in it.
4. Over every run, a lazily threaded pool answers as a fully threaded stack; over every run of the arena, live blocks
   never overlap, go back where they came from, and keep what was stored in them, a slot is free exactly when nobody
   holds it, and the heap is asked exactly when every slot that fits is held; `arena_realloc` keeps the bytes that fit.
5. Whatever the interleaving of reads and line requests, and however long the stream, the lines are exactly those of
   a two-field step model, in which no byte is lost, added or moved. Reading is
   independent of how the stream was cut if and only if no cut falls between the last character of a line and its
   newline.
6. Every statement list of the grammar, parsed into linked nodes and evaluated with the saved and restored
   pointer over any number of lines, has the effect of a structured semantics. That is lexical scoping whenever no
   capture is read between a `matchall` and the end of the enclosing `match`; what a `matchall` does to the
   captures is stated as an if-and-only-if. What each kind of part, test and statement writes is stated apart from the
   evaluator, in terms of the line, the variables and the matcher's reply.
7. The hash table is a finite map over every run, and a visit shows each binding once. The value `ht_remove` frees
   stays bound if and only if the key removed was not in the bucket head.
8. Printing a split template gives it back if and only if its capture numbers are canonical, splitting undoes printing, and
   a template is rejected if and only if it has four characters or more and a placeholder that is unclosed or not accepted.

## Where code and documentation differ

The model follows the code.

- `break` ends only its own statement list (`node.c:197-210`); `README.md:161` says it leaves the rule.
- Only the first `rule` block is evaluated: `rule_cmd` does not close its block (`parse.y:371-374`), so a later
  block is neither the root (`parse.y:487-488`) nor anybody's child.
- A second `else` after the same `match` runs when the match body ran (`node.c:281-285`), see `SecondElse`.
- `matchall` shares the clean-up of `match` (`node.c:47`) without saving a pointer, so it resets the captures to NULL.
- `from` compares the common prefix of the two names (`dynstr.c:126-130`), not the names.
- `SPECIALS` has no `)` (`patterns.c:47`), so a pattern such as `a)` is searched for as plain text.
- A newline at the scan position is stepped over (`lr.c:77-80`), so a line cut just before its newline is
  joined to the next one.
- `dynstr_remove_range` with `idx2 == 0` or an empty range stores a length one short of its terminator
  (`dynstr.c:221-225`); the reader never calls it so.
- `ht_remove`, for a key that is not in the bucket head, frees the value of the head and reads the element it has
  just freed (`hashtable.c:205-216`). The model keeps the map contents the code computes when that memory is still readable.

## Model

| member | source | states |
|---|---|---|
| `PatternSyntax.ClassEnd` | patterns.c:95-123 | the offset after a single-character item lies beyond its start and within the pattern, and the text in between is one whole item; none for a malformed item |
| `PatternSyntax.SetEnd` | patterns.c:104-119 | a set ends at a `]` that is not the first character of the set |
| `PatternSyntax.Parse` | patterns.c:332-479 | the item sequence written at a position of the pattern is well-formed: every set and item text has the characters the matcher will read |
| `PatternSets.ClassAccepts` | patterns.c:125-164 | `%k` accepts what the class of its letter accepts, the opposite for the other case, and itself when it is no class letter |
| `PatternSets.SetAccepts` | patterns.c:166-188 | a set written with any list of characters, ranges and classes accepts exactly what one of these entries accepts |
| `PatternSets.NegatedSetAccepts` | patterns.c:170-187 | with a leading `^`, exactly what none of them accepts |
| `PatternSets.CharacterSet` | patterns.c:166-188 | `[abc]` accepts its characters and `[^abc]` all others |
| `PatternSets.RangeSet` | patterns.c:180-183 | `[a-b]` accepts the characters from a to b |
| `PatternSets.ClassSet` | patterns.c:176-179 | `[%k]` accepts what `%k` accepts |
| `PatternSets.ItemAccepts` | patterns.c:190-210 | a dot takes any character there is, an escape its class, any other character itself, and nothing matches past the end |
| `PatternSets.SetItemAccepts` | patterns.c:204-205 | a set item takes a character its entries accept, or none of them accepts |
| `PatternSets.SetEndsAtBracket` | patterns.c:107-119 | the scan for the end of a set stops at the bracket behind its entries, escaped brackets included |
| `PatternSets.SetIsOneItem` | patterns.c:104-119 | a set, negated or not, is one item, from its bracket to the one that closes it |
| `PatternText.TextOfItems` | patterns.c:332-479 | every pattern text without a malformed item is what its items are written as: nothing is dropped, added or read as something else |
| `PatternText.ItemsOfText` | patterns.c:332-479 | every item sequence that is written without ambiguity is read back from its text |
| `PatternText.ParseShift` | patterns.c:332-479 | what a text means as a pattern does not depend on what stands before it |
| `PatternText.LoneEscape` | patterns.c:99-103 | a pattern that ends with `%` is malformed |
| `PatternText.UnclosedSet` | patterns.c:109-113 | so is a set without its bracket |
| `PatternText.BalanceAlone` | patterns.c:215-219 | so is `%b` without two characters |
| `PatternText.FrontierAlone` | patterns.c:372-376 | so is `%f` without a set |
| `PatternSemantics.CaptureToClose` | patterns.c:85-93 | the last unfinished capture: it is unfinished and no later one is; -1 when none is |
| `PatternFacts.BalanceScanCorrect` | patterns.c:223-232 | the left-to-right counter stops exactly where nesting first returns to zero |
| `PatternFacts.BalanceEndCorrect` | patterns.c:212-237 | `%bxy` ends at j if and only if the stretch up to j is balanced for the first time there |
| `PatternFacts.OutcomesEnumerate` | patterns.c:320-483 | the ordered list of outcomes contains an outcome if and only if the unordered match relation allows it |
| `PatternFacts.LongestBacktracks` | patterns.c:247-253 | giving back one repetition at a time: when no longer run leads anywhere, the current count decides and its first outcome is the overall first |
| `PatternFacts.LongestCosts` | patterns.c:247-253 | what the longer runs cost is part of the whole price, and all of it as soon as one of them works |
| `PatternFacts.GreedyPrefersLongest` | patterns.c:239-255 | a greedy item settles on the longest run after which the rest of the pattern matches |
| `PatternFacts.LazyPrefersShortest` | patterns.c:257-269 | a lazy item settles on the shortest run after which the rest of the pattern matches |
| `PatternFacts.CloseKeepsLaminar` | patterns.c:290-298 | closing the most recently opened capture keeps all captures nested or disjoint |
| `PatternFacts.MatchesLaminar` | patterns.c:271-303 | every match ends within the subject, at or after its start, and its captures lie inside it and are pairwise nested or disjoint |
| `PatternFacts.UnfinishedMeansFlawed` | patterns.c:535-536 | a match that ends with an open capture has a pattern that leaves one open |
| `PatternFacts.PriceBounds` | patterns.c:320-483 | on every subject, no more calls nest than the pattern has items, and a flaw run into is one of the pattern text |
| `PatternFacts.LengthOfText` | patterns.c:332-479 | a pattern has at most as many items as characters |
| `PatternWalk.MatchesIsWalk` | patterns.c:320-483 | the match relation allows exactly the outcomes of walks: one position between any two items, each item reading what lies between its two positions, a back-reference the same text as its bracket, and every capture lying between the positions at which its brackets were passed |
| `PatternWalk.CapturesStep` | patterns.c:281-298 | the capture table changes, item by item, as the positions of the brackets prescribe |
| `PatternWalk.RepeatIsBackRef` | patterns.c:305-318 | a back-reference ends at q if and only if the text up to q is the text its bracket captured |
| `PatternWalk.BracketsPair` | patterns.c:85-93 | a closed bracket encloses a balanced stretch of the pattern, and behind an unclosed one no closing bracket lacks its opening one |
| `PatternWalk.WalkReports` | patterns.c:522-559 | the offsets reported for a match are the positions at which its brackets were passed, or the ends of the walk when there are none |
| `PatternWalk.SearchedStretches` | patterns.c:625-631 | what any search reports is where the brackets were passed on a walk from the start found |
| `PatternWalk.FlawedIff` | patterns.c:69-93 | a pattern text is flawed if and only if an item is malformed, a bracket is not closed or closes nothing, there are too many brackets, or a back-reference names no finished one |
| `PatternCompose.OutcomesAppend` | patterns.c:320-483 | one pattern followed by another: the second continues from every outcome of the first, best first |
| `PatternCompose.OutcomesIgnore` | patterns.c:271-288 | an open bracket does not change what a pattern without brackets matches |
| `PatternCompose.GroupCaptures` | patterns.c:271-303 | `(p)` has the outcomes of `p`, in the same order, each with one more capture: exactly what `p` matched |
| `PatternCompose.GroupedSearch` | patterns.c:625-638 | a search for `(p)` finds what a search for `p` finds and reports the same stretch |
| `PatternCompose.GroupedPattern` | patterns.c:580-639 | the same for the text of `(p)`, parsed and searched for as a whole |
| `PatternMatcher.MatchState.constructor` | patterns.c:619-624 | budgets and limits at the start of a search |
| `PatternMatcher.MatchState.MatchFailure` | patterns.c:69-74 | the first error sticks |
| `PatternMatcher.MatchState.Match` | patterns.c:320-483 | without error the answer and the captures are the first outcome, or none, and exactly the price of that answer was paid; NULL restores level and captures; depth is restored; an error about a budget is recorded only if the price is above what was left of it, any other only if the search runs into a flaw; nesting stays within its bound |
| `PatternMatcher.MatchState.Step` | patterns.c:334-479 | one pass through the switch either gives the final answer or jumps to a strictly later pattern position with the same first outcome and the rest of the price still to pay |
| `PatternMatcher.MatchState.StepOpen` | patterns.c:336-343 | both forms of an opening parenthesis |
| `PatternMatcher.MatchState.StepClose` | patterns.c:344-347 | a closing parenthesis |
| `PatternMatcher.MatchState.StepEnd` | patterns.c:348-356 | a final `$` holds exactly at the end of the subject |
| `PatternMatcher.MatchState.StartCapture` | patterns.c:271-288 | the first outcome with the capture opened, and its price; undone on failure; the only new error is a full table |
| `PatternMatcher.MatchState.FindCaptureToClose` | patterns.c:85-93 | finds the capture to close, or records an invalid pattern capture |
| `PatternMatcher.MatchState.EndCapture` | patterns.c:290-303 | the first outcome with the last open capture closed here; an error when none is open |
| `PatternMatcher.MatchState.CloseAndMatch` | patterns.c:297-302 | the capture is closed here, so that it holds what lies between the two brackets, for the rest of the match, and reopened if that fails |
| `PatternMatcher.MatchState.StepBalance` | patterns.c:212-237 | jumps behind the balanced stretch, fails when there is none, errs when the two arguments are missing |
| `PatternMatcher.MatchState.StepFrontier` | patterns.c:369-393 | jumps on exactly at a transition into the set, the text borders read as NUL |
| `PatternMatcher.MatchState.StepBackRef` | patterns.c:305-318 | jumps behind a repetition of the captured text; errs for an index that names no finished capture |
| `PatternMatcher.MatchState.StepSingle` | patterns.c:416-478 | the `dflt` branch: one refused item costs exactly one of the repetition budget, which errs when none is left; acceptance of nothing; the suffixes |
| `PatternMatcher.MatchState.StepMatchedOnce` | patterns.c:440-477 | the suffix switch after one accepted character |
| `PatternMatcher.MatchState.StepOptional` | patterns.c:444-457 | with the character first, then without it |
| `PatternMatcher.MatchState.Repeat` | patterns.c:458-469 | `+` and `*` give the longest-first answer, `-` the shortest-first answer |
| `PatternMatcher.MatchState.CountRun` | patterns.c:242-245 | the maximal run of the item |
| `PatternMatcher.MatchState.MaxExpand` | patterns.c:239-255 | the first outcome of trying runs longest first |
| `PatternMatcher.MatchState.MatchAfterRun` | patterns.c:247-253 | one try: its answer is the overall first, or no run of this length or longer works |
| `PatternMatcher.MatchState.MinExpand` | patterns.c:257-269 | the first outcome of trying runs shortest first |
| `PatternSearch.LeftmostIsLeast` | patterns.c:625-638 | the search finds the least start at which the relation allows any match (only the first start when anchored), with the best outcome there; nothing found means no start matches |
| `PatternSearch.SearchBounds` | patterns.c:619-636 | over all starts, a pattern of n characters nests at most n + 1 calls, and only a pattern with a flaw in its text runs into one |
| `PatternSearch.AnchoredSearch` | patterns.c:614-618 | a pattern written with a leading `^` is found only at the first start, exactly when what follows the `^` matches there, with its first outcome |
| `PatternSearch.UnanchoredSearch` | patterns.c:625-638 | any other pattern is read as a whole and found at the least start at which it matches |
| `PatternSearch.SpecialsAre` | patterns.c:47-47 | the characters that send a pattern to the general search are those of SPECIALS |
| `PatternSearch.SpansOfLaminar` | patterns.c:522-542 | offsets reported for laminar captures are ordered, inside the match, and nested or disjoint |
| `PatternSearch.GroupsAreLaminar` | patterns.c:544-559 | what any successful search reports is in bounds, inside the overall match, and pairwise nested or disjoint |
| `PatternSearch.LMemFind` | patterns.c:485-520 | the first occurrence of the needle, or none when there is none; the empty needle at once |
| `PatternSearch.LiteralOutcomes` | patterns.c:334-479 | a pattern of ordinary characters has exactly one outcome where its text occurs and none elsewhere |
| `PatternSearch.StrayCloseHasNoOutcome` | patterns.c:344-347 | an otherwise plain pattern with a `)` has no outcome anywhere |
| `PatternSearch.LiteralSearch` | patterns.c:625-638 | the general search for a literal pattern reports the first occurrence and its end |
| `PatternSearch.PlainPathAgreesIff` | patterns.c:597-612 | for a pattern without SPECIALS, the fast path reports what the general search would if and only if the pattern has no `)` or does not occur in the subject |
| `PatternSearch.PlainPathAgreesEverywhereIff` | patterns.c:597-612 | it does so on every subject if and only if the pattern has no `)` |
| `PatternSearch.LiteralSearchPrice` | patterns.c:625-636 | the general search for a literal costs at most one refused item for each start, so a subject within the repetition budget never errs |
| `PatternSearch.FastPathAcceptsStrayClose` | patterns.c:47 | `a)` is found in `a)` although the general search finds nothing |
| `PatternFind.PushOneCapture` | patterns.c:522-542 | stores the offsets of one capture, a position capture as an empty stretch, the whole match when there are none; fails for an open capture |
| `PatternFind.PushCaptures` | patterns.c:544-559 | stores all groups in order after the first entry and counts them; an open capture, and nothing else, is an error |
| `PatternFind.StrFindAux` | patterns.c:580-639 | error-free: the returned count and table describe the first occurrence (plain) or the leftmost match, with laminar captures inside it, or zero when there is none, and the price of the search was within both budgets and free of flaws; an error: the budget named is below the price, or a flaw is run into, or the match found leaves a capture open; start past the end is the only error of a plain search |
| `PatternFind.SearchGeneral` | patterns.c:614-638 | the loop over starts, with depth and repetition budgets shared by all starts, returns the leftmost match or none, and errs exactly when the price summed over the starts tried is above a budget or runs into a flaw, or the match leaves a capture open |
| `PatternFind.MatchFrom` | patterns.c:626-635 | one start: its first outcome with its offsets and its exact price, none if and only if it has no outcome, and the state ready for the next start |
| `PatternFind.HitIsWithin` | patterns.c:628-631 | a hit ends within the subject, and one with an open capture comes from a flawed pattern |
| `PatternFind.ErrorsFromText` | patterns.c:625-638 | except for the budgets, errors come from a flaw visible in the pattern text, and a pattern shorter than MAXCCALLS is never too complex |
| `PatternFind.StrMatch` | patterns.c:662-703 | the subject followed by the texts of the groups of the located match: the texts between the positions at which the brackets were passed on a walk, the pattern itself for a plain pattern; failure without error exactly when nothing is located; an error exactly when the search errs |
| `Bytes.DecodeEncode` | mempool.c:8-11 | a 32-bit int stored in four bytes reads back |
| `MemPool.AlignTo` | mempool.c:6-6 | the least multiple of 16 not below its argument |
| `MemPool.Pool.SlotAtIsProduct` | mempool.c:22-26 | the address of slot i is base + i * slot size |
| `MemPool.Pool.IndexOfSlot` | mempool.c:28-33 | dividing the offset of slot k by the slot size gives k back |
| `MemPool.Pool.Idx` | mempool.c:28-33 | a slot's address gives its index |
| `MemPool.Pool.SlotsApart` | mempool.c:22-26 | different slots do not overlap |
| `MemPool.Pool.constructor` | mempool.c:75-94 | two headers thread the whole pool: every slot is free, in order, and nothing outside the slots is touched |
| `MemPool.Pool.Alloc` | mempool.c:103-125 | the head of the free list is handed out and the rest remains; NULL exactly when nothing is free; live slots and everything outside keep their bytes |
| `MemPool.Pool.Free` | mempool.c:127-135 | the slot becomes the head of the free list; all other slots keep their bytes |
| `MemPool.Pool.ClientWrite` | mempool.c:103-125 | any write into a live slot, over its old header too, leaves the free list and all other slots intact |
| `MemPoolRuns.Apply` | mempool.c:103-135 | one operation on the pool is one step of the stack |
| `MemPoolRuns.RunPool` | mempool.c:103-135 | over every run the pool gives the addresses the fully threaded stack gives, and ends with the stack's free list |
| `MemPoolRuns.StackRunIsSafe` | mempool.c:103-135 | in every run no held slot is handed out again and an allocation fails exactly when all slots are held |
| `MemPoolRuns.FreshPoolIsSafe` | mempool.c:75-94 | the same from a newly created pool |
| `MemPoolRuns.RunFreshPool` | mempool.c:75-135 | a new pool run through any legal script answers addresses of slots that nobody holds, and NULL exactly when all are held |
| `Arena.PlacePool` | arena.c:44-50 | a pool placed behind the others, in the size asked for, leaves them valid |
| `Arena.PlaceNext` | arena.c:44-50 | one round: the pools so far stay as they are and the next one lies behind them with all slots free |
| `Arena.PlacePools` | arena.c:44-50 | all pools lie one after the other inside the buffer, each with all its slots free |
| `Arena.Arena.constructor` | arena.c:23-54 | a valid arena with no live block and the slot sizes asked for |
| `Arena.Arena.SlotRoutes` | mempool.c:53-58 | a slot's address lies in the range of pool j if and only if it is a slot of pool j |
| `Arena.Arena.LiveBlocksDisjoint` | arena.c:67-94 | any two live blocks, from pools or the heap, share no byte |
| `Arena.Arena.PoolFromSize` | arena.c:154-164 | the first pool whose slots are large enough; -1 when none is |
| `Arena.Arena.PoolFromPtr` | arena.c:166-176 | the pool a live block came from; -1 exactly for heap blocks |
| `Arena.Arena.StaysCoherent` | arena.c:7-18 | an operation confined to one pool that keeps its live slots keeps every live block where it was, with its bytes |
| `Arena.Arena.TakeFrom` | arena.c:73-81 | a slot of that pool becomes a live block at an address that was not live; none exactly when the pool has no free slot |
| `Arena.Arena.TakeLeavesNoGap` | arena.c:73-81 | after an allocation every slot that is not free is the home of a live block |
| `Arena.Arena.GiveLeavesNoGap` | arena.c:143-152 | after a release too |
| `Arena.Arena.TakeFirstFit` | arena.c:71-84 | the loop takes a slot of the first pool that fits and has one, or finds that none does |
| `Arena.Arena.GiveBack` | arena.c:149-151 | the block leaves the live set and its slot heads its own pool's free list |
| `Arena.Arena.Alloc` | arena.c:67-94 | a new block of at least the size asked for, from the first class that fits and has a slot; the heap only when no class can serve; NULL only when the heap is off or out of memory; all other blocks unchanged |
| `Arena.Arena.Free` | arena.c:143-152 | exactly this block stops being live, and a pool block heads its pool's free list again |
| `Arena.Arena.Realloc` | arena.c:96-141 | capacity at least the new length, the first bytes up to both capacities kept, the old block gone exactly when it moved and its slot then first on its pool's free list, all others unchanged; on failure nothing changed |
| `Arena.Arena.MoveBlock` | arena.c:117-137 | allocate, copy, free: the block is replaced by one with the same bytes as far as both reach, and its slot is free again |
| `Arena.Arena.ReallocHeap` | arena.c:101-105 | a heap block stays on the heap, moved or in place |
| `Arena.Arena.CopyAcross` | arena.c:122-133 | the three copies all carry over exactly the bytes both blocks have room for |
| `Arena.Arena.CopySize` | arena.c:122-133 | the three cases all come to the smaller of the two capacities |
| `ArenaRuns.Apply` | arena.c:67-152 | one client operation changes the contents of the blocks held only as it should, fails only where the heap refuses, keeps the client's blocks exactly the live ones, and is served from a pool if and only if some slot that is large enough is not held |
| `ArenaRuns.FittingHeldIff` | arena.c:67-94 | no pool can serve a request if and only if every slot that is large enough is held |
| `ArenaRuns.HoldingAccounts` | arena.c:67-152 | nothing leaks: a slot is free exactly when nobody holds it |
| `ArenaRuns.RunArena` | arena.c:67-152 | over every run of requests, regrowings, releases and stores each block keeps what was stored in it, a regrown block what fits; the blocks held are pairwise disjoint and all that is live, and a slot is free if and only if it is not held |
| `DynStr.Reserve` | dynstr.c:47-56 | a new empty string whose capacity, taken from the arena, exceeds the request |
| `DynStr.Resize` | dynstr.c:37-45 | the same text with a capacity above the length asked for, in place or in a new block; the recorded capacity is that of the block less the header |
| `DynStr.StrNCpyExact` | dynstr.c:71-80 | `strncpy` copies NUL-free text as it is, and text ending in a non-NUL only if it is NUL-free |
| `DynStr.StrNCpyAt` | dynstr.c:71-80 | character by character: the text before the first NUL, zeros from there on |
| `DynStr.Cnew` | dynstr.c:71-80 | a new string holding what `strncpy` leaves of the range |
| `DynStr.Cat` | dynstr.c:191-200 | the destination becomes the concatenation; every other block is unchanged; a string may be appended to itself as long as it need not grow |
| `DynStr.Insert` | dynstr.c:149-164 | the needle stands at the index, or at the end when the index is past it; the temporary is not live afterwards, so its slot is free again |
| `DynStr.InsertedIs` | dynstr.c:149-164 | NUL-free text with the needle at the index, or at the end when the index is past it |
| `DynStr.ReplaceTail` | dynstr.c:157-160 | the text up to the index followed by the two strings appended |
| `DynStr.ShortcutLeavesStringIff` | dynstr.c:221-225 | the shortcut leaves a well-formed string if and only if the character before the index is NUL |
| `DynStr.WithoutRangeAt` | dynstr.c:227-229 | characters before the range stay, those behind it move up by its length |
| `DynStr.RemoveRange` | dynstr.c:211-231 | removes exactly the range unless the shortcut is taken, and then stores exactly what the shortcut stores |
| `DynStr.Fill` | dynstr.c:252-257 | bytes stored behind the text become part of it |
| `DynStr.Slack` | dynstr.c:272-276 | capacity less length and terminator, never negative |
| `LineModel.FeedConserves` | lr.c:68-95 | lines followed by the pending text are the bytes fed; every line ends in a newline that follows another character |
| `LineModel.ChunkedConserves` | lr.c:62-95 | the same for any sequence of chunks |
| `LineModel.ChunkedLines` | lr.c:84-94 | every line read from any chunks has that shape |
| `LineModel.CutsMatterIff` | lr.c:68-95 | from any state, reading in chunks equals reading at once if and only if no cut separates a line from its newline |
| `LineModel.ChunkIndependentIff` | lr.c:68-95 | the same from an empty buffer |
| `LineModel.NoLeadingNewlineIsClean` | lr.c:77-80 | it holds in particular when no chunk after the first begins with a newline |
| `LineModel.CutBeforeNewlineLosesLine` | lr.c:77-80 | `a` and a newline in two chunks give no line, in one chunk a line |
| `LineReader.LineReader.constructor` | lr.c:13-25 | an empty buffer in a new string, all other blocks unchanged |
| `LineReader.LineReader.GetBuffer` | lr.c:51-60 | afterwards the hinted number of bytes and a terminator fit behind the text |
| `LineReader.LineReader.BufferFill` | lr.c:62-66 | the bytes read become part of the text |
| `LineReader.LineReader.Scan` | lr.c:73-82 | the first newline that follows another character after the scan position, or none |
| `LineReader.LineEndIsFirst` | lr.c:73-82 | the first line end is unique: the one the step model computes |
| `LineReader.LineReader.GetNextLine` | lr.c:68-95 | the buffer up to that newline as a new string, the rest left in the buffer and scanned afresh; without one nothing changes but the scan position |
| `LineReader.ScanIsFeed` | lr.c:73-82 | scanning for the line end splits off what feeding byte by byte does |
| `LineReader.LineReader.TakeLine` | lr.c:68-95 | one line of the byte-level model; line and buffer are the old buffer |
| `LineReader.LineReader.ReadChunk` | lr.c:51-95 | one chunk gives exactly the lines and pending text of the byte-level model, and leaves all other blocks alone |
| `LineReader.LineReader.ReadAll` | lr.c:51-95 | any sequence of chunks does, of whatever total length, as long as each fits the buffer when it arrives |
| `LineReader.RunEvents` | lr.c:51-95 | under any interleaving of arrivals and requests, of whatever total length, the lines, the text left and the scan position are exactly those of the step model |
| `LineReader.RunConserves` | lr.c:51-95 | in every run of that model the lines followed by the text left are the bytes that arrived, and every line ends in a newline after another character |
| `RuleModel.CapturesKeptOrDropped` | node.c:190-205 | after any node and its siblings the capture pointer is what it was on entry, or NULL |
| `RuleEval.Exec.ResolveParts` | node.c:101-177 | the loop appends the parts in order, and the first part that fails decides |
| `RuleEval.Exec.RunHandler` | node.c:213-312 | every handler has the effect of its node type on variables, writes and captures, and saves the pointer exactly for a match |
| `RuleEval.Exec.MatchHandler` | node.c:226-266 | the captures of a match replace the current ones only when it matched; the old pointer is saved in the node |
| `RuleEval.EvalNode` | node.c:179-211 | on linked nodes the evaluator computes what the tree evaluation on values does, and leaves the pointer as it was or NULL |
| `RuleEval.EvalChildren` | node.c:190-196 | children, then the clean-up that restores the saved pointer |
| `RuleParser.AddChild` | parse.y:698-713 | the node with its subtree becomes the last child |
| `RuleParser.LastSibling` | parse.y:707-709 | the walk ends at the last sibling |
| `RuleParser.Parser.OpenBlock` | parse.y:480-489 | a new empty block under the current one, the root if it is the first |
| `RuleParser.Parser.AddNode` | parse.y:125-128 | a leaf appended to the current block |
| `RuleParser.Parser.AddNodeWithParent` | parse.y:130-135 | the finished block becomes the child of a new last statement of the enclosing block, which is current again |
| `RuleParser.Parser.ParseBlock` | parse.y:480-490 | after a block, its node holds exactly the tree of its statements |
| `RuleParser.Parser.ParseStatements` | parse.y:376-384 | statement after statement, the block holds the tree of the list so far |
| `RuleParser.Parser.ParseStatement` | parse.y:386-478 | every kind of statement adds exactly its own tree |
| `RuleScoping.TreeRunsBody` | node.c:179-211 | for every statement list of the grammar, from any result, captures and variables, the evaluator on its tree does what the structured semantics with the code's own captures does: exactly one of a test's body and the else after it runs, break or an error ends only its own list, a match restores its captures, a matchall leaves none |
| `RuleScoping.TreeRunsRule` | node.c:374-400 | the same for a whole rule |
| `RuleScoping.CodeScopes` | node.c:190-205 | where no capture is read between a matchall and the end of the enclosing match, that semantics has the effect of lexical scoping, and captures are dropped by a matchall only |
| `RuleScoping.RuleRefines` | node.c:374-400 | such a rule, run by the evaluator, has the effect of lexical scoping and leaves the pointer NULL |
| `RuleScoping.ScopedIsKept` | node.c:321-326 | a list with no matchall inside a match is of this kind and drops no captures |
| `RuleScoping.TreeRefinesBody` | node.c:179-211 | for such a list the capture pointer afterwards is what it was on entry, every match body sees its own captures, and nested matches shadow and restore |
| `RuleScoping.MatchAllAtTheEndIsKept` | node.c:321-326 | a matchall as the last statement of a match scopes lexically although it stands inside a match |
| `RuleScoping.FlattenRuns` | node.c:281-285 | of a test's body and the else that follows exactly one runs, unless the test errs; break or an error ends only its own list |
| `RuleScoping.FlattenUnflatten` | parse.y:380-384 | every statement list whose elses directly follow tests is such a structured rule |
| `RuleScoping.FlattenIsStructured` | parse.y:380-384 | and every structured rule is such a list |
| `RuleScoping.SecondElse` | node.c:281-285 | a second else runs exactly when the test's body did |
| `RuleScoping.MatchAllKeepsCapturesIff` | node.c:321-326 | a matchall that completes leaves the captures alone if and only if there were none or its source differs |
| `RuleScoping.SourceTestInsideMatchCrashes` | node.c:134-138 | a matchall inside a match makes a later `%{0}` read through NULL, for every match that succeeds |
| `RuleScoping.SafeNeverCrashes` | node.c:134-138 | rules that refer to captures inside a match only never read a missing capture table |
| `RuleProgram.ParseRules` | parse.y:371-374 | after any number of rule blocks the root holds the first block's tree |
| `RuleProgram.LinesRefine` | node.c:374-400 | over any number of lines, on the same variables, that is lexical scoping when no capture is read after a matchall in a match |
| `RuleProgram.LinesRun` | node.c:374-400 | over any number of lines, tree evaluation of any rule is its structured semantics |
| `RuleProgram.EvalParsed` | node.c:374-400 | parser and evaluator together compute the tree evaluation of the first block, which is its structured semantics, whatever the statements |
| `RuleProgram.EvalRules` | node.c:374-400 | parser and evaluator together give every configuration its structured semantics over any number of lines; this is lexical scoping when no capture is read between a matchall and the end of the enclosing match, and then without a crash when captures are used inside matches only |
| `RuleLaws.TemplatesAppend` | node.c:101-177 | a template in two pieces is the concatenation of the two texts, unless one of them fails |
| `RuleLaws.WritesPart` | node.c:109-168 | what a write of each kind of part appends: the text, the line, the source, the clock strings, the environment, the variable or nothing; a capture outside a match reads through NULL |
| `RuleLaws.WritesCapture` | node.c:134-138 | inside a match, `%{n}` writes the n-th string of the match, an empty text beyond the last; a negative number reads out of bounds |
| `RuleLaws.SameSourceIff` | dynstr.c:126-130 | a source is admitted exactly when the two names do not differ where both have a character |
| `RuleLaws.MatchDecides` | node.c:240-256 | a match runs its body, does not, or errs as the matcher replies, and never runs it for a source that is not admitted |
| `RuleLaws.FilterDecides` | node.c:241-256 | a match with `from` is the match without it for admitted sources and no match for the others |
| `RuleLaws.SourceDecides` | node.c:268-279 | `matchall from` runs its body for admitted sources and for no others |
| `RuleLaws.AssignedIsRead` | node.c:213-224 | an assigned text is what the variable reads as from then on |
| `RuleLaws.UnresolvedAssignmentEnds` | node.c:186-188 | an assignment that does not resolve ends its list and leaves the variable |
| `RuleLaws.WritesInOrder` | node.c:203-205 | lines are written in the order of the statements |
| `RuleLaws.BreakEnds` | node.c:308-312 | what stands behind a break is not run |
| `RuleLaws.ReplyChooses` | node.c:281-285 | of a match and its else the reply of the matcher chooses the one, the other, or neither |
| `RuleLaws.NestedMatchRestores` | node.c:190-196 | a match inside a match shadows its captures, and they are back behind it |
| `HashTable.FindInChain` | hashtable.c:174-186 | the value bound in the bucket, or none |
| `HashTable.UpsertChain` | hashtable.c:153-170 | the binding is replaced where it is, or appended at the end of the chain |
| `HashTable.RemoveHead` | hashtable.c:194-203 | the next element is pulled into the head; an emptied head has an empty chain |
| `HashTable.Unlink` | hashtable.c:204-217 | the element with the key is unlinked, the others keep their order, and the value freed is that of the bucket head |
| `HashTable.RemovedFrees` | hashtable.c:194-213 | a value is freed exactly when the key was bound, and it is that of the first binding of the bucket |
| `HashTable.Table.constructor` | hashtable.c:110-119 | the empty map |
| `HashTable.Table.Lookup` | hashtable.c:174-186 | the map's answer |
| `HashTable.Table.Upsert` | hashtable.c:144-172 | the map with the key bound to the value; the value freed is the one replaced |
| `HashTable.Table.Remove` | hashtable.c:188-219 | the map without the key; the value freed is always that of the bucket head, so it is still bound afterwards if and only if the key removed was not in the head |
| `HashTable.Table.Visit` | hashtable.c:221-238 | all bindings bucket by bucket, or those up to and including the first at which the visitor stops |
| `HashTable.Table.BindingsOnce` | hashtable.c:221-238 | that sequence holds each binding of the map exactly once |
| `HashTable.RunTable` | hashtable.c:144-219 | over every run of upserts, removals and lookups the table answers as a finite map |
| `StrPartial.NumberRoundTripIff` | strpartial.c:26-33 | a capture number prints as written if and only if it has no leading zeros and fits an int |
| `StrPartial.NumberIsRead` | strpartial.c:26-30 | digits are read as the decimal number they write |
| `StrPartial.ToIntIs` | strpartial.c:27-27 | a number is kept modulo 2^32 as an int, and one too large for a long becomes -1 |
| `StrPartial.NameRoundTripIff` | strpartial.c:17-62 | an accepted placeholder prints as written if and only if it is not a non-canonical number |
| `StrPartial.FindOpen` | strpartial.c:99-99 | the first `%{`, or none |
| `StrPartial.FindClose` | strpartial.c:101-101 | the first `}`, or none |
| `StrPartial.StrPartialSplit` | strpartial.c:75-139 | the parts, or a syntax error, of the recursive reading of the template |
| `StrPartial.RestRoundTripIff` | strpartial.c:95-137 | printing the parts gives the string back if and only if every numeric placeholder is canonical |
| `StrPartial.SplitRoundTripIff` | strpartial.c:75-139 | the same for the whole function, where strings under four characters always come back |
| `StrPartial.SplitReadsBack` | strpartial.c:75-139 | splitting the printed form of any non-empty list of readable parts, no two texts in a row, gives the parts back |
| `StrPartial.CaptureReadableIff` | strpartial.c:26-33 | a capture part reads back if and only if its number is a non-negative int |
| `StrPartial.LettersReadableIff` | strpartial.c:34-50 | each of the five letters stands for its part if and only if it counts as a letter |
| `StrPartial.EnvReadableIff` | strpartial.c:54-56 | an environment part reads back if and only if its name has no brace |
| `StrPartial.VarReadableIff` | strpartial.c:57-60 | a variable part reads back if and only if its name is not empty, has no brace, and is no number, single letter or `env:` name |
| `StrPartial.FormatValidIff` | strpartial.c:17-62 | a placeholder is accepted if and only if it is a number, one of the five letters, or any other text that starts with no digit and is no single letter |
| `StrPartial.SplitRejectsIff` | strpartial.c:84-137 | a template is a syntax error if and only if it has four characters or more and a placeholder that is unclosed or not accepted |
| `StrPartial.LetterTemplates` | strpartial.c:35-50 | `%{m}`, `%{s}`, `%{d}`, `%{t}` and `%{T}` are the line, the source and the three clock parts |
| `StrPartial.LeadingZerosAreLost` | strpartial.c:27-30 | `%{007}` is capture 7 and does not print back |

## Assumptions

- C strings are NUL-free and the terminator is readable (`CString`); reader input is NUL-free, as `strncpy` demands.
- Character classes, `getenv`, the clock, the matcher as seen by the evaluator, and the answers of `calloc` and `realloc` are
  parameters, any lawful choice of which is covered.
- Pools have at least two slots and ascending sizes, as at the only use (`dlog.c:67-76`). Addresses are offsets from the
  arena, and pool headers are object fields instead of bytes of the buffer.
- A buffer, with the bytes that arrive, stays below 2^31 whenever bytes arrive, as its `int` fields demand; the stream as a
  whole is not bounded.

## Left out

- Resize: a failed allocation is not modelled, because the code uses the result unchecked; the same holds for Reserve, Cnew, Cat and Insert.
- StrPartialSplit: the linked list of parts is a sequence, and freeing it after a syntax error is not modelled.
- Remove: the keys freed are not modelled; the code frees the caller's key instead of its own copy (`hashtable.c:195`, `hashtable.c:210`).
- Insert: inserting a string into itself is excluded, because the needle is then cut off together with the text it goes into.
- Table: keys are compared by equality and hashed by an arbitrary function, so the zero key, NULL values and integer keys whose difference overflows an int are outside the model.
- The `free` of a string literal when a match errs (`node.c:244`), and the caching of environment variables in their parts.
- `str_find`, a wrapper of `str_find_aux` that clears the table and maps errors to zero.
- Partial writes (`lw.c`), whose accounting after a short write does not keep the unsent suffix.
- Descriptors and the event loop (`coredesc.c`, `dlog.c`, `evt_kq.c`, `evt_inotify.c`), binary upgrade (`fdxfer.c`, `proc.c`, `shmem.c`), rotation and logging (`rotlog.c`, `log.c`): system calls.
- The lexer, includes, configuration commands and the checks of symbols and templates in `parse.y`; variables start as strings.
- Accessors and comparisons of `dynstr.c` that only read, and its operations built from the ones above.
