# Verified model of trplugin

trplugin is a Traffic Server plugin that charges HTTP traffic against quotas granted by a
Diameter server. This project models the data structures and protocols it is built from and
proves what they promise:

- **Substring search** (`Kmp.dfy`; include/utstring.h). Knuth-Morris-Pratt with the optimised
  failure table, from left to right and from right to left. The tables are specified by borders
  of the needle, the right-to-left code by reversing needle and haystack; both searches are exact
  and linear.
- **Linked lists** (`UtList.dfy`, `MergeSort.dfy`; include/utlist.h). The doubly linked list
  macros as refinements of sequence operations, and the three in-place bottom-up merge sorts on
  heap nodes. `MergeSort` is the sort on values; the sorts on nodes leave exactly its result, its
  number of passes and its number of comparisons, and the value-level lemmas give stability and
  the n log n bound.
- **Hash table** (`UtHash.dfy`, `HashSpec.dfy`; include/uthash.h). A class whose `Valid()` is what
  `HASH_FSCK` checks plus the load invariant of the expansion heuristic. Add, delete, find,
  expansion and sort are proved against the sequence of entries in application order, for an
  arbitrary hash function; a history of the expansions says when expansion is given up. `HashSpec` holds the arithmetic: masks and shifts, how buckets
  partition the items, and why there are never more than 19 items a bucket while the table may
  still expand.
- **Jenkins hash** (`Jenkins.dfy`; include/uthash.h). On 32-bit words with wrap-around.
- **Session identifiers** (`SessionId.dfy`; src/ta_cli.c). The counter pair, its printing, and
  which calls can return the same identifier. The layout is that of section 8.8 of RFC 6733.
- **Session store** (`SessionStore.dfy`; src/srv_resource.c, src/timeout_thread.c). The hash table
  and the recency list together, and the expiry sweep that deletes while it walks.
- **Quota protocol of one session** (`Quota.dfy`; src/trplugin.c, src/ta_cli.c). Every callback is
  a method on the session object, tied to a function on its state; `World` adds the history of
  bytes let through, charged afterwards and reported, up to the session's deletion, and the
  theorems are about all runs.
- **The ledger of one session** (`Ledger.dfy`). What a session may still use, told from the answers it
  has heard and the requests it has let through, asked for or charged, and from nothing else; the
  fields agree with it on all runs, and what it says is left can be used without asking, to the
  byte. `Biography.dfy` finds each session's own life in a run of all sessions, so that the ledger
  holds of every session object.
- **All sessions together** (`Plugin.dfy`; src/trplugin.c). Callbacks find their session by
  identifier only, and several sessions may have one. The methods run on the heap store and are
  tied to a system of start requests, sessions and unanswered requests, whose runs are legal if
  look-ups are right. A session that no answer goes astray from or to lives through a run of the
  one-session protocol, and the theorems say exactly when answers go astray.

- **The plugin in operation** (`Operation.dfy`; src/trplugin.c, src/timeout_thread.c). Any sequence of
  requests, answers and sweeps on the heap store. The books, which are the system with the order of
  the list and the last uses, say for each input which calls and which reply it must have; the
  store follows them, so that the theorems about runs hold of the code.

`Sequences.dfy`, `Arithmetic.dfy` and `Wrappers.dfy` hold what the others share.
`dafny verify dfyconfig.toml` checks everything.

## Findings

These are places where a property one would expect does not hold of the code; the model keeps the
code as it is, and a lemma gives the exact condition or a concrete run.

- The searches convert lengths to `int`. For a needle of m and a haystack of n bytes every
  left-to-right search is right exactly if m is greater than n or n is at most 2^31 - 1
  (`Kmp.SearchIsRight`; `Kmp.WrongSearch` gives an input for every other pair), and every
  right-to-left search exactly if m is at most 2^31 - 1 or greater than n (`Kmp.SearchRIsRight`).
- The expiry test subtracts an unsigned timeout from the clock. It means "not used for longer than
  the timeout" exactly if the timeout is not longer than the clock reading or the wrapped
  difference is no later than the last use (`SessionStore.ExpiredMeaning`). A configured timeout
  of -1, which src/trconfig.c:40 stores in an unsigned long, sweeps every session
  (`SessionStore.SweptTooEarly`).
- Expired sessions are deleted by identifier. If another session has the same one it may go instead,
  and if it is the next node of the walk the sweep goes on in freed memory
  (`SessionStore.Store.SweepOne`; `SessionStore.ContestedSweep` is such a sweep). With distinct
  identifiers neither happens (`Operation.Operate`).
- Reports and usage add up exactly if what leaks cancels out (`Quota.Account`). Usage leaks while an
  update request is unanswered: the comment beside src/trplugin.c:151 says that it is deducted, and
  line 156 overwrites that (`Quota.UsageWhileWaitingIsLost`).
- Usage after a server error leaks as well. The comment at include/trplugin.h:63 promises that it is
  recorded and reported when the server recovers; no report ever includes it
  (`Quota.ErrorUsageIsNeverReported`, `Quota.ErrorLeaks`, `Quota.UsageInErrorIsLost`).
- Each refusal charges the usage recorded in the session's whole life once more, so that reports can
  exceed the usage, by an amount that is given exactly (`Quota.ReportsExceedUsageBy`,
  `Quota.UsageIsReportedTwice`).
- A session can be used until its stop request is answered, and unless an update request follows
  that usage is not reported (`Quota.StoppedLife`, `Quota.AllReportedExactlyWhen`,
  `Quota.UsageAfterStopIsLost`). An expired session reports nothing of what it has used since its
  last grant (`Quota.ExpiredLife`).
- A start request needs nothing, so an answer never refuses it, and a session without quota is
  opened (`Quota.StartIsNeverRefused`).
- An answer that arrives after its session has expired is applied to a new session with the same
  identifier, which may then have two requests unanswered (`Plugin.LateAnswer`). Answers can only
  reach the session that asked exactly if every session starts when its identifier has neither a
  session nor an unanswered request (`Plugin.AnswersReachTheAskerExactlyWhenTimely`).
- The check of a start request does not see start requests that are on their way. Two of them for
  one identifier give two sessions, one of which may wait for an answer for ever and is let through
  meanwhile (`Plugin.ContestedStart`, `Plugin.ClaimsStaySingleExactlyWhenCareful`).

## Model

| member | source | states |
|---|---|---|
| Kmp.EntryIsLongestStrongBorder | include/utstring.h:157-193 | Every table entry below the needle's length is the longest border of that prefix followed by a different byte, or -1 |
| Kmp.LastEntryIsLongestBorder | include/utstring.h:186-189 | The last table entry is the longest proper border of the whole needle |
| Kmp.FallBack | include/utstring.h:169-172 | Replacing a mismatching border by its table entry skips no border that the next byte extends |
| Kmp.NextBorder | include/utstring.h:173-174 | When the inner loop stops, one more is the longest border of the next prefix |
| Kmp.EntryFromBorder | include/utstring.h:175-184 | The longest border yields the longest strong border: itself, or its own entry if the bytes agree |
| Kmp.BuildTable | include/utstring.h:157-193 | The array holds exactly the table of the borders and nothing beyond it is written; for a needle of n bytes the inner loop makes at most 2n byte comparisons and the choice of the entries exactly n - 1 (none for n = 0), so at most 3n in all |
| Kmp.TableRAt | include/utstring.h:197-233 | The right-to-left table is the reversed needle's table with positions counted from the other end |
| Kmp.EntryR | include/utstring.h:197-225 | An entry k + 1 of the right-to-left table without reversal: the least position at which the needle's end repeats the bytes after k, preceded by a different byte |
| Kmp.FirstEntryR | include/utstring.h:226-229 | Entry 0 without reversal: the least position after which the needle's end is its beginning |
| Kmp.BuildTableR | include/utstring.h:197-233 | The array holds exactly the mirrored table and nothing beyond it is written, with the same bounds on the two kinds of comparisons |
| Kmp.Shift | include/utstring.h:251-254 | Falling back in the search keeps the matched bytes matched and skips no occurrence |
| Kmp.Find | include/utstring.h:237-266 | For needle and haystack of any lengths, exactly what is returned: the least occurrence, in the part the int bound reaches, of the part of the needle whose length fits the int; with at most twice the haystack's length of byte comparisons |
| Kmp.FindsLeast | include/utstring.h:237-266 | For a needle whose length fits an int, or that is longer than the haystack, that is the least occurrence in the part of the haystack that can be reached, and -1 exactly when there is none |
| Kmp.SearchIsRight | include/utstring.h:249-257 | For needle length m and haystack length n, every left-to-right search is right exactly if m is greater than n or n fits an int |
| Kmp.OccursReversed | include/utstring.h:270-300 | Occurrences are the occurrences of the reversed needle in the reversed haystack |
| Kmp.GreatestIsLeastReversed | include/utstring.h:270-300 | The least occurrence of the reversal is the greatest occurrence |
| Kmp.FindR | include/utstring.h:270-300 | The greatest occurrence, -1 exactly when there is none, if the needle's length fits an int or exceeds the haystack's; for any lengths, the haystack's end if no byte that is compared there differs; with at most twice the haystack's length of byte comparisons |
| Kmp.SearchRIsRight | include/utstring.h:285 | For needle length m and haystack length n, every right-to-left search is right exactly if m fits an int or is greater than n |
| Kmp.UtFind | include/utstring.h:304-346 | The search's result in the string after the start position, negative ones counting from the end, for any lengths: for a needle whose length fits an int, the least occurrence in the part that can be reached; -1 without one, without memory or for an empty needle |
| Kmp.UtFindR | include/utstring.h:350-388 | The search's result in the prefix that ends at the start position, for any lengths: for a needle whose length fits an int or exceeds the prefix, the greatest occurrence wholly inside it; -1 without one, without memory or for an empty needle |
| MergeSort.MergeSorted | include/utlist.h:133-153 | Merging two sorted runs gives a sorted run |
| MergeSort.MergeStable | include/utlist.h:140-142 | Merging keeps tied elements in order, those of the first run first |
| MergeSort.PassSorts | include/utlist.h:123-155 | A pass over sorted runs keeps ties in order and doubles the width of the runs |
| MergeSort.SortCorrect | include/utlist.h:105-165 | For a total preorder the sort's result is sorted, has the same elements and keeps ties in their old order |
| MergeSort.PassCount | include/utlist.h:118-163 | The number of passes is exactly max(1, ceil(log2 n)) |
| MergeSort.ComparisonBound | include/utlist.h:59 | The documented O(n log n): at most n times max(1, ceil(log2 n)) comparisons |
| UtList.DList.Prepend | include/utlist.h:507-517 | The new node is put before the sequence of nodes; head.prev is the tail and tail.next is NULL again |
| UtList.DList.Append | include/utlist.h:522-534 | The new node is put after the sequence of nodes; the list is well formed again |
| UtList.DList.Concat | include/utlist.h:539-552 | The first list becomes the concatenation of both; well formed, also when one is empty |
| UtList.DList.Delete | include/utlist.h:557-573 | Exactly the node is taken out, the rest stays in order and well formed, and the node's own links are untouched |
| UtList.DList.MoveToTail | src/srv_resource.c:104-105 | Deleting and appending a node makes it the last one and keeps the order of the others |
| UtList.DList.ReplaceElem | include/utlist.h:603-627 | The new node takes exactly the old one's place |
| UtList.DList.PrependElem | include/utlist.h:629-642 | The new node is inserted exactly before the given one |
| UtList.SplitRun | include/utlist.h:125-131 | The walk to the second run passes the run's width of nodes or all that are left |
| UtList.TakeNode | include/utlist.h:134-146 | The node chosen is the next one of the merge of the two runs, compared only if both have nodes left |
| UtList.MergeRuns | include/utlist.h:132-153 | Two runs are relinked in place into their merge, nodes outside them stay as they are |
| UtList.MergePass | include/utlist.h:119-155 | One pass relinks the list into the value-level pass over its nodes, with its merges and comparisons counted |
| UtList.LLSort | include/utlist.h:108-165 | The singly linked list left is the value-level sort of its nodes, with exactly its passes and comparisons |
| UtList.DLSort | include/utlist.h:171-228 | The same with head.prev the tail and tail.next NULL |
| UtList.CDLSort | include/utlist.h:233-304 | The same for a circular list |
| UtList.SortResultCorrect | include/utlist.h:105-304 | What every sort leaves is sorted, the same nodes, ties in order, after exactly max(1, ceil(log2 n)) passes with at most n comparisons each |
| HashSpec.MaskIsRemainder | include/uthash.h:198-201 | The bucket number by mask is the remainder, for a power of two of buckets |
| HashSpec.ShiftIsQuotient | include/uthash.h:678-680 | Shifting right divides by the power of two |
| HashSpec.IdealChainIsCeiling | include/uthash.h:645-662 | The shift and the mask compute the number of items divided by the number of buckets, rounded up |
| HashSpec.IdealRange | include/uthash.h:678-693 | Under the load bound the ideal chain length is between 1 and 10, so the division by it is defined |
| HashSpec.DoubledBucket | include/uthash.h:687 | Doubling the buckets sends a hash value to its old number or its mirror in the new half |
| HashSpec.SplitChains | include/uthash.h:682-703 | After an expansion every old chain is split between its own number and its mirror: nothing lost, doubled or sent elsewhere |
| HashSpec.ChainsHoldAll | include/uthash.h:286-308 | The chain lengths add up to the number of items |
| HashSpec.LoadChange | include/uthash.h:611-635 | Adding below a bucket's threshold, and deleting, keep the load invariant |
| HashSpec.LoadExpanded | include/uthash.h:678-712 | An expansion restores the load invariant however unevenly the items fall |
| HashSpec.LoadBound | include/uthash.h:666-712 | The load invariant bounds the items by 19 a bucket |
| UtHash.PushFront | include/uthash.h:614-617 | An entry is linked before its chain, both ways |
| UtHash.DelInBkt | include/uthash.h:625-635 | Exactly the entry is taken out of the chain and its count; the links are right both ways |
| UtHash.FindInBkt | include/uthash.h:597-608 | The first entry of the chain with the key, NULL exactly without one |
| UtHash.CountMoved | include/uthash.h:689-693 | Counting an entry in its new bucket keeps expand_mult and the running number of non-ideal items exact |
| UtHash.MoveEntry | include/uthash.h:687-700 | One entry moves to the bucket its hash value masks to; chains, counts and multipliers stay exact |
| UtHash.Redistribute | include/uthash.h:673-703 | All entries, and no others, are in twice as many buckets where they belong, and the number of non-ideal items is exact |
| UtHash.CountersHoldAll | include/uthash.h:300-308 | The bucket counters add up to the number of items |
| UtHash.HashTable.LoadIsBounded | include/uthash.h:611-622 | In every valid table that may expand: at most 19 items a bucket, and no chain longer than 10 times (expand_mult + 1) |
| UtHash.HashTable.Find | include/uthash.h:94-105 | NULL exactly when no entry of the application-order list has the key, otherwise the first entry with it in its bucket's chain |
| UtHash.HashTable.MakeTable | include/uthash.h:141-158 | A table of 32 empty buckets that meets every invariant, with all counters zero, expansion not given up and no expansion in its history |
| UtHash.HashTable.Expand | include/uthash.h:666-712 | Twice the buckets with the same entries, ceiling and non-ideal count exact, ineffective expansions counted, expansion given up after two in a row, and the load invariant restored |
| UtHash.StillHistoric | include/uthash.h:705-708 | An expansion keeps the counters in step with the history: the counter is the number of ineffective expansions since the last effective one, and expansion is given up exactly if two in a row have been ineffective |
| UtHash.HashTable.NoexpandExactly | include/uthash.h:705-708 | In every valid table, whatever has been added and deleted since it was made, that is so |
| UtHash.HashTable.AddToBkt | include/uthash.h:611-622 | The entry goes to the front of its chain; an expansion follows exactly when the chain reaches 10 times (expand_mult + 1) and expansion has not been given up, and leaves the counters of an expansion; otherwise no counter changes |
| UtHash.HashTable.Add | include/uthash.h:173-196 | The entry is the last one in application order, and everything HASH_FSCK checks still holds; adding to an empty table leaves 32 buckets and all counters zero, an expansion happens exactly when due and leaves exact counters, any other add leaves them as they were; unless the table expands, the entry is the one found for its key from now on, and with less than nine entries it does not expand |
| UtHash.HashTable.RemoveFromTable | include/uthash.h:243-245 | The entry leaves its bucket, and the table holds exactly the other entries |
| UtHash.HashTable.Delete | include/uthash.h:215-248 | Exactly the entry leaves the application order, everything HASH_FSCK checks still holds, and no counter of the expansion heuristic changes; the table goes with its last entry |
| UtHash.HashTable.Sort | include/uthash.h:719-804 | The application order becomes the stable sort of its nodes with head and tail updated, and no bucket is touched |
| UtHash.SortHandles | include/uthash.h:724-801 | The handle list is relinked both ways into the value-level sort, with exactly its passes and comparisons |
| Jenkins.RoundInverse | include/uthash.h:405-407 | Three lines of the mix can be undone on both sides |
| Jenkins.MixBijective | include/uthash.h:403-414 | The mix is a bijection on triples of words |
| Jenkins.WordsInjective | include/uthash.h:424-432 | A block of twelve bytes is determined by the three words it adds |
| Jenkins.TailWordsInjective | include/uthash.h:440-452 | The last bytes are determined by the three words they add |
| Jenkins.DigestInjective | include/uthash.h:423-453 | Different internal states stay different whatever bytes follow |
| Jenkins.NoCollisionInOneBlock | include/uthash.h:416-455 | Keys of equal length that may differ in one block only, whole or last, end in equal states exactly if they are equal |
| Jenkins.LengthCounts | include/uthash.h:439-452 | A key and the same key with a zero byte in its last partial block end in equal states exactly if the lengths added are equal |
| Jenkins.ZeroByteCounts | include/uthash.h:439 | So the two are told apart whenever the length fits an unsigned number |
| Jenkins.SampleDigest | include/uthash.h:403-455 | For the bytes 1 to 23 the three words of the final state, which fix every constant, shift and byte position of the macros |
| Jenkins.AddTail | include/uthash.h:440-452 | The fall-through switch adds exactly the words of the last bytes |
| Jenkins.HashJen | include/uthash.h:416-455 | The loop, the length, the switch and the last mix compute the digest of the key, whose length is taken modulo 2^32, and the bucket is its masked hash value |
| SessionId.DecimalValue | src/ta_cli.c:45 | The digits printed stand for the number |
| SessionId.NeverTruncated | src/ta_cli.c:30-35 | The allocated length always suffices |
| SessionId.ParseFormat | src/ta_cli.c:44-48 | Both counters can be read back from the identifier, separators in identity and option notwithstanding |
| SessionId.SidGenerator.constructor | src/ta_cli.c:17-21 | The counter pair starts as the time's low 32 bits and zero |
| SessionId.SidGenerator.GetSid | src/ta_cli.c:23-50 | The pair is one 64-bit number advanced by one, with carry; the identifier is the printed identity, a semicolon, the high digits, a semicolon, the low digits and the option, and reading it back gives the pair |
| SessionId.DistinctIdentifiers | src/ta_cli.c:23-50 | Two calls return the same identifier exactly if they are a multiple of 2^64 calls apart |
| Quota.DiamTxnData.Receive | src/ta_cli.c:67-100 | For start and update a server error exactly if either AVP is missing; with both present the grant is taken over, success is flagged exactly if it covers the need and failure otherwise; for stop an error exactly without a result code |
| Quota.UserSession.constructor | src/srv_resource.c:16-28 | A new session has no quota, no usage, no error and nothing pending |
| Quota.UserSession.Open | src/trplugin.c:91-100 | With both AVPs the whole grant is left to use, otherwise the session is in error without any |
| Quota.UserSession.Use | src/trplugin.c:208-246 | Let through exactly if what is left covers it, the server has failed or a request is unanswered; refused exactly if not and the last grant was nothing; it asks otherwise. A covered use lowers what is left by its length, any other one let through adds its length to the recorded usage |
| Quota.UserSession.Answered | src/trplugin.c:149-171 | A grant that covers the need leaves the grant less the need, a smaller one the grant less the recorded usage, a missing AVP the error flag and the need on record; the waiting request passes exactly unless the grant is too small |
| Quota.UserSession.PostCharge | src/trplugin.c:380-388 | The response is taken from what is left, or added to the recorded usage of a session in error |
| Quota.StartIsNeverRefused | src/trplugin.c:86-105 | No start answer is a refusal; a session without grant refuses its first use instead |
| Quota.SingleFlight | src/trplugin.c:208-246 | On every run at most one update request is unanswered, and the pending flag says so |
| Quota.OverUseIsRecorded | src/trplugin.c:149-171 | On every run the left quota is at least minus the recorded usage and the responses charged since the last answer |
| Quota.ErrorIsForGood | src/trplugin.c:208-218 | After a server error, on every run, every use is let through and no update request is sent |
| Quota.Account | src/trplugin.c:143-249 | The law of conservation on every run: used bytes less reported ones less the next report change by exactly the sum of the leaks, which are given for each event |
| Quota.ReportedExactlyWhenNothingLeaks | src/trplugin.c:128-141 | On every run, whenever nothing is unanswered, the reports and the stop request add up to the bytes used exactly if the leaks cancel out |
| Quota.CleanRunsConserve | src/trplugin.c:143-249 | A run in which nothing touches a waiting session and no answer signals an error leaks nothing |
| Quota.ReportedIsUsed | src/trplugin.c:128-141 | On such runs the reports including the stop request add up to the bytes used |
| Quota.GrantingLeaks | src/trplugin.c:151-156 | On a run whose answers all grant, the leaks are never negative, and nothing leaks exactly if nothing is used while a request is unanswered |
| Quota.UsageWhilePending | src/trplugin.c:208-217 | While a request is unanswered all uses are let through and the account grows by exactly their volume |
| Quota.RoundTrip | src/trplugin.c:143-249 | What any round of asking, using and answering does to the account, exactly, for each kind of answer |
| Quota.BalancedExactlyWhenIdle | src/trplugin.c:151-156 | A whole run whose answers all grant keeps the account balanced exactly if nothing is used while a request is unanswered |
| Quota.StoppedLife | src/trplugin.c:121-141 | What a session has used and never reported when it is deleted after its stop request, exactly, whatever happened before and after the request |
| Quota.AllReportedExactlyWhen | src/trplugin.c:121-141 | With granting answers, a stop request sent while nothing is unanswered and no update request after it, everything used has been reported in the end exactly if nothing was used while waiting and nothing after the stop request |
| Quota.ExpiredLife | src/timeout_thread.c:19-21 | With granting answers a session that expires has reported everything exactly if nothing was used while waiting and nothing since the last grant |
| Quota.ErrorUsageIsNeverReported | src/trplugin.c:212-217 | After a server error, on every run, a stop request reports what it would have reported at once |
| Quota.ErrorLeaks | src/trplugin.c:212-217 | After a server error, as long as the session is neither stopped nor deleted, the leaks are never negative, and nothing leaks exactly if no byte is used any more |
| Quota.AnsweringLeaks | src/trplugin.c:143-171 | Without server errors, what leaks is the bytes used while waiting less what refusals have charged, each of them all usage recorded so far |
| Quota.ReportsExceedUsageBy | src/trplugin.c:151 | Without server errors the reports and the stop request exceed the usage by exactly what refusals have charged less the bytes used while waiting |
| Quota.UsageIsReportedTwice | src/trplugin.c:151 | A run in which thirteen bytes are used and sixteen reported |
| Quota.UsageInErrorIsLost | include/trplugin.h:63 | A run in which seven bytes are used after a server error and the stop request reports none |
| Quota.UsageAfterStopIsLost | src/trplugin.c:121-141 | A run in which three bytes pass between the stop request and its answer and are never reported |
| Quota.UsageWhileWaitingIsLost | src/trplugin.c:151-156 | A run of four events in which three bytes are never reported |
| Ledger.LivesAreLawful | src/trplugin.c:86-249 | On every run the fields are those of a ledger kept from the answers and the requests alone (last grant, bytes waited for, bytes used and charged since, bytes on record), and every deed is one the ledger allows |
| Ledger.NextUse | src/trplugin.c:208-246 | After any run: a use is let through exactly if what the ledger says is left of the last grant covers it, a request is unanswered or the server has failed; refused exactly if not and the last grant was nothing; otherwise it asks and reports what was taken from the last grant |
| Ledger.NextAnswer | src/trplugin.c:149-171 | After any run: what an answer lets through, and what is left then: the grant less the bytes waited for, or less all bytes on record, or an error |
| Ledger.LeftIsUsable | src/trplugin.c:208-218 | Uses are all let through without a request exactly if together they are no more than what is left |
| Ledger.StartGrantIsUsable | src/trplugin.c:94-95 | The start grant can be used to its last byte, and no further, without another request |
| Ledger.UsableIsUsable | src/trplugin.c:208-218 | On every run the bytes usable without asking are the last grant less what was taken from it |
| Ledger.GrantIsUsable | src/trplugin.c:150-156 | After an answer they are exactly the grant less the bytes waited for, or after a refusal less all recorded usage |
| Ledger.GrantsAddUp | src/trplugin.c:86-249 | On every run each byte granted has been used or charged under a grant, was charged once more by an answer that did not grant, was given up when the next answer came, or is left |
| SessionStore.ExpiredMeaning | src/timeout_thread.c:19 | Exactly when the unsigned test means that the session has not been used for longer than the timeout |
| SessionStore.SweptTooEarly | src/timeout_thread.c:19 | With a timeout of -1, stored as the largest unsigned long, every session is swept at every clock reading, those just used included |
| SessionStore.LookupIsSearch | src/srv_resource.c:79-92 | The hash table has an identifier exactly if searching the list finds it |
| SessionStore.ExpiredFirst | src/timeout_thread.c:17-25 | In a list ordered by last use the expired sessions are a prefix, and what is left is the rest of the list |
| SessionStore.Store.FindUserSession | src/srv_resource.c:79-92 | NULL exactly if no session of the list has the identifier, otherwise the one whose entry comes first in the bucket's chain |
| SessionStore.Store.AddUserSession | src/srv_resource.c:37-45 | The session is last in the list and in the table, which gain nothing but new objects; identifiers stay distinct exactly if its own is new |
| SessionStore.Store.DeleteUserSession | src/srv_resource.c:60-77 | A session with the identifier leaves list and table and the others stay in order; nothing changes without one |
| SessionStore.Store.UpdateUserSession | src/srv_resource.c:94-108 | The session found becomes the last one, used now; order by last use is kept, other sessions are untouched, and the store consists of the same objects |
| SessionStore.Store.NextElement | include/utlist.h:594-595 | The walk's next node, read before the current one may be deleted |
| SessionStore.Store.SweepOne | src/timeout_thread.c:17-25 | One node: if it has expired, the node that the table finds for its identifier goes, and the walk is left dangling exactly if that is the node saved as the next one |
| SessionStore.Store.Sweep | src/timeout_thread.c:15-28 | On any list: the sweep is a walk that deletes for exactly the expired sessions it comes to, each time a session with that identifier, until it has come to the end or is left dangling; no node is visited twice, nothing else is lost, and table and list still agree; if the expired ones' identifiers are unique, every node is visited once in order, exactly the expired sessions go, and the walk never dangles |
| SessionStore.WalkedMinus | src/timeout_thread.c:15-28 | What a walk leaves is the list, in its order, without the sessions it has dropped |
| SessionStore.ContestedSweep | src/timeout_thread.c:17-21 | For every hash function: two sessions with one identifier are added, the first has expired, and the sweep is left dangling |
| Plugin.CallIsLocal | src/trplugin.c:143-249 | A callback does to a session what its local event does, and nothing to others, unless an answer goes astray |
| Plugin.LifeIsRun | src/trplugin.c:86-249 | Interleaved with any calls for other sessions, a session that no stray answer leaves or reaches lives through exactly the one-session run of its own events, beyond its end |
| Plugin.CrowdConserves | src/trplugin.c:86-249 | For such a session among others the reports and the stop request add up to its usage exactly if the leaks of its own life cancel out |
| Biography.PastIsLived | src/trplugin.c:86-249 | If all sessions start in time, every session of a run of all is what the run of its own events since its start makes of it |
| Biography.EveryStateIsTold | src/trplugin.c:86-249 | Then the fields of every session are what the ledger makes of its own deeds, all of them lawful |
| Plugin.OwnOnlyNext | src/trplugin.c:143-146 | If answers can only find the session that asked, they still can after a call exactly if the call does not start a session for an identifier that has a session or an unanswered request |
| Plugin.AnswersReachTheAskerExactlyWhenTimely | src/trplugin.c:143-146 | Throughout a run answers can only find the session that asked exactly if every session starts when its identifier has neither a session nor an unanswered request |
| Plugin.TimelyIsUndisturbed | src/trplugin.c:143-146 | In such a run no answer ever goes astray from or to any session |
| Plugin.ClaimsStaySingleExactlyWhenCareful | src/trplugin.c:295-303 | Throughout a run every identifier has at most one session or start request on its way exactly if no start request passes the check while another one is on its way |
| Plugin.IdsStayDistinctExactlyWhenUncontested | src/srv_resource.c:37-45 | Throughout a run the sessions' identifiers are distinct exactly if no start is answered while its identifier has a session |
| Plugin.FlagsAgreeExactlyWhenUnharmed | src/trplugin.c:143-152 | Throughout a run every pending flag counts its session's unanswered requests exactly if no answer finds another session than the asking one while that one exists or the found one is waiting itself |
| Plugin.TimelyRunsAgree | src/trplugin.c:143-152 | If all sessions start in time, the flags count the unanswered requests throughout, of which no session has two |
| Plugin.NobodyWaitsExactlyWhenUnstranded | src/trplugin.c:143-152 | Throughout a run every session whose flag is set has a request unanswered exactly if no session's last awaited answer finds another session |
| Plugin.NobodyWaitsForNothing | src/trplugin.c:208-246 | With distinct identifiers that always holds, late answers included |
| Plugin.LateAnswer | src/trplugin.c:143-152 | A run of nine calls after which a session has two unanswered requests |
| Plugin.ContestedStart | src/trplugin.c:295-303 | A run of six calls with two start requests on their way: two sessions have one identifier, and one of them waits for an answer that never comes |
| Plugin.FoundIsHeld | src/srv_resource.c:79-92 | Looking an identifier up in the store finds a session of the system exactly if one has the identifier |
| Plugin.CheckStart | src/trplugin.c:295-303 | A start request goes on its way exactly if no session has the identifier |
| Plugin.UpdateSession | src/trplugin.c:194-249 | The sessions become those of the system's step for the session found, in the same objects; the request passes exactly if admitted, and only then is a session with the identifier the most recent one |
| Plugin.UpdateSessionCb | src/trplugin.c:143-192 | The sessions become those of the system's step for the session found, also if there is none; the waiting request of a session found passes exactly if an AVP is missing, which leaves that session in error, or the grant covers it |
| Plugin.StartSessionCb | src/trplugin.c:86-108 | Unless the answer is a refusal there is a new session, also if the identifier has one already, and the store, with nothing but new objects added, is still in order exactly if it has not |
| Plugin.PostprocessAnyRequest | src/trplugin.c:364-397 | The sessions become those of the system's step for the session found |
| Plugin.EndSession | src/trplugin.c:128-141 | The stop request reports granted minus left of the session found, if there is one |
| Plugin.EndSessionCb | src/trplugin.c:121-126 | The session found is dropped from table and list, nothing is added, and the others stay in order |
| Plugin.DroppedRun | src/timeout_thread.c:15-28 | Nodes taken out one after the other are a legal run of calls that drop their sessions |
| Plugin.CheckSessionTimeout | src/timeout_thread.c:15-28 | Any sweep is the legal run of calls that drop the sessions of its walk; if the identifiers of the expired ones are unique, exactly they are dropped, in the order of the list |
| Operation.Handle | src/trplugin.c:265-397 | One input: its calls are exactly those that it must lead to, only the sessions found being open; the store's sessions, their order and their last uses become those of the books after the calls, and the reply is what the verdict of the call makes it |
| Operation.UsageAnswered | src/trplugin.c:194-249 | The reply to a use, and what it takes from the session found, in terms of what is left, the last grant, the pending flag and the error flag |
| Operation.UpdateAnswered | src/trplugin.c:143-192 | An update answer with either AVP missing lets the request of the session found through and leaves that session in error; any other lets it through exactly if its grant covers the need |
| Operation.Operate | src/trplugin.c:86-397 | Composed over any sequence of inputs: each one has had exactly its calls and its reply, a sweep included, the calls make a legal run, and the store holds the sessions of the books in their states and order, with their last uses; it is in the order of last use if also clock readings do not decrease and no start is answered while its identifier has a session, and then no sweep dangles |
| Operation.OperateFromEmpty | src/trplugin.c:86-397 | The same from an empty store; and if all sessions start in time every session object's pending flag is the number of its requests on their way, at most one, and its fields are what the ledger makes of its own life |
| Operation.AfterIsServed | src/trplugin.c:86-397 | The books' system is what serving all calls in turn makes of the first one, so that the theorems about runs apply |

## Left out

- Kmp.FindR: for needles longer than an int that the haystack has room for, what is returned is
  stated only if no byte compared at the haystack's end differs; otherwise it is not described.
- Kmp.UtFind: start positions from which bytes before the string would be read are outside the
  precondition; the original has no check for them.
- Kmp.UtFindR: start positions at which bytes after the string would be read are outside the
  precondition; the original has no check for them.
- UtHash.HashTable.Expand: the number of items is unbounded; wrap-around of the unsigned counters
  and of the allocation size is not modelled, nor is failing allocation.
- UtHash.HashTable.Sort: a handle's application-order links are a list node of their own that
  refers to the user's structure, so the offset arithmetic between handle and structure is not
  modelled.
- UtList.MergePass: one method stands for the passes of all four sorts, with parameters for the
  list's end and for back links; the run width is unbounded, so overflow of the counter
  `insize` is not modelled.
- Quota.UserSession.Use: quotas and usages are unbounded; wrap-around of the 64-bit fields is not
  modelled.
- SessionStore.Store.Sweep: stops when the walk is left dangling, because the original then reads
  freed memory.
- Operation.Operate: stops there too. Which of several sessions with one identifier a look-up finds
  is open in the books; the store's contracts say that it is the first in the bucket's chain.
- Threads and mutexes: every callback is one atomic step. The pending flag is set at
  src/trplugin.c:244 after the unlock at src/trplugin.c:227, so two threads could both ask.
- Freeing memory, and the table freed with the last entry of a hash table.
- Traffic Server and freeDiameter calls, headers, messages and AVP construction, logging,
  configuration and dictionaries. Clock readings and answers are parameters.
- `HASH_SELECT`, which does not advance the tail of its destination; `HASH_REPLACE`, a find, a
  delete and an add; the Bloom filter and the other hash functions.
- Edits of singly linked and circular lists, searching and counting lists, growable arrays and
  string appending: they would only add easy members.
