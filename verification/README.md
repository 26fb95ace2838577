# Zen: what its core guarantees

Zen is a filtering proxy. This project models the parts of it where a mistake would be silent (the
rule index, the concurrent list store, its disk cache, the hostname trie, the small languages of
filter lists, the verdict on a request, policy rewriting and certificate issuing) and proves what
they promise, over every input, every history of calls and every interleaving. `dafny verify
dfyconfig.toml` checks all of it.

Imperative code is modelled imperatively: a Go struct whose methods update it is a class, a loop is a
loop with invariants, a slice rewritten in place is a field or an array. Each such method is proved
against a pure specification, and the promises are lemmas about that specification. Concurrent code
is a step system in which any number of goroutines interleave. Bytes are written as `char`.

## The rule tree

`Tokens`, `RuleNode`, `PatternTrie`, `Traversal` and `RuleTree` follow `internal/ruletree` node by
node: `Insert` walks, hangs and splits nodes on the heap, and `Get` traverses all patterns at once.
The question is whether the answer depends on where the nodes happen to be split. `Matcher.Matches` is
the matcher for a single pattern, with no tree in sight, and `RuleTree.Tree.Get` is proved to return
exactly the values of the inserted patterns that it accepts at an allowed start, and `StartPositions`
reads the allowed starts off the shape of an address. The one dependence on
the shape of the tree, a final `^` after a `*`, is described exactly: such a `^` may stand for the end
of the URL if and only if some inserted pattern of the same kind ends, or two of them part, right
before it (`Radix.Boundary`). So the answer is a function of the *set* of inserted rules: neither
insertion order nor duplicates nor the splits matter. `RuleTreeLaws` draws the consequences.

`PatternMeaning` states what the tokens of a pattern are documented to match: a `^` is one character
other than a letter, a digit or `_-.%`, or the end of the address. The matcher differs from that both
ways. It lets one `^` take a whole run of separators, and it neither lets two special tokens share the
end of the address nor knows all the characters a `^` stands for. `AddressMeaning` and `AnswerMeaning`
say for exactly which rules this shows in an answer of `Get`: whether a rule ever accepts an address it
is not documented to (`Overreads`) and whether it ever misses one that it is (`Underreads`) are read off
its tokens and the way it is tied to the URL. For every rule of either kind an address is built that
shows it. Both are decided twice, for all bytes and for the bytes that RFC 3986 allows in a URL,
where the code knows every separator. Where a pattern without `|` may start, the documentation does not
say; the positions are those of the code (the first byte, marker bytes and the bytes behind them). An
address is any text that `Get` takes, so one built for a rule that is not tied to the host need not have
a scheme; one built for a `||` rule starts with "https://". So `^/b` is matched as documented although
its `^` may take a run (a later start makes up for it), while `a^b` accepts "https://a//b" and
`||example.com^|` misses "https://example.com".

The heap is tied to a value (`Radix.Forest`), a map from node to path, prefix, data and children; the
invariant and the effect of each mutation are proved on that value.

## The list store and includes

`FetchProtocol` is the store and the include expansion as a step system: the slot semaphore, one
flight per URL, retries that hand the slot back, a stale entry held across a conditional request, and
parser goroutines that start others while their own reader holds a slot. The operations are not
assumed safe: closing a channel twice or handing over a nil reader is a `panicked` state, proved
unreachable. `FetchRuns` has safety for every interleaving, freedom from deadlock and the bound on a
waiter's rounds; `FetchOutcomes` says what a `Get` ends with, by the steps it has taken; `FetchEnds` proves that every schedule of every set of lists comes to an end.
`Readers` has the two streaming readers, `DiskCacheProtocol` and `DiskCacheRuns` the concurrent life of
the disk cache, `DiskCachePairs` the exact condition under which a `Load` returns metadata and content
of one promotion, `DiskCacheReports` what the error return of a `Promote` says about memory and disk,
`DiskCacheAccess` when an entry was last used and what the index on disk knows of it,
`DiskReconcile` and `DiskReconcileLaws` the startup.

## Hostnames, list syntax, requests

`HostForest`, `HostTrie` and `HostMatcher` prove the reversed-label trie equal to a flat list of
patterns; `HostMeaning` says in texts alone what a pattern means, and what all rules of a matcher say
together. `ConditionGrammar` and `Conditions` prove the condition parser sound and complete for its
grammar; `Directives` proves that two counters do the work of a stack, and that a properly nested list
keeps exactly the lines it says. `Escapes`, `ArgLists` and `ModifierText` have the escape syntaxes with
their exact round trips, and `ModifierInterner` shares parsed modifier blocks between rules that are
parsed concurrently. `RemoveParams`, `NetworkRules` and `NetworkRuleLaws` prove that the verdict on a
request does not depend on the order in which the rule index enumerates matching rules; `ExceptionLaws`
says the verdict of single rules and exceptions, and why an exception leaves a rule alone. The list of
applied rules does: `AppliedRules` says for exactly which sets of rules.

## Policies and certificates

`PolicyText`, `PolicyReading`, `PolicyPatch` and `PolicyPatcher` relate the text of a Content Security Policy, parsed as
in section 2.2.1 of Content Security Policy Level 3, before and after a patch. `CertCache` and
`CertCacheLaws` prove the LRU cache against one recency sequence, and that sequence against the times
of last use. `CertIssuer` and `CertGenerator` prove every served certificate unexpired under any clock,
and `CertHistory` says, over all histories of calls, exactly when it is also valid already.

## Findings

Where the code and its documentation, or the expected property, differ, the code is modelled and the
difference is a lemma.

- A pattern that ends in `*^` is matched differently depending on its neighbours in the tree
  (`RuleTreeLaws.NeighboursMatter`).
- A `^` takes a whole run of separators, so some rules accept addresses that they are not documented to
  accept (`AnswerMeaning.RunIsOneSeparator`), exactly those described by `AddressMeaning.NeverMoreIff`.
- Two special tokens do not share the end of the address, and a `^` does not stand for characters
  outside the code's own list, so some rules miss addresses (`AnswerMeaning.HostIsMissed`,
  `AnswerMeaning.BraceIsMissed`), exactly those described by `AddressMeaning.NeverLessIff`.
- `AddExceptionRule` stops at the first empty pattern after having added the ones before it, as on
  "a,,b", while `AddPrimaryRule` is all or nothing. A failing call changes nothing exactly if its text
  starts with a comma (`HostMatcher.FailedCallAdds`, `HostMatcher.Matcher.AddExceptionRule`).
- A `Load` can pair old metadata with new content (`DiskCacheRuns.MetadataCanBeOlder`); the other way
  round never happens. It returns a matching pair exactly if no promotion was between its two halves
  at the lookup and none installed content before the opening (`DiskCachePairs.LoadIsConsistent`).
- Reading an entry more often than hourly never writes its access time, however long it goes on, so a
  startup can take content for abandoned that was read every half hour for 90 days
  (`DiskCacheAccess.RegularReadsAreNotEnough`); an access is written exactly if none was within the hour
  before (`DiskCacheAccess.ReadIsWritten`).
- Rules for hostnames share their exclusions with all rules of the same data: next to `d,~x` a rule for
  `x` has no effect on `x` (`HostMeaning.SharedExclusion`, exactly: `HostMeaning.ExclusionsAreShared`).
- The list of applied rules, unlike the verdict, depends on the order of enumeration
  (`AppliedRules.AppliedDependsOnOrder`), exactly if two rules compete to block or for everything that
  one of them changes (`AppliedRules.ModifyReqIsOrderFree`).
- A directive whose name is followed by a tab governs by the standard and is not patched
  (`PolicyPatcher.PatchesGoverning`, `PolicyPatcher.TabHidesDirective`).
- A fresh leaf is already expired exactly if its signer is, which happens when the clock passes the
  signer's expiry between the issuer's look at it and the leaf's own reading, and with a root on disk
  that has expired, as nothing looks at that (`CertGenerator.Generator.GetCertificate`).
- The issuer replaces an intermediate that the clock has gone back behind; the cache does not look, and
  serves certificates that are not valid yet when the clock has gone back by more than the backdate
  since they were made, and only then (`CertHistory.ServedIsValid`,
  `CertHistory.CacheServesNotYetValid`).

## Model

| member | source | states |
|---|---|---|
| Tokens.Tokenize | internal/ruletree/tokenize.go:17-41 | the result is a normal token sequence that renders to the pattern with its wildcard runs collapsed |
| Tokens.NormalFormUnique | internal/ruletree/tokenize.go:17-41 | only one normal token sequence renders to a given text, so tokenizing is determined by it |
| Matcher.SplitMatters | internal/ruletree/node.go:116-199 | letting a final `^` stand for the end of the URL only adds matches, and only for patterns ending in `*^` |
| RuleNode.Node.SearchEdges | internal/ruletree/node.go:81-99 | binary search over the sorted literal edges finds the edge of the byte, or where it belongs |
| RuleNode.Node.AddEdge | internal/ruletree/node.go:36-57 | the new edge is the only change to the edge function, and literal edges stay sorted |
| RuleNode.Node.UpdateEdge | internal/ruletree/node.go:59-79 | an existing edge is redirected, every other one untouched, literal edges stay sorted |
| Radix.AppendKeeps | internal/ruletree/ruletree.go:65-72 | appending a value to a node adds exactly that pattern and value and keeps the radix tree |
| Radix.HangKeeps | internal/ruletree/ruletree.go:74-84 | hanging a leaf below a node without a fitting edge adds exactly one pattern and value and keeps the radix tree |
| Radix.CutKeeps | internal/ruletree/ruletree.go:86-98 | splitting a node changes no path and no value: token strings from root to leaf stay what they were |
| Radix.NodesAreBoundaries | internal/ruletree/ruletree.go:36-112 | after any insertions a node stands exactly at the root, at the inserted patterns and where two of them part |
| PatternTrie.Trie.Insert | internal/ruletree/ruletree.go:64-112 | inserting adds one (token string, value) to the entries, through every split, and keeps prefixes non-empty, siblings distinct and edges sorted |
| PatternTrie.LongestPrefix | internal/ruletree/ruletree.go:168-179 | the result is the length of the longest common prefix |
| Traversal.Traverse | internal/ruletree/node.go:107-114 | traversing a node yields exactly the data at or below it whose remaining tokens accept the URL |
| Traversal.Traverser.TraversePrefix | internal/ruletree/node.go:116-199 | every branch of the prefix walk appends exactly what the patterns at or below the node contribute |
| Traversal.Traverser.ScanSeparators | internal/ruletree/node.go:160-165 | `*^` inside a prefix resumes at every separator of the URL |
| Traversal.Traverser.ScanLiteral | internal/ruletree/node.go:166-177 | `*` before a literal resumes at every occurrence of that byte, found by jumping |
| Traversal.Traverser.TraverseWildcardTail | internal/ruletree/node.go:205-235 | a wildcard that ends a node offers every suffix of the URL, and the empty one, to the children |
| TrieFind.RootHitsAreFound | internal/ruletree/node.go:107-235 | from the root, the traversal of the whole tree finds exactly what matching each pattern on its own finds |
| RuleTree.Tree.Insert | internal/ruletree/ruletree.go:36-112 | a pattern is filed once under its normal form; an empty one, or one with `\|\|` elsewhere than at the start, changes nothing |
| RuleTree.Tree.Get | internal/ruletree/ruletree.go:117-166 | the values of exactly the inserted patterns that accept the URL at an allowed start, each once, as a function of the set of inserted rules |
| StartPositions.HostStarts | internal/ruletree/ruletree.go:133-156 | in an address made of all up to the first "://", a host without `/` or `?` and a rest that is empty or starts with one of them, a `\|\|` rule starts at the host and behind the dots of the host but a leading one, and nowhere else |
| StartPositions.HasShape | internal/ruletree/ruletree.go:133-156 | every address that `Get` takes has such a shape, so these are all start positions |
| StartPositions.HostRulesStartInHost | internal/ruletree/ruletree.go:117-166 | a `\|\|` rule is answered exactly if it matches from such a position, never from a dot of the path |
| StartPositions.FloatingStarts | internal/ruletree/ruletree.go:127-146 | in an address of RFC 3986 bytes a rule that is not tied starts at the first byte, at every byte that is no letter or digit, and right behind one but at the second byte |
| StartPositions.OtherRulesStart | internal/ruletree/ruletree.go:117-166 | a `\|` rule is answered exactly if what follows the bar matches from the first byte, one without a bar exactly if the whole of it matches from a position where it may start |
| RuleTreeLaws.AnswerIsBetween | internal/ruletree/ruletree.go:117-166 | whatever else is inserted, a pattern is answered between the strict and the lenient reading of a final `^` |
| RuleTreeLaws.AloneOrNot | internal/ruletree/ruletree.go:117-166 | a pattern not ending in `*^` is matched as if it were alone in the tree |
| RuleTreeLaws.NeighboursDecide | internal/ruletree/node.go:128-129 | a rule is in the answer exactly if a tree of its own would answer it, or if the lenient reading accepts and some rule of its kind ends, or two part, right before its last token |
| RuleTreeLaws.NeighboursMatter | internal/ruletree/node.go:205-209 | `a*^` alone does not match "https://ab", next to `a*` it does |
| RuleTreeLaws.AnswerMonotone | internal/ruletree/ruletree.go:36-166 | inserting more rules never loses a match |
| PatternMeaning.UrlsAreKnown | internal/ruletree/node.go:239-249 | the bytes that RFC 3986 allows in a URL, and no others, are those on which the code's separators are the documented ones |
| PatternSoundness.SoundAt | internal/ruletree/node.go:116-199 | what the matcher accepts is meant, from the same position or from later in the first run of separators, unless a `^` can take more than it stands for |
| AddressMeaning.NeverMoreIff | internal/ruletree/node.go:179-193 | a rule accepts only addresses it is documented to accept, exactly if no block of `^` is followed by a byte that ends a run with nothing before it that takes up the rest, or if it accepts nothing |
| AddressMeaning.NeverLessIff | internal/ruletree/node.go:116-199 | a rule accepts every address it is documented to accept, exactly if its last special tokens can share the end of the address and its `^` never meets a byte outside the code's list, or if it means nothing |
| AnswerMeaning.MatchedAsDocumented | internal/ruletree/tokenize.go:5-15 | among all addresses that `Get` takes, a rule of the tree is matched as documented exactly if it neither overreads nor underreads |
| AnswerMeaning.AnswerIsMeant | internal/ruletree/ruletree.go:117-166 | with such rules `Get` answers by the documented meaning, and, if values tell rules apart, only with such rules |
| AnswerMeaning.RunIsOneSeparator | internal/ruletree/node.go:179-193 | whatever else is inserted, `a^b` accepts "https://a//b", which it is not documented to |
| AnswerMeaning.HostIsMissed | internal/ruletree/node.go:145-150 | whatever else is inserted, `\|\|h^\|` misses "https://h", for every host h |
| AnswerMeaning.BraceIsMissed | internal/ruletree/node.go:237-249 | whatever else is inserted, `a^` misses "https://x/?a{" |
| HostForest.WalkIsMatch | internal/hostmatch/triestore.go:49-73 | the walk with its wildcard flag decides exactly the flat matching of reversed labels, `*` standing for one or more |
| HostForest.RootFinds | internal/hostmatch/triestore.go:97-109 | what a walk from the root can reach is exactly the data of the matching patterns |
| HostTrie.Node.SearchChildren | internal/hostmatch/triestore.go:43-47 | binary search over the sorted children finds the segment or its place |
| HostTrie.Node.FindOrAddChild | internal/hostmatch/triestore.go:30-41 | the child of the segment is returned, added at its sorted place when missing, and nothing else changes |
| HostTrie.TrieStore.Add | internal/hostmatch/triestore.go:86-95 | adds one (reversed pattern, data) to the entries and keeps the trie |
| HostTrie.TrieStore.Get | internal/hostmatch/triestore.go:97-109 | as a set, the data of exactly the added patterns that match the host |
| HostTrie.GetMatchingData | internal/hostmatch/triestore.go:49-73 | the recursion collects exactly what the walk can reach from the node |
| HostMatcher.Matcher.AddPrimaryRule | internal/hostmatch/hostmatcher.go:38-62 | what a call adds is what the laws about all calls say: patterns split between the stores by their `~`, all or nothing when one is empty |
| HostMatcher.Matcher.AddExceptionRule | internal/hostmatch/hostmatcher.go:64-82 | patterns up to the first empty one are added, and it fails if there is one; a failing call leaves the store alone exactly if the text starts with a comma |
| HostMatcher.FailedCallAdds | internal/hostmatch/hostmatcher.go:72-79 | a call fails exactly if nothing stands between two commas or between a comma and an end of the text, and has added nothing by then exactly if that is at the start |
| HostMatcher.ExceptionsAreNotAtomic | internal/hostmatch/hostmatcher.go:72-79 | on "a,,b" the exception for "a" stays added although the call fails |
| HostMatcher.Matcher.Get | internal/hostmatch/hostmatcher.go:84-120 | as a set, generic plus primary minus everything equal to a matching exception |
| HostMatcher.SubdomainsMatch | internal/hostmatch/hostmatcher.go:13-18 | a pattern matches every subdomain of the hostnames it matches |
| HostMeaning.PatternSays | internal/hostmatch/triestore.go:49-109 | said in texts: a hostname matches a pattern exactly if it is the pattern with every `*` label replaced by some text, or a subdomain of that |
| HostMeaning.AnswerIs | internal/hostmatch/hostmatcher.go:38-120 | after any calls, data is found for a host exactly if some rule with it is for the host, no exception with it is, and no rule with it excludes the host |
| HostMeaning.ExclusionsAreShared | internal/hostmatch/hostmatcher.go:99-117 | what each rule says by itself is answered exactly if no rule with the same data, whichever, excludes the host |
| HostMeaning.SharedExclusion | internal/hostmatch/hostmatcher.go:99-117 | of two rules with the same data, `d,~x` takes away on host x what `x` adds |
| FetchProtocol.StepKeepsInv | internal/filterliststore/filterliststore.go:185-377 | every step of every goroutine keeps the invariant that ties slots, flights, stale handles and visited URLs together |
| FetchRuns.AllRunsSafe | internal/filterliststore/filterliststore.go:185-377 | in every interleaving slots count exactly the fetches in a slot-holding phase and stay within capacity, a URL in flight has one leader, flights and stale handles are settled exactly once, no URL is fetched twice by one AddURL, a cache-only Get never waits for or makes a download, and nothing panics |
| FetchRuns.NoDeadlock | internal/filter/filter.go:193-307 | while some list is unfinished some goroutine can move, without any cancellation |
| FetchRuns.RoundsBounded | internal/filterliststore/filterliststore.go:197-213 | a waiting Get goes round at most once per competing Get of its URL |
| FetchOutcomes.GetEndsWith | internal/filterliststore/filterliststore.go:185-377 | in every run, by the steps the goroutine has taken: a finished Get has been read exactly if it found content in the cache, downloaded it, had its copy confirmed, or held an expired copy that could be read when its download failed and nobody had cancelled; otherwise it was cancelled, its download failed, or it was to use the cache only |
| FetchOutcomes.RetryBudget | internal/filterliststore/filterliststore.go:318-344 | a download that failed in passing is tried again exactly if no expired copy is held and it has failed so fewer than the allowed number of times |
| FetchOutcomes.LetIn | internal/filter/filter.go:193-219 | a goroutine goes on to fetch exactly if it is at most twenty includes deep and nobody of its list has been let in with its URL |
| FetchOutcomes.ComesFrom | internal/filter/filter.go:248-306 | every goroutine reads an added list, or an include that another one met while reading, for the same list, in the same mode and one level deeper |
| FetchEnds.IncludeSpends | internal/filter/filter.go:193-262 | an include uses up one of the goroutines its list was still entitled to start, the depth limit included |
| FetchEnds.OwnRank | internal/filterliststore/filterliststore.go:185-377 | every other step brings its own goroutine strictly closer to its end |
| FetchEnds.EveryScheduleEnds | internal/filter/filter.go:151-307 | every schedule reaches a point where all lists are finished, no slot is taken, no URL is in flight, and every flight and stale handle is settled once |
| Readers.CopyIsExact | internal/filterliststore/cachingreader.go:56-72 | the temporary file lives exactly while nothing has gone wrong, and then holds the bytes returned to the caller |
| Readers.CompletionIsExact | internal/filterliststore/cachingreader.go:56-118 | onComplete fires at most once, exactly when the download is whole (clean end, nothing lost, not empty, within the cap, as long as declared), with the bytes returned |
| Readers.CleanEofIsWhole | internal/filterliststore/cachingreader.go:73-97 | the caller is told of a clean end only after every byte of the declared length, or, when none was declared, after what the source delivered before it ended, and within the cap unless an earlier call was told that the body is too large |
| Readers.SlotFreedOnce | internal/filterliststore/fetchreader.go:50-88 | with the watchdog firing at any time the slot is freed exactly once, by the call that ends the stream, after the promotion and never before |
| Readers.OutcomeIs | internal/filterliststore/cachingreader.go:56-97 | what every read is told, exactly, by what the body has returned so far: fine only while the body goes on within the cap, a broken body always reported, too large, incomplete and empty each in their exact cases |
| Readers.EndsStreamIs | internal/filterliststore/fetchreader.go:50-82 | the stream ends, by the events, with exactly the calls that the reader answers with anything but success, or with a Close |
| Readers.WatchdogIs | internal/filterliststore/fetchreader.go:36-88 | a stall is noticed exactly if the timer fires while it runs, having been started, at first or by bytes, and neither fired nor stopped since; the request is cancelled exactly by that and by the end of the stream |
| Readers.CachingReader.Read | internal/filterliststore/cachingreader.go:56-97 | the fields after a read, and what the caller is told, are those of the step function the theorems are about |
| Readers.FetchReader.Read | internal/filterliststore/fetchreader.go:50-71 | as the step function; the error is blamed on a stall exactly when the watchdog fired and the end was not clean |
| Readers.FetchReader.Fire | internal/filterliststore/fetchreader.go:42-45 | the watchdog's callback does what the step function the theorems are about says |
| DiskCacheProtocol.StepKeepsInv | internal/filterliststore/diskcache/cache.go:227-371 | every step of Load, Promote, Refresh, Flush and of an outside deletion keeps content, entries, locks and snapshots consistent |
| DiskCacheRuns.AllRunsSafe | internal/filterliststore/diskcache/cache.go:227-371 | outside a promotion content and entry come from the same Promote, inside one the content is the old or the new one; the index on disk is a value the map has had; a call whose own index write succeeded has its change in it; a Load returns metadata its hash has had |
| DiskCacheRuns.OnlyRefreshChangesMetadata | internal/filterliststore/diskcache/cache.go:301-323 | reading an entry leaves its metadata alone; a Refresh keeps the lifetime and every validator it leaves empty |
| DiskCacheRuns.IndexNeverGoesBack | internal/filterliststore/diskcache/cache.go:334-371 | the snapshot on disk only moves forward through the values of the map |
| DiskCacheRuns.OnlyLostEntriesGo | internal/filterliststore/diskcache/cache.go:251-262 | an entry leaves the map only by the Load that looked it up, when its content is gone or about to be replaced; an entry promoted since is never removed |
| DiskCacheRuns.NoDeadlock | internal/filterliststore/diskcache/cache.go:272-371 | while some call is unfinished some call can move |
| DiskCacheRuns.MetadataCanBeOlder | internal/filterliststore/diskcache/cache.go:227-267 | a Load across a promotion returns old metadata with newer content |
| DiskCachePairs.LoadIsConsistent | internal/filterliststore/diskcache/cache.go:227-267 | in every run, a Load returns metadata and content of one promotion exactly if no promotion of its hash was between content and entry at its lookup and none replaced the content between lookup and opening |
| DiskCachePairs.NeverTwice | internal/filterliststore/diskcache/cache.go:227-267 | a Load looks up once and opens once, so that the two moments are its own |
| DiskCachePairs.RunIsTrace | internal/filterliststore/diskcache/cache.go:227-371 | every run is one of the traces that the exact conditions are about |
| DiskCacheReports.PromoteReports | internal/filterliststore/diskcache/cache.go:272-298 | a Promote returns without error exactly if it has installed its content and then its entry, and with one exactly if it could not install the content |
| DiskCacheReports.PromotedIsOnDisk | internal/filterliststore/diskcache/cache.go:293-371 | the entry of a Promote that returned without error is in the history of the index on disk exactly if some call, it or another, has renamed a snapshot no older than the entry into place |
| DiskCacheAccess.LastAccessIs | internal/filterliststore/diskcache/cache.go:227-323 | in every run the last access of an entry is the time of the last step that read, refreshed or installed it |
| DiskCacheAccess.ReadIsWritten | internal/filterliststore/diskcache/cache.go:236-252 | a Load has its access time written before it opens the content exactly if the entry was not used within the hour before |
| DiskCacheAccess.RegularReadsAreNotEnough | internal/filterliststore/diskcache/cache.go:27-30 | content read every half hour for more than 90 days, and nothing else, is deleted by a startup at the time of the last read |
| DiskCacheAccess.LoadComesBackEmpty | internal/filterliststore/diskcache/cache.go:227-267 | a Load returns no content only if the map did not have the hash, the content was missing, or the opening failed |
| DiskCacheAccess.LostEntryGoes | internal/filterliststore/diskcache/cache.go:254-262 | an entry whose content was found missing goes exactly if it is still the one looked up |
| DiskCacheAccess.RefreshExtends | internal/filterliststore/diskcache/cache.go:300-329 | a Refresh of a known hash sets its expiry and the validators given, and goes on to write the index; of another hash it changes nothing |
| DiskReconcile.Cache.Scan | internal/filterliststore/diskcache/cache.go:121-155 | the scan picks a latest legacy file per hash in any listing order and sweeps temporary and superseded files |
| DiskReconcile.Cache.LoadFromDisk | internal/filterliststore/diskcache/cache.go:94-222 | directory and entries after startup, exactly, with any removal or rename failing |
| DiskReconcileLaws.IndexMatchesDirectory | internal/filterliststore/diskcache/cache.go:182-199 | entry keys are exactly the stable content files |
| DiskReconcileLaws.ContentInUseIsKept | internal/filterliststore/diskcache/cache.go:182-216 | content survives with its record exactly if it has not expired, was read within 90 days (7 776 000 seconds), is unknown to the index, or cannot be removed; unknown content becomes stale, with a lifetime of a day and read now |
| DiskReconcileLaws.LatestLegacyIsAdopted | internal/filterliststore/diskcache/cache.go:144-180 | a legacy file of latest timestamp is taken over, under the record of the index or one that expires at that timestamp, and kept when the rename fails |
| DiskReconcileLaws.OnlyLeftoversGo | internal/filterliststore/diskcache/cache.go:121-161 | temporary files, and legacy files that a later one or a stable file makes useless, go unless they cannot be removed; names of no known form stay |
| DiskReconcileLaws.ContentIsOld | internal/filterliststore/diskcache/cache.go:157-180 | a stable file that was not there before has the content of a legacy file of its hash |
| DiskReconcileLaws.ListingOrderDoesNotMatter | internal/filterliststore/diskcache/cache.go:121-180 | the result is the same for every listing order, but for legacy names that differ in leading zeros only |
| DiskReconcileLaws.SecondStartupIsIdle | internal/filterliststore/diskcache/cache.go:94-222 | when no removal or rename fails, a second startup at the same time changes nothing |
| ConditionGrammar.EvalIsTheGrammar | internal/filter/directives.go:102-174 | evaluation succeeds with a value exactly when the text derives from the grammar within 32 levels and denotes it |
| ConditionGrammar.NestedNots | internal/filter/directives.go:29-29 | a word below any number of negations, behind any blanks: up to 31 are understood, and `adguard` is the only word that is true |
| Conditions.CondParser.Or | internal/filter/directives.go:126-134 | the cursor and the value after parsing alternatives are those of the parse |
| Conditions.CondParser.Unary | internal/filter/directives.go:146-174 | negation, brackets, identifiers and the depth limit, with the depth counter restored on every path |
| Conditions.EvalCondition | internal/filter/directives.go:107-118 | success means the text derives from the grammar with that value; failure means it derives with none |
| Directives.Blocks.Skip | internal/filter/directives.go:47-84 | two counters refine the stack of branches; a line is skipped exactly if it is a directive or some open branch is false |
| Directives.Blocks.Open | internal/filter/directives.go:86-87 | the counters add up to the height of the stack |
| Directives.Filter | internal/filter/filter.go:233-247 | the loop over a list keeps the lines, and leaves the open blocks, that the laws are about |
| Directives.Flipped | internal/filter/directives.go:61-74 | an `!#else` turns the innermost branch in the counters exactly as in the stack, repeated ones too |
| Directives.DirectiveKinds | internal/filter/directives.go:84-91 | a line is a directive exactly if one of the three names starts it and no letter, digit or underscore follows |
| Directives.FilterMeaning | internal/filter/directives.go:36-91 | filtering a properly nested list keeps exactly the lines of the branches whose conditions hold, and closes every block, whatever remarks follow the names of its directives |
| Escapes.FindUnescaped | internal/asset/scriptlet/parseargs.go:127-146 | the first occurrence that follows an even run of backslashes |
| Escapes.UnescapeChar | internal/asset/scriptlet/parseargs.go:148-168 | the output buffer cut back in place holds the unescaped text |
| Escapes.EscapeThenUnescape | internal/asset/scriptlet/parseargs.go:127-168 | an escaped value has no unescaped bound, and unescaping gives it back |
| Escapes.UnescapeThenEscape | internal/asset/scriptlet/parseargs.go:127-168 | a text without unescaped bound comes back from its value by escaping |
| ArgLists.ParseCanonicalArgList | internal/asset/scriptlet/parseargs.go:28-60 | the loop computes the parse that the round trips are about |
| ArgLists.SuccessIsRendering | internal/asset/scriptlet/parseargs.go:28-60 | every text that parses is a rendering of the list it yields, and that list can be bounded |
| ArgLists.RoundTrip | internal/asset/scriptlet/parseargs.go:28-60 | a list comes back from its rendering, in either quote style and with any blanks, exactly when each bounding quote and each end follows an even run of backslashes |
| ModifierText.SplitModifiers | internal/networkrules/rule/rule.go:205-241 | the loop computes the split that the laws are about |
| ModifierText.SplitInvertsJoin | internal/networkrules/rule/rule.go:205-241 | splitting undoes escaping and joining, for every non-empty list |
| ModifierText.FieldCount | internal/networkrules/rule/rule.go:205-241 | one field more than there are unescaped commas |
| ModifierText.SplitIsFields | internal/networkrules/rule/rule.go:205-241 | the scan with its flag splits every text as one without a state does, which looks one character ahead at a backslash |
| ModifierInterner.Rule.ParseModifiers | internal/networkrules/rule/rule.go:97-203 | the loop computes the parse that the laws are about, and a failed parse leaves the rule without a block |
| ModifierInterner.NothingSaid | internal/networkrules/rule/rule.go:98-203 | a parse succeeds without a block exactly if every modifier is a no-op |
| ModifierInterner.ParseMeans | internal/networkrules/rule/rule.go:98-203 | a parse fails exactly if some modifier is empty or cannot be read, and else its block has the flags said and the conditions, actions and query modifiers, each list in the order written |
| ModifierInterner.EveryRuleIsItsOwn | internal/networkrules/rule/interner.go:21-47 | in every interleaving of any number of rules, each ends with what a fresh parse of its own text gives, failures included, and so does everything in the map |
| ModifierInterner.LaterRulesShare | internal/networkrules/rule/interner.go:26-33 | once a rule with some text is parsed, every later one with that text takes the block in the map and makes none |
| RemoveParams.Params.ModifyQuery | internal/networkrules/rulemodifiers/removeparam.go:71-124 | each kind removes exactly the values it does not keep, in any order of the parameters, and reports a change |
| RemoveParams.FirstReport | internal/networkrules/rulemodifiers/removeparam.go:71-124 | on a parsed query a change is reported exactly when a shown value goes |
| NetworkRules.DoesCancel | internal/networkrules/exceptionrule/exceptionrule.go:13-80 | an exception cancels a rule when it is as important and as broad and everything it says is found in the rule |
| NetworkRules.ModifiersMatchReq | internal/networkrules/rule/rule.go:270-290 | all of the one group and, if there is any, one of the other group match |
| NetworkRules.ModifyReq | internal/networkrules/networkrules.go:27-87 | blocks iff some matching uncancelled rule has neither actions nor query modifiers; otherwise headers, query string and redirect are those left by all uncancelled rules together; the list of applied rules is the first that blocks, or those that touch what the ones before them left |
| NetworkRuleLaws.VerdictIsOrderFree | internal/networkrules/networkrules.go:27-87 | block, redirect and query string, and the headers unless the request is blocked, are the same for every enumeration of the same rules and exceptions |
| NetworkRuleLaws.ValueSurvives | internal/networkrules/networkrules.go:52-73 | a query value survives exactly when no uncancelled matching rule removes it |
| ExceptionLaws.VerdictIsMeant | internal/networkrules/networkrules.go:27-87 | for every result that ModifyReq can have, said of single rules: a request is blocked exactly if an effective rule has neither actions nor query modifiers; else exactly the headers and values go that an effective rule removes. A rule is effective if it applies and every exception that applies has something the rule does not answer |
| ExceptionLaws.RefusesIs | internal/networkrules/exceptionrule/exceptionrule.go:13-80 | why an exception leaves a rule alone: less important, for documents only, or with a condition, action, query modifier or whole alternative group that nothing in the rule answers |
| ExceptionLaws.UnansweredModifierLiftsNothing | internal/networkrules/exceptionrule/exceptionrule.go:66-77 | `@@\|\|x.com^$removeparam=a` lifts no block of `\|\|x.com^`, whatever the request |
| ExceptionLaws.FirstBlockerIsSaid | internal/networkrules/networkrules.go:51-60 | the rule reported to block is the first effective one, in the order enumerated, without actions and query modifiers |
| AppliedRules.TouchingIs | internal/networkrules/networkrules.go:51-73 | without a blocking rule, the applied rules are those that find a header, parameter or value present which no uncancelled rule before them changes |
| AppliedRules.ModifyReqIsOrderFree | internal/networkrules/networkrules.go:27-87 | every order of a set of rules gives the same applied rules, exactly if at most one blocks and, when none does, every rule that can change the request changes something no other uncancelled rule does |
| AppliedRules.AppliedDependsOnOrder | internal/networkrules/networkrules.go:51-73 | on a query `a=1`, of `removeparam` and `removeparam=a` only the one that comes first is applied |
| NetworkRuleLaws.OwnExceptionCancels | internal/networkrules/exceptionrule/exceptionrule.go:13-80 | a rule's own text as an exception cancels it; a bare exception cancels all but important rules |
| PolicyPatch.ReadsDirective | internal/csp/patch.go:126-133 | the name and sources the code cuts out are those of the parse when a space or nothing follows the name, and an unknown name otherwise |
| PolicyPatch.SafeNonce | internal/csp/patch.go:135-149 | a nonce is safe exactly when the list does not allow all inline content |
| PolicyPatch.StrictIs | internal/csp/patch.go:151-160 | the code takes for a nonce or hash exactly what section 2.3.1 of Content Security Policy Level 3 writes as one |
| PolicyPatch.AllowsAllInlineIs | internal/csp/patch.go:135-149 | allowing all inline content is that of section 6.7.3.2 of Content Security Policy Level 3 |
| PolicyPatch.AppendToken | internal/csp/patch.go:162-168 | the token is added to the sources, or replaces 'none' or an empty list |
| PolicyPatch.ParseJoined | internal/csp/patch.go:112-113 | joining the rewritten directives gives a policy that parses to them |
| PolicyReading.ParseReads | internal/csp/patch.go:85-98 | however a list of directives is written (any case, blanks, empty parts), its parse is that list, with names in lower case |
| PolicyPatcher.PatchLine | internal/csp/patch.go:85-115 | parsing the patched line gives the parsed line with the patch applied to the directive list |
| PolicyPatcher.PatchPolicies | internal/csp/patch.go:75-124 | every policy is patched in place on its own, and nothing is touched when none is governed |
| PolicyPatcher.Headers.PatchHeadersBatch | internal/csp/patch.go:30-73 | after any sequence of operations every policy of both headers parses to its directives with all patches applied in order, and a header in which none finds a directive stays as it is, byte for byte |
| PolicyPatcher.PatchIs | internal/csp/patch.go:85-115 | a patch changes one directive only, the first of highest priority |
| PolicyPatcher.TokenIsAdded | internal/csp/patch.go:104-112 | the patched list has the token behind everything it had, but in place of a lone 'none', and nothing else |
| PolicyPatcher.AllowAllInlineIsKept | internal/csp/patch.go:104-111 | allowing all inline content is neither gained nor lost, exactly unless the address offered is itself a nonce, hash or 'strict-dynamic' |
| PolicyPatcher.PatchesGoverning | internal/csp/patch.go:87-98 | the directive that governs by the fallback list of section 6.8.3 of Content Security Policy Level 3 (of the first name in the list that the policy has, the first directive) is the one patched iff a space or nothing follows its name |
| PolicyPatcher.NothingGoverns | internal/csp/patch.go:99-102 | a policy has a governing directive exactly if it has one of the names in the list, and stays as it is without |
| PolicyPatcher.TagMayRun | internal/csp/patch.go:104-111 | the patched directive lists the nonce, or the address where the list allows all inline content |
| PolicyPatcher.TabHidesDirective | internal/csp/patch.go:126-133 | policies whose only directive has a tab after its name are left alone |
| CertCache.CertLruCache.Get | internal/certgen/lru.go:55-73 | an expired host is dropped, a live one moves to the front, and never is an expired certificate returned |
| CertCache.CertLruCache.Put | internal/certgen/lru.go:75-103 | the item goes to the front of the recency sequence, at capacity the last one is evicted; map and list stay in bijection |
| CertCache.CertLruCache.Cleanup | internal/certgen/lru.go:36-50 | exactly the items go that have expired by the reading taken for them, in whatever order the map is walked, and the rest keep their order |
| CertCacheLaws.HistoryIs | internal/certgen/lru.go:55-103 | in every history the cache is within capacity, ordered by time of last use, and holds what was last put under each host |
| CertCacheLaws.EvictsLeastRecentlyUsed | internal/certgen/lru.go:90-96 | a new host at capacity evicts the host unused for longest, and only that |
| CertCacheLaws.PresenceIs | internal/certgen/lru.go:36-103 | in every history, what one more operation leaves in the cache, exactly: a live item stays until it is replaced, evicted as the one unused for longest, swept when expired, or purged, and nothing comes but what is put |
| CertCacheLaws.CleanupRemovesExpired | internal/certgen/lru.go:42-47 | cleanup removes exactly the items expired when their turn comes and does not reorder |
| CertIssuer.IntermediateIssuer.Current | internal/certgen/issuer.go:67-88 | the intermediate returned is valid at the reading; there is none only when a needed signature failed |
| CertIssuer.FailuresAreSpaced | internal/certgen/issuer.go:79-85 | failed early rotations are at least the retry interval apart, whatever the clock does in between |
| CertIssuer.SignaturesAreDaily | internal/certgen/issuer.go:71-87 | with a clock that does not go back, a signature leaves the hardware idle for the lifetime less the renewal margin |
| CertIssuer.MarginIsKept | internal/certgen/issuer.go:79-87 | while the hardware works nobody is given an intermediate with less than five minutes left, but in the minute after a failed early renewal |
| CertIssuer.IntermediateLifetime | internal/certgen/issuer.go:90-120 | the intermediate at hand was signed by one of the calls, for a day from then, backdated by an hour |
| CertIssuer.LeafLifetime | internal/certgen/get.go:45-59 | a leaf is backdated by an hour and lives for a day, or as long as its signer if that is less |
| CertIssuer.FreshLeafIsCached | internal/certgen/get.go:86-86 | a leaf whose signer has five minutes left is live in the cache at the reading it was made with |
| CertIssuer.LeafIsClamped | internal/certgen/get.go:45-59 | a leaf never outlives its signer and is unexpired when made exactly if the signer is |
| CertIssuer.CachedIsValid | internal/certgen/get.go:86-86 | whatever reading still finds a cached leaf live, the leaf has minutes left, and its signer at least as long |
| CertGenerator.Generator.GetCertificate | internal/certgen/get.go:23-89 | every certificate served, cached or fresh, after any history and any clock jumps, is unexpired and outlived by its signer, with the exact exception for a fresh one |
| CertHistory.ServedIsValid | internal/certgen/get.go:23-89 | in every history, what is served was made for the host asked for; from the cache it is valid, with its signer, exactly if the clock is not back by more than the hour of backdating since the leaf was made and since its intermediate was signed, and a fresh leaf exactly if its signer is valid at the leaf's reading |
| CertHistory.ServedAgain | internal/certgen/get.go:23-89 | a leaf just made is served again to the next call for its host while it has five minutes left, and made anew once it has 298 seconds left |
| CertHistory.SteadyClockServesValid | internal/certgen/get.go:18-20 | with a clock that never goes back by more than the backdate everything served from the cache is valid, and a fresh leaf unless its intermediate has expired since the issuer looked |
| CertHistory.CacheServesNotYetValid | internal/certgen/lru.go:55-73 | a leaf is served from the cache three hours before it was made |

## Left out

- Locks of the rule tree and the hostname matcher: they guard single operations, and the model takes those as atomic.
- `Compact`, the bit layout of `byteset`, `maphash` and md5: capacity and representation; hash collisions are excluded.
- The order of results of the rule tree's `Get`: a Go map decides it, and the model leaves it arbitrary.
- RuleTree.Tree.Get: URLs shorter than two bytes without a scheme are excluded, as the source slices past their end.
- FetchProtocol.StepKeepsInv: which lines a list contains, what the network answers, timers and cancellation are choices of each step; joining of outcomes, malformed URLs and resolving of include URLs are not modelled.
- FetchEnds.EveryScheduleEnds: each list is assumed to have finitely many includes, bounded over all lists, and downloads to end or be given up.
- Readers.CachingReader.Read: a byte count beyond 63 bits does not wrap, and a failed write is taken to abandon the copy whatever part of it reached the disk.
- DiskCacheProtocol.StepKeepsInv: retries of a rename are one choice, and a crash between steps is not a step.
- DiskReconcile.Cache.LoadFromDisk: sub-directories, an unreadable directory, the closing index write (part of the protocol instead) and timestamps within sixty billion seconds of the 63-bit limit; freshness is judged by one clock reading for the whole startup, where the source reads the clock for every entry.
- ModifierText.SplitModifiers: invalid UTF-8 in modifier text, which the source replaces.
- NetworkRules.ModifyReq: what conditions match, which conditions cancel each other, regular expressions and the URL library are parameters; order of header values is kept as it is.
- PolicyText.Parse: text outside ASCII; vertical tabs count as blanks as in Go, which the standard does not say.
- PolicyPatcher.Headers.PatchHeadersBatch: tokens with blanks or semicolons are excluded, and HTML meta tags are rewritten by a tokenizer that is not part of this model.
- CertGenerator.Generator.GetCertificate: keys, serial numbers and signing are outcomes of the environment; the server's and the cache's clocks are separate readings.
- CertHistory.ServedIsValid: calls of GetCertificate, passes of the cleanup and purges follow one another; calls that overlap, of which the locks only order the parts, are not in the histories.
- AddressMeaning.NeverMoreIff: the conditions range over all texts that `Get` takes, not only over URLs with a scheme and a host.
- Parsing of uBlock argument lists, of single modifiers and of rules, and `ModifyRes`: they would add easy members to what is proved about splitting, matching and removing.
- The proxy itself, TLS, system integration, user interface, scriptlets and configuration.
