# Yellowstone Common: verified model

This project models five components of Yellowstone Common in Dafny and proves what they promise.

* **Base62 codec** (`Bytes`, `Bits`, `Base62Bits`, `Base62Spec`, `Base62`, `Base62Encoding`). The code is specified
  as a relation between numbers and digit strings: a digit stands for six bits, digits 30 and 31 for five, lowest
  digit first. The two encoders read bit windows from the low-order end of the bytes, each in its own way; the decoder
  collects bits in an accumulator and fills its buffer from the back. All three are methods over the same loops,
  masks and shifts as the Go code, proved against the relation. `Base62Integer` is the radix-62 text of 64-bit
  integers.
* **Tables and pagination** (`Lex`, `Store`, `Tables`, `Pagination`, `PageWalks`, `Indexes`). The shared store is an
  ordered map from byte strings to byte strings. A table is the part of it under a table id; pages, tokens and walks
  from page to page are built on its scans, and the one-to-many indexes on its keys.
* **Portable snapshots** (`Portable`, `PortableRestore`, `PortableResults`, `PortableStreams`). A snapshot is a stream of frames; a restore
  clears the tables, reads streams frame by frame, keeps what its shard range owns, and commits every 512 entities.
* **Cache** (`Cache`, `CacheSteps`, `CacheSafety`, `CacheAnswers`, `CacheLimits`). A class for uncontended calls, and a
  machine of atomic steps for concurrent callers, flights, deletes, plain sets, the sweeper and the clock.
* **Replica prefix registry** (`Registry`, `RegistrySteps`, `RegistryResults`). A class for the locked
  read-modify-write, and a machine of atomic steps with a lock, snapshots, failures, restarts and other users of the
  store. Its invariant feeds the isolation theorem of `Tables`.

`dafny verify dfyconfig.toml` checks everything.

## Where the code differs from its documentation or falls short

* `NewEncoding` accepts an alphabet that repeats a symbol. Decoding inverts encoding exactly for alphabets without
  repetitions (`Base62.RoundTripNeedsDistinctSymbols`), and so do the integer forms
  (`Base62Integer.IntegersNeedDistinctSymbols`).
* `EncodeToBuf` and `DecodeToBuf` are documented to append to `dst`. For an empty source they return an empty slice
  and drop `dst` (`Base62Encoding.Encoding.EncodeToBuf`, `Base62Encoding.Encoding.DecodeToBuf`).
* The previous token of a forward page is the nearest smaller key exactly when no key of the table properly extends
  the page's token (`Pagination.PreviousTokenExactly`; a failing table: `Pagination.WrongPreviousToken`).
* Going back and on again, or on and back again, returns to the same place exactly when no key extends the tokens
  involved (`PageWalks.PreviousThenNext`, `PageWalks.NextThenPrevious`).
* A reverse walk returns the reversed list exactly when no key extends one of the tokens it comes to
  (`PageWalks.ReverseWalkOfTable`). Otherwise it returns a key twice (`PageWalks.ExtendedWalkRepeats`), and may never
  end: with keys `0` and `0 1` and a limit of 1 every page leads to itself (`PageWalks.ReverseWalkLoops`). Nothing in
  the table code asks for prefix-free keys.
* The one-to-many indexes are documented for arbitrary primary keys. For all histories they agree with a map from keys
  to sets of items exactly for prefix-free primary keys (`Indexes.AgreesExactly`, `Indexes.NumbersAgreeExactly`). With
  keys `1` and `1 2` a delete for one key takes away an item of the other (`Indexes.DeleteHitsOtherKey`), and with keys
  `1` and `1 0` listing the integers of the second reads an item of seven bytes and panics (`Indexes.ShortItem`).
* `OneToManySortedIndex.ListInRange` hands its visitor whole keys, primary key included, where `ListAll` hands it items
  (`Indexes.RangeListing`; a listing of one item both ways: `Indexes.WholeKeyVisited`).
* A plain `Set` may land after a leader's second look at the cache, so that a load starts although a live entry exists
  (`CacheLimits.LoadStartsDespiteEntry`). It makes this possible exactly if its entry is not yet expired when stored
  and the leader of the key is about to load, or is checking an entry that expires before the new one does
  (`CacheSafety.OvertakingExactly`, and over whole runs `CacheSafety.QuietExactly`). The load that then starts meets a
  live entry exactly if the last one stored since that look is neither removed nor expired
  (`CacheSafety.LoadMeetsLiveExactly`).
* The sweeper reads an entry and deletes the key in two steps. It removes a live entry exactly if the last one
  stored in between has been neither deleted nor expired (`CacheSafety.SweepDeletesLiveExactly`; a run: `CacheLimits.SweeperLosesFreshEntry`).
* Flights are shared by the rendering of the key. Callers that use certain keys are answered for their own key in every
  run exactly when no two of these keys have the same rendering (`CacheAnswers.AnswersOwnKeyExactly`). `fmt.Sprint`
  gives the structs `{"a b", "c"}` and `{"a", "b c"}` the same rendering (`CacheAnswers.SprintAnswersOtherKey`), as it
  does exactly when a space is shifted between the fields (`CacheAnswers.SprintExactly`); keys without a space in the
  first field are safe (`CacheAnswers.SpacelessAnswersOwnKey`).

## Model

The main results come first, then the lemmas they rest on and the inputs on which the code falls short, then the
operations of the classes.

| member | source | states |
|---|---|---|
| Base62.RoundTrip | encoding/base62/base62.go:142-169 | For every byte string, whatever its length and leading zeros, and every alphabet without repeated symbols, the encoding can be decoded and decodes to that byte string |
| Base62.RoundTripNeedsDistinctSymbols | encoding/base62/base62.go:24-43 | The round trip holds for all byte strings if and only if the alphabet repeats no symbol, which the constructor does not check |
| Base62Encoding.DecodeInto | encoding/base62/base62.go:228-259 | Decoding into a buffer of len*6/8+1 bytes stays inside it, leaves what is before it alone, ends with the big-endian bytes of the weighted digit sum, and fails exactly at the first byte outside the alphabet |
| Base62.ReencodingIsCanonical | encoding/base62/base62.go:142-156 | For a non-empty valid string, encoding what it decodes to gives it back if and only if one to six bits are left for its last digit, the digit fits them, and it is not a lone 0 bit after digit 30 or 31 |
| Base62Encoding.Encoding.DecodeToBuf | encoding/base62/base62.go:203-224 | For a valid source the result is the first len bytes of dst followed by the decoding if and only if the source is not empty or len is 0; in place exactly when the buffer has room, after the overlapping move and the final cut; the first len bytes of dst never change |
| Base62.EncodedLength | encoding/base62/base62.go:142-169 | n bytes give between ceil(8n/6) and ceil(8n/5) symbols; all zeros give the fewest, all 0xFF the most |
| Base62Encoding.Encoding.EncodeV1 | encoding/base62/base62.go:54-61 | The obsolete encoder gives the same output on every input |
| Base62Encoding.Encoding.EncodeV2 | encoding/base62/base62.go:63-70 | And so does the current one |
| Base62Integer.UintRoundTrip | encoding/base62/integer.go:10-65 | Every 64-bit unsigned number is parsed back from its text |
| Base62Integer.IntRoundTrip | encoding/base62/integer.go:4-50 | Every 64-bit signed number, negative ones included, is parsed back from its text |
| Base62Integer.IntegersNeedDistinctSymbols | encoding/base62/integer.go:4-65 | All unsigned numbers survive formatting and parsing, and all signed ones, if and only if the alphabet repeats no symbol |
| Base62Integer.ReformattingIsCanonical | encoding/base62/integer.go:23-65 | Formatting what a valid string parses to gives it back if and only if it is not empty, has no leading zero digit unless that is its only one, and its value is below 2^64 |
| Base62Integer.TextIsShortest | encoding/base62/integer.go:23-39 | No non-empty string with the same radix-62 value is shorter |
| Tables.TablesAreIsolated | honey/tables.go:25-36 | Any interleaving of operations of tables with pairwise incomparable ids answers and ends as a family of private maps would, and touches no row outside the tables |
| Tables.IsolatedExactly | honey/tables.go:25-36 | Tables act as private maps in every run of calls from every store if and only if no table id is a prefix of another |
| PageWalks.ForwardWalkIsSafe | honey/tables.go:109-162 | With arbitrary changes of the table between requests and any limit, a forward walk returns strictly increasing keys under the prefix, so none twice, and once it ends it has returned every key present throughout |
| PageWalks.ForwardWalkOfTable | honey/tables.go:103-165 | On an unchanged table the forward pages concatenate to all keys under the prefix in order and the walk ends after ceil(n / limit) requests |
| PageWalks.ReverseWalkOfTable | honey/tables.go:166-206 | On an unchanged table the reverse walk from the last key ends with the reversed list if and only if no key extends one of its tokens, every limit-th key below the last; it then takes ceil(n / limit) requests |
| PageWalks.ExtendedWalkRepeats | honey/tables.go:166-206 | When a key extends one of its tokens, the reverse walk from the last key of an unchanged table returns a key twice |
| PageWalks.NextThenPrevious | honey/tables.go:126-206 | For every forward page with a next token, the page behind the next page's previous token holds the first page's keys in descending order if and only if no key extends the next token's key or the page's last key |
| PageWalks.PreviousThenNext | honey/tables.go:126-206 | For every key under the prefix, the page behind a forward page's previous token has the original token as its next token if and only if no key extends that token's key |
| Pagination.PreviousTokenExactly | honey/tables.go:127-141 | A forward page's previous token is the nearest smaller key under the prefix if and only if no key of the table properly extends the page's token |
| Pagination.ListPrefixedPaginated | honey/tables.go:103-209 | All three branches: at most limit keys of the table under the prefix, each with the value the table holds, in the request's direction, and none left out before the token the page gives; tokens name keys under the prefix, and a request without a token gets no previous token |
| Pagination.AnyTokenForward | honey/tables.go:126-165 | After any token, under the prefix or not, a forward page shows exactly the keys from the token on, up to the first key of the table that is not under the prefix, and leaves out only what its next token comes before |
| Pagination.AnyTokenReverse | honey/tables.go:166-206 | A reverse page after any token is the mirror image, the token's extensions first |
| Indexes.AgreesExactly | honey/tables.go:586-649 | For every set of primary keys: after every history of adds and deletes the listing of each key is exactly its live items in ascending order, and it has a row exactly when it has one, if and only if no primary key is a prefix of another |
| Indexes.NumbersAgreeExactly | honey/tables.go:536-584 | The same for integer items: no listing panics, and each is the live numbers in increasing order, if and only if no primary key is a prefix of another |
| Indexes.RangeListing | honey/tables.go:603-610 | The range listing stays under its primary key and visits its items in order with the primary key in front, so it visits the items themselves if and only if the primary key is empty or there are none |
| PortableRestore.RestoreSnapshot | honey/portable.go:131-210 | For every choice of failing clears, insertions, commits and flatten: no error is reported exactly if nothing fails. The tables before the first failing clear are cleared; past clearing, the rows are those of the first `durable` kept entities over the cleared tables, where durable is 512 * n if the n-th commit is the first to fail, else k - k % 512 on a read error or failed insertion after k entities, else all k; the error is the one that stopped it; success leaves one unchunked pass |
| PortableResults.RestoreWritten | honey/portable.go:131-210 | After restoring a written snapshot, whatever the target held, a section holds a row exactly if its namesake does and lower <= shard key <= upper, and it has exactly the index rows that its rows call for |
| PortableStreams.RestoredExactly | honey/portable.go:131-210 | After a restore of any streams, each section's row for a key is the value of the last record, over all streams in order, that stands under the section's name, has the key and lies in the bounds; without one there is no row; the index rows are exactly those its rows call for |
| PortableStreams.StreamExactly | honey/portable.go:161-202 | A stream is read up to its first record without a section of its table's name, or undecodable by the last such section, which decides the error; otherwise the error is how the stream ends; each section gets its last versions before that |
| PortableStreams.ReadsExactly | honey/portable.go:161-202 | Streams are read without error if and only if each ends cleanly and every record has a section that decodes it |
| PortableStreams.KeptInOrder | honey/portable.go:187-202 | Entities are kept in the order of their records, one for each record in the bounds and none for other frames |
| PortableRestore.WriteSnapshot | honey/portable.go:101-123 | The first frame is the core's name; then, for each section once and in declared order, its name and between it and the next one record for each of its primary entities, with their values, in strictly ascending key order, and nothing else |
| PortableRestore.WrittenFrames | honey/portable.go:101-123 | For every database and section list there are positions at which the sections start and stop, one after the other, so that the written frames are the core's name and these sections |
| PortableRestore.SucceedsExactly | honey/portable.go:131-210 | A restore past clearing succeeds if and only if no read, insertion, commit or flatten fails |
| PortableResults.WrittenReadsExactly | honey/portable.go:176-190 | Any core reads any written snapshot without error if and only if, for each section that is not empty, it has a section of that name which decodes the entities |
| PortableResults.SplitThenMerge | honey/portable.go:12-16 | Splitting a core in two and merging the halves gives back every section by name, entities and index, for cores that declare sections in any order and possibly more |
| PortableResults.MergeIsUnion | honey/portable.go:125-130 | Restoring two snapshots gives the union of what the bounds own of each, the second stream's version winning; if what they own is disjoint the order of the streams does not matter, however the snapshots overlap elsewhere |
| PortableResults.OrderIsIrrelevant | honey/portable.go:128-130 | Streams that are disjoint after filtering give the same tables in any order |
| PortableResults.UnionOfStreams | honey/portable.go:125-130 | Disjoint streams restored together give the union of what each brings |
| CacheSafety.StepKeepsInv | cache/cache.go:155-184 | Every step of callers, flights, deletes, plain sets, sweeper and clock keeps the invariant: leaders hold their slot, taken slots have a leader, sharers match their flight, flights load at most once, entries come from loads |
| CacheSafety.RunKeepsInv | cache/cache.go:155-184 | Hence every run does |
| CacheSafety.LoadStartsOnMiss | cache/cache.go:156-165 | In every quiet run, and so in every run whose entries are stored by GetOrLoad, a load that starts finds no live entry for its key, is its flight's first, and no other caller is in a flight for that rendering |
| CacheSafety.OvertakingExactly | cache/cache.go:156-165 | In a reachable state from which no load can start over a live entry without a plain set, a step makes one possible if and only if it is a plain set of an unexpired entry under a leader about to load, or under one checking an entry that expires before the new one |
| CacheSafety.QuietExactly | cache/cache.go:156-165 | Over every run, at no point such a load is possible if and only if no plain set overtakes a leader |
| CacheSafety.LoadMeetsLiveExactly | cache/cache.go:160-166 | Over every run: a load that starts meets a live entry if and only if the last entry put under its key since its leader's second look has been neither removed nor expired |
| CacheSafety.BetweenLoads | cache/cache.go:146-165 | In a quiet run, between the entry one load leaves and the start of the next load for the key, that entry or what replaced it last has been deleted, swept or has expired |
| CacheSafety.SharersAgree | cache/cache.go:148-150 | Any two callers of one flight, at any two times, report the same outcome: the flight's result, which is its one load's if it loaded, an error with the zero value |
| CacheSafety.SweepDeletesLiveExactly | cache/cache.go:92-103 | Whatever happens between the sweeper's look and its delete, the delete removes a live entry if and only if the last entry put under the key since, computed from the steps alone, has been neither deleted nor expired |
| CacheSafety.WaitersHaveALeader | cache/cache.go:160 | A waiting caller's flight has its result, or its leader is in it and can give it one by its own steps |
| Cache.Cache.GetOrLoad | cache/cache.go:155-184 | Alone: the load runs exactly if no entry is present that never expires or has not expired; otherwise that entry answers. A loaded value is returned and stored, live exactly until now + ttl or for ever; an error is returned with the zero value, and stored exactly if the predicate exists and accepts it, live exactly until now + negativeTtl or for ever; nothing else changes |
| CacheLimits.LeaderStores | cache/cache.go:160-176 | In the machine, whatever others do meanwhile: a leader stores its value or cacheable error, and only these, with the expiry counted from when the entry was built, and changes no other entry |
| CacheLimits.AloneIsSequential | cache/cache.go:155-184 | One caller's steps with nothing in between do what the sequential GetOrLoad promises, answer and stored entry spelled out |
| CacheAnswers.AnswersAreLoaded | cache/cache.go:155-184 | In every run without plain sets, each outcome reported, cached, shared or own, is what one load for a key of the same rendering gave |
| CacheAnswers.AnswersOwnKeyExactly | cache/cache.go:160 | For every set of keys, callers that use only these are answered by loads for their own key in all runs without plain sets if and only if the rendering is injective on the set |
| RegistrySteps.StepKeepsInv | honey/replica_prefix.go:54-59 | Every step keeps the registry sound, the lock exclusive and never left behind, what the holder has read valid, and every answer given true |
| RegistrySteps.RunKeepsInv | honey/replica_prefix.go:48-52 | Over every run with concurrent callers, failures, commits of unknown outcome, restarts and foreign writes, assignments are only added and none changes |
| RegistryResults.PrefixesInUse | honey/replica_prefix.go:103-116 | In every run from an empty store the assignment is injective, its image is exactly the prefixes 1 to the counter, there are as many ids as the counter says, and it never exceeds 65535 |
| RegistryResults.AnswersAgree | honey/replica_prefix.go:71-74 | Any two prefixes handed out, before and after whatever else happens, are equal if and only if the ids are |
| RegistryResults.ExhaustedForever | honey/replica_prefix.go:103-106 | Once all numbers are used the assignments never change again |
| RegistryResults.ToldExhausted | honey/replica_prefix.go:103-106 | A caller told so has no prefix and never gets one, and all 65535 are assigned |
| RegistryResults.ReplicasAreIsolated | honey/replica_prefix.go:37-46 | Any calls of such tables act as on private maps, one for each table, and leave the registry's rows and all assignments as they are |
| Registry.Registry.GetOrAssignPrefix | honey/replica_prefix.go:75-122 | On any stored rows and for every choice of failing store calls: an assigned id keeps its prefix; a new one succeeds exactly if no call fails and the last number is below 65535, gets the next number's two bytes and has them stored under it and as the last number; otherwise the rows are unchanged and the error names what stopped it first; a sound registry stays sound |
| Registry.RequestMeaning | honey/replica_prefix.go:70-122 | A request on any rows, with any store calls failing: the stored bytes, the answer and which failure comes first, in terms of the keys 0 0 1 and 0 0 2 |
| RegistryResults.LockComesBack | honey/replica_prefix.go:80-81 | In every run the lock is free or with a caller whose own steps give it back, after which a caller who wants it can take it |
| Base62.RepeatedSymbolFails | encoding/base62/base62.go:39-41 | With a symbol at two positions, the one-byte string of the smaller position does not survive |
| Base62.OneByte | encoding/base62/base62.go:142-156 | The code of every one-byte string: five low bits if these are 30 or 31 and six otherwise, then the rest |
| Base62.RemainingStep | encoding/base62/base62.go:145-153 | Both encoders' step: the window's digit is the first digit of the bits left, and the digits after it are those of the bits that stay |
| Base62.ForwardWindow | encoding/base62/base62.go:103-118 | The obsolete encoder's shifts and masks over one or two bytes give the low six bits, including the short last window |
| Base62.BackwardWindow | encoding/base62/base62.go:158-169 | So do the current encoder's |
| Base62Bits.CompactMask | encoding/base62/base62.go:119 | Among six-bit windows the mask x1111x picks out 30, 31, 62 and 63 |
| Base62Bits.PrefixShift5 | encoding/base62/base62.go:144-153 | Moving the position by five drops the low five bits of the number formed by the first bits of the source |
| Base62Bits.PrefixShift6 | encoding/base62/base62.go:144-153 | Moving it by six drops six |
| Base62Spec.NumberOfDigits | encoding/base62/base62.go:142-156 | The weighted sum of the digits of a number is the number |
| Base62Spec.WidthOfDigits | encoding/base62/base62.go:142-156 | Encoding leaves one to six bits to the last digit, so a decoder counts at most six bits fewer than were encoded |
| Base62Spec.UnpackOfDigits | encoding/base62/base62.go:228-259 | Hence decoding emits exactly as many bytes as were encoded, with the same contents |
| Base62Spec.CanonicalExactly | encoding/base62/base62.go:142-156 | A digit string is the encoding of its value in p bits if and only if it is canonical for p |
| Base62Spec.CanonicalStrings | encoding/base62/base62.go:142-156 | The same for whole bytes, with the condition in terms of the widths of the string's own digits |
| Base62Encoding.TakeDigit | encoding/base62/base62.go:237-246 | Or-ing a digit in at the position adds it at its weight, and the accumulator stays below two to the number of bits it holds |
| Base62Encoding.EmitByte | encoding/base62/base62.go:247-252 | Writing a byte out in front keeps the value of bytes and accumulator together |
| Base62Encoding.EmitRest | encoding/base62/base62.go:254-257 | At the end the bytes are the big-endian form of the value, ceil(width / 8) of them |
| Base62Integer.AppendUint | encoding/base62/integer.go:23-39 | Appends the radix-62 text; the eleven-byte buffer is never overrun |
| Base62Integer.ElevenDigits | encoding/base62/integer.go:29 | Eleven digits hold every 64-bit number |
| Base62Integer.FormatUint | encoding/base62/integer.go:10-13 | The text of a number, at most eleven symbols |
| Base62Integer.TwoSymbols | encoding/base62/integer.go:23-39 | The more significant digit comes first |
| Base62Integer.LeadingDigit | encoding/base62/integer.go:52-65 | The symbol in front has the highest weight |
| Base62Integer.FormatInt | encoding/base62/integer.go:4-7 | The text of the number itself, or of the number plus 2^64 if it is negative; at most 11 symbols |
| Base62Integer.ParseUint | encoding/base62/integer.go:55-65 | The radix-62 value modulo 2^64, or the first offending index |
| Base62Integer.ParseInt | encoding/base62/integer.go:44-50 | The signed 64-bit number congruent to the radix-62 value modulo 2^64, or the first offending index |
| Base62Integer.WrapStep | encoding/base62/integer.go:62 | Wrapping at every digit is wrapping once at the end |
| Lex.PrefixContiguous | honey/tables.go:64-68 | Keys that share a prefix are contiguous in key order |
| Lex.LtMeaning | honey/tables.go:76-94 | In the order of the scans the first byte that differs decides, and a proper prefix comes first |
| Tables.RangeRefines | honey/tables.go:76-94 | A range scan of a table, with the table id itself as the missing bound, visits only the table's rows, and exactly those a scan of the table's private map would visit, in the same order |
| Tables.PrefixRefines | honey/tables.go:64-74 | The same for prefix scans |
| Tables.ViewSet | honey/tables.go:52-54 | Writing under a table id sets one key of that table and changes no table with an incomparable id |
| Tables.ViewDelete | honey/tables.go:56-58 | The same for deletes |
| Tables.SharedRefinesPrivate | honey/tables.go:48-94 | One operation on the shared store gives the answer and the effect of the private map and leaves incomparable tables alone |
| Pagination.Fill | honey/tables.go:110-121 | The page-filling visitor takes at most limit keys under the prefix with their values, and its token is the key that did not fit |
| Pagination.Nearest | honey/tables.go:127-141 | The neighbour visitor finds the first key under the prefix other than the token |
| Pagination.ForwardVisits | honey/tables.go:146-162 | A forward request sees exactly the keys under the prefix from the token on, in order |
| Pagination.ReverseVisits | honey/tables.go:186-202 | A reverse request sees exactly the keys under the prefix down from the token, extensions of the token included, in descending order |
| Pagination.WrongPreviousToken | honey/tables.go:127-141 | With keys 0 and 0 1 the forward page from 0 has nothing before it, yet its previous token is 0 1 |
| Pagination.ReverseTop | honey/tables.go:186-202 | A reverse request sees its token first exactly when no key extends it, and a larger key first otherwise |
| PageWalks.ForwardPageAt | honey/tables.go:126-165 | On an unextended key, the forward page holds the next limit keys, the key after them as next token, the key before as previous token |
| PageWalks.ReversePageAt | honey/tables.go:166-206 | On an unextended key, the reverse page mirrors this |
| PageWalks.RequestsIsCeiling | honey/tables.go:103-209 | The number of requests in the walk theorems is ceil(n / limit) |
| PageWalks.ReverseNext | honey/tables.go:167-181 | The next token of a reverse page is the key after its token, extended or not |
| PageWalks.ReverseWalkLoops | honey/tables.go:186-202 | On keys 0 and 0 1 with limit 1 no number of requests ends a reverse walk |
| PageWalks.LaterMeaning | honey/tables.go:191-196 | The keys called tokens of the walk are those a positive multiple of the limit below its start |
| Indexes.BigEndianOrder | honey/tables.go:680-690 | Big-endian encoding keeps order and distinctness |
| Indexes.WholeKeyVisited | honey/tables.go:603-610 | Primary key 1 with item 2: the range listing visits 1 2, the full listing 2 |
| Indexes.DeleteHitsOtherKey | honey/tables.go:637-645 | Adding 2 3 to key 1 and deleting 3 from key 1 2 leaves the index empty |
| Indexes.ShortItem | honey/tables.go:547-551 | One number added to key 1 makes the listing of key 1 0 meet an item of seven bytes |
| Portable.InsertKeepsIndex | honey/portable.go:46-50 | The normal write path keeps the secondary index equal to the one derived from the primary entities |
| Portable.InsertedInto | honey/portable.go:46-50 | An insertion changes one row of one section's table and only that entity's index rows |
| Portable.ReplayedState | honey/portable.go:125-130 | Inserting kept entities into cleared tables leaves each section its last version of each, with the derived index, and changes no other table |
| PortableRestore.Commit | honey/portable.go:152-159 | A commit makes all of the transaction's tables durable or changes nothing |
| PortableRestore.RestoringCommit | honey/portable.go:149-159 | A chunk's commit makes everything inserted so far durable |
| PortableRestore.RestoreStream | honey/portable.go:161-202 | One stream: without an error the restore stands exactly before the next stream, with at most 511 entities uncommitted; with one, error and durable rows are those of the specification |
| PortableRestore.ClearAll | honey/portable.go:138-142 | Clears exactly the tables before the first that fails |
| PortableResults.RestoredState | honey/portable.go:125-130 | After it each section holds its final entities with exactly the derived index, and no other table changed |
| PortableResults.WrittenReadsBack | honey/portable.go:101-123 | Any core with a section for each name reads a written snapshot without error, and each of its sections, in whatever order, gets exactly what the bounds own of its namesake |
| PortableResults.SplitIsPartition | honey/portable.go:34-37 | Two ranges that cut a range split its entities into disjoint halves whose union is the whole |
| CacheSafety.OneLeader | cache/cache.go:160 | In every run at most one caller at a time is inside a flight, and so loads, for one rendered key |
| CacheSafety.LoadedOnlyIsQuiet | cache/cache.go:187-204 | Runs whose entries are stored only by GetOrLoad are quiet |
| CacheSafety.RunGrows | cache/cache.go:160 | Flights are never forgotten, and their load result and result never change once set |
| CacheSafety.OnlyCacheableErrorsStored | cache/cache.go:166-173 | In every run only errors the predicate accepts are stored, and with the zero value |
| CacheSafety.OthersOnlySet | cache/cache.go:160-176 | While a caller is in a flight for a key, others store under that key only by plain sets |
| CacheSafety.LoadOverLiveExactly | cache/cache.go:156-165 | From every reachable state a load can start over a live entry without a further plain set if and only if a leader about to load has one, or one checking an entry has a live entry that outlives it |
| CacheSafety.LeaderCanMove | cache/cache.go:160-178 | In every reachable state a leader has an enabled step, which brings it nearer to its flight's result |
| CacheSafety.LeaderCanFinish | cache/cache.go:160-178 | So a leader's own steps finish its flight, whatever its load gives |
| CacheAnswers.CollisionAnswersOtherKey | cache/cache.go:160 | If two keys share a rendering, a run exists in which a caller gets the other key's load |
| CacheAnswers.SprintAnswersOtherKey | cache/cache.go:160 | With the rendering in use, a run in which the caller for {"a","b c"} is answered by the load for {"a b","c"} |
| CacheAnswers.SprintExactly | cache/cache.go:160 | Two struct keys have the same rendering if and only if they are equal or one is the other with a space shifted between its fields |
| CacheAnswers.SpacelessAnswersOwnKey | cache/cache.go:160 | With the rendering in use, callers whose keys have no space in the first field are always answered for their own key |
| CacheLimits.SweeperLosesFreshEntry | cache/cache.go:92-103 | A run in which the sweeper removes an entry that never expires |
| CacheLimits.LoadStartsDespiteEntry | cache/cache.go:162-166 | A run with a plain set after which a load can start under a live entry |
| Registry.NumberedNext | honey/replica_prefix.go:103-116 | Giving a new id the next number keeps the prefixes in use exactly 1 to the counter, one for each id |
| Registry.AssignmentIsSound | honey/replica_prefix.go:97-119 | The two writes of an assignment do just that to the stored rows |
| Registry.ResolveIsSound | honey/replica_prefix.go:70-122 | A request keeps the registry sound: an assigned id keeps its prefix, a new one gets the next, a failure stores nothing, and no row outside the registry's own changes |
| Registry.ResolveSucceedsExactly | honey/replica_prefix.go:70-106 | Without store failures a request succeeds if and only if the id is not empty and is assigned or a number is left |
| RegistryResults.TableIdsIncomparable | honey/replica_prefix.go:37-46 | Table ids built from assigned prefixes are pairwise incomparable if each replica keeps its own apart, and incomparable with the registry's own prefix |
| RegistryResults.RequestIsSequential | honey/replica_prefix.go:75-122 | One caller's steps with nothing in between do what the sequential request promises |
| Base62.Encoder.constructor | encoding/base62/base62.go:93-98 | A new encoder has all bits left |
| Base62.Encoder.Next | encoding/base62/base62.go:100-128 | The forward, split window is the low six bits of the number formed by the bits left; the digit and the new position are those of the code, and more is reported exactly while bits are left |
| Base62.Encoder.Get6Bits | encoding/base62/base62.go:158-169 | The backward window is the low six bits of the same number |
| Base62.Encoder.Encode | encoding/base62/base62.go:130-140 | The obsolete encoder appends exactly the code's symbols |
| Base62.Encoder.EncodeV2 | encoding/base62/base62.go:142-156 | The current encoder terminates and appends the same symbols |
| Base62Encoding.Encoding.constructor | encoding/base62/base62.go:24-43 | The decode map sends each byte to its last position in the alphabet and all others to 0xFF |
| Base62Encoding.Encoding.Encode | encoding/base62/base62.go:46-48 | Encoding gives the code's symbols |
| Base62Encoding.Encoding.EncodeToBuf | encoding/base62/base62.go:80-86 | The result is dst followed by the encoding if and only if the source is not empty or dst is; otherwise it is empty |
| Base62Encoding.Encoding.Decode | encoding/base62/base62.go:180-191 | Succeeds exactly on strings over the alphabet and otherwise reports the first offending index |
| Tables.Table.constructor | honey/tables.go:38-46 | A table keeps its id, which is not empty |
| Tables.Table.Get | honey/tables.go:48-50 | The value of the row under the table's id and the key, if there is one |
| Tables.Table.Set | honey/tables.go:52-54 | Sets one key of the private map and nothing else |
| Tables.Table.Delete | honey/tables.go:56-58 | Deletes one key of the private map and nothing else |
| Tables.Table.PrefixExists | honey/tables.go:60-62 | True exactly when some key of the table has the prefix |
| Tables.Table.EachPrefix | honey/tables.go:64-74 | The table's keys under the prefix in ascending order, ids stripped, as the private map's scan gives them |
| Tables.Table.ListInRange | honey/tables.go:76-94 | The table's keys between the bounds, a bound above covering its extensions and an absent one being none, in the asked direction, ids stripped |
| Tables.Table.EachEntry | honey/tables.go:225-227 | All keys of the table in ascending order |
| Indexes.OneToManySortedIndex.constructor | honey/tables.go:591-595 | The index is a table under its id |
| Indexes.OneToManySortedIndex.Add | honey/tables.go:637-640 | Sets the row of table id, primary key and item to an empty value, and nothing else |
| Indexes.OneToManySortedIndex.Delete | honey/tables.go:642-645 | Takes exactly that row out |
| Indexes.OneToManySortedIndex.NotEmpty | honey/tables.go:647-649 | True exactly when some row is under the primary key |
| Indexes.OneToManySortedIndex.ListAll | honey/tables.go:597-601 | Exactly the items that follow the primary key in some row, in ascending order |
| Indexes.OneToManySortedIndex.ListInRange | honey/tables.go:603-610 | The whole keys between the bounds in ascending order |
| Indexes.OneToManyUint64Index.constructor | honey/tables.go:541-545 | The index is a table under its id |
| Indexes.OneToManyUint64Index.Add | honey/tables.go:572-575 | Sets the row of table id, primary key and the number's eight bytes to an empty value, and nothing else |
| Indexes.OneToManyUint64Index.Delete | honey/tables.go:577-580 | Takes exactly that row out |
| Indexes.OneToManyUint64Index.List | honey/tables.go:547-551 | The first eight bytes of each item after the primary key, read as numbers, in the order of the items; every item has eight when the primary keys are prefix-free |
| PortableRestore.StoreTxn.RestoreEntity | honey/portable.go:46-50 | An undecodable record, or one in the bounds that the transaction does not take, changes nothing and is an error; otherwise the entity is inserted exactly if lower <= shard key <= upper |
| Cache.Cache.constructor | cache/cache.go:71-88 | A new cache is empty |
| Cache.Cache.GetItem | cache/cache.go:116-130 | Returns the stored entry exactly if it is present and never expires or has not yet |
| Cache.Cache.Get | cache/cache.go:135-144 | Found exactly for a live positive entry; negative entries read as not found |
| Cache.Cache.SetWithTTL | cache/cache.go:193-204 | Stores the value, expiring at now + ttl, or never for a TTL of 0 or less, and keeps all stored errors cacheable |
| Cache.Cache.SetNegative | cache/cache.go:207-218 | Stores a cacheable error with the zero value, expiring at now + negativeTtl or never |
| Cache.Cache.Delete | cache/cache.go:221-223 | Removes one entry |
| Cache.Cache.Sweep | cache/cache.go:92-103 | A sweep with no other activity removes exactly the expired entries |
| Registry.Registry.constructor | honey/replica_prefix.go:66-68 | The registry works on the store it is given |
| Registry.Registry.ReadCounter | honey/replica_prefix.go:151-160 | The number of the first two bytes under 0 0 2, 0 if there are none, or the store's failure |
| Registry.Registry.AllPrefixes | honey/replica_prefix.go:126-146 | Exactly the ids with a row under 0 0 1, each with its value |

## Left out

- `middleware`, `metrics`, `workers`, `codegen`, `validatortest` and `utils`: bindings to libraries, timers, files and Go syntax trees that are not part of this model.
- `encoding/base62/default.go` and the string variants of the codec: they forward to the methods modelled.
- `AppendInt`: the same call as `FormatInt` onto a buffer.
- Base62Encoding.Encoding.EncodeToBuf: dst is a value, so sharing between dst and the result when dst has spare capacity is not modelled.
- Base62Encoding.DecodeInto: the bytes it leaves in the buffer in front of the result, and in a failed call, are not specified.
- The typed tables for messages, strings and integers: each decodes what `listPrefixedPaginated` returns; one generic table is modelled. The paginated listings of the indexes and `SortedIndex` are calls of it too.
- The store itself (transactions, iterators, conflict handling): an ordered map with atomic commits and read-your-own-writes is assumed. A range's upper bound includes every key that extends it, as the table code relies on.
- Store errors in table operations: they are passed through unchanged, so tables are modelled over calls that succeed.
- Scans with visitors: a scan is the sequence of keys it visits, and a visitor that stops looks at a prefix of it.
- The byte format of snapshot streams: a stream is a sequence of frames with an end or a read error, and errors of the writer are not modelled.
- Concrete portable tables and their codecs: a schema gives which entities decode, their shard key and their index tags. A section's table is an abstract pair of entities and index rows under its own number, not rows in the flat store.
- PageWalks.ForwardWalkIsSafe: walks start at the beginning or at a token under the prefix, as pages give them; single pages after any other token are covered by `Pagination.AnyTokenForward` and `Pagination.AnyTokenReverse`.
- Pinning, releasing and closing of snapshots, readers and caches.
- Cache steps are atomic map operations, clock reads and flight operations. A plain set is one step that stores an entry built at any earlier time, which covers its separate clock read; finishing a flight stores its result and frees its slot in one step. Goroutine scheduling, ticker, channel and panics inside load are not modelled, and neither is overflow of expiry times.
- Cache.Cache.GetOrLoad: keys are structs of two strings and values are text, standing for the type parameters; a nil value of an interface type is not modelled.
- Registry.Registry.GetOrAssignPrefix: answers are values, so that callers own their copy holds by construction.
- Indexes.OneToManyUint64Index.List: items of fewer than eight bytes, which would panic, are outside its precondition; `Indexes.NumbersAgreeExactly` says for which primary keys none can occur. A stored counter of fewer than two bytes is outside the registry's.
- PortableRestore.ClearAll: a table whose clearing fails is assumed to stay whole.
- Waiting without end for a lock or a load: the machines state what never goes wrong, and that a leader and the holder of the lock can always move, not that they do in time.
