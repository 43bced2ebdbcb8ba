# Chained hash table of string keys, modelled in Dafny

This project models class `Hash` of `HashTable/hash.cpp`. The class is a hash table
with a fixed number of buckets, `HASH_TABLE_SIZE`. Each bucket is a list of words,
and words that hash to the same slot are chained in that list. The class also keeps
a count of collisions and the longest list length that `longest_List` last reported.

The project has two modules:

- `Buckets` (`buckets.dfy`) holds the table as a value: a sequence of buckets, each
  a sequence of words in the order they were appended. It defines what each
  operation does to such a value (`InsertInto`, `Load`, `LoadCollisions`,
  `Contains`, `RemoveFrom`, `Without`, `TotalSize`, `Occupied`, `LongestScan`,
  `MaxBucketLen`). It also holds the lemmas about those functions: where loaded
  words end up, how many elements and collisions a load produces, the
  "every word sits in its home bucket" invariant, search after insert and after
  remove, and the longest-list defect.
- `HashTable` (`hash.dfy`) holds class `Hash`. It has a fixed `array<seq<string>>`
  of buckets, the `collisions` counter and `longestList`. Its methods follow the
  C++ loops: `Insert` is the body of the read loop of `processFile`,
  `ProcessFile`, `Search`, `Remove`, and the counting loops of `loadFactor` and
  `avgListLength`. Each method is proved against the function of `Buckets` that
  specifies it. `Valid()` is the class invariant: the array has `size >= 1`
  buckets, `hf` maps every word into `[0, size)`, and every stored word sits in
  bucket `hf(word)`.

`HASH_TABLE_SIZE` and the hash function `hf` are fixed when the program is built:
the size by a compiler flag (`hash.h:1-2`), the function by a separate source file.
The model takes both as constructor arguments. The constructor requires only what
the C++ code relies on: at least one bucket, and every hash inside `[0, size)`.

Where the code and its own comments or design notes differ, the model follows the
code:

- `remove` calls `std::list::remove`, which deletes every copy of the word in the
  first bucket (lowest index) that holds it, not only the first copy
  (`hash.cpp:114`).
- `search` wraps its scan of bucket `hf(word)` in a loop over all slots. The loop
  variable is never used, so the same bucket is scanned again; the answer does not
  change (`hash.cpp:91-92`).
- `longest_List` always returns 0 (see Findings). `ProcessFile` therefore leaves
  `longestList` at 0.

## Model

| member | source | states |
|---|---|---|
| HashTable.Hash.constructor | HashTable/hash.cpp:23-27 | a new table has every bucket empty and `collisions` and `longestList` at 0 |
| HashTable.Hash.Insert | HashTable/hash.cpp:61-70 | appends the word to bucket `hf(word)` and changes no other bucket; `collisions` rises by 1 exactly when that bucket was non-empty; the home-bucket invariant is kept |
| HashTable.Hash.ProcessFile | HashTable/hash.cpp:55-75 | the buckets become `Load` of the old buckets and the tokens, in order; `collisions` rises by `LoadCollisions`; `longestList` ends at 0, as the code computes it |
| HashTable.Hash.Search | HashTable/hash.cpp:87-99 | returns true exactly when the word occurs in bucket `hf(word)`; reads only, so nothing changes |
| HashTable.Hash.Remove | HashTable/hash.cpp:108-120 | the buckets become `RemoveFrom` of the old buckets; `collisions` and `longestList` are unchanged; the home-bucket invariant is kept |
| HashTable.Hash.LoadTotal | HashTable/hash.cpp:218-224 | the load factor's numerator is the sum of all bucket sizes, computed without changing the table |
| HashTable.Hash.AvgListInputs | HashTable/hash.cpp:197-207 | the two integers that avgListLength divides: the sum of all bucket sizes and the number of non-empty buckets |
| Buckets.InsertInto | HashTable/hash.cpp:61-68 | the word is appended at the end of bucket `h(w)`; every other bucket is unchanged; the bucket count stays the same |
| Buckets.LoadCollisions | HashTable/hash.cpp:62-64 | a load adds at most one collision per token |
| Buckets.LoadSnoc | HashTable/hash.cpp:60-70 | loading one more token is one more insertion, and it adds a collision exactly when its bucket was non-empty |
| Buckets.InsertPreservesPlaced | HashTable/hash.cpp:61-68 | insertion keeps every stored word in bucket `hf(word)` |
| Buckets.LoadPreservesPlaced | HashTable/hash.cpp:60-71 | a whole load keeps every stored word in bucket `hf(word)` |
| Buckets.LoadBucket | HashTable/hash.cpp:60-71 | after a load, bucket k is its old contents followed by the tokens that hash to k, in input order, duplicates kept |
| Buckets.FreshLoadBuckets | HashTable/hash.cpp:60-71 | after loading into a fresh table, bucket k is exactly the subsequence of tokens that hash to k |
| Buckets.LoadScenario | HashTable/hash.cpp:61-70 | with four buckets, x and y hashing to 1 and z to 3, loading x y x z gives bucket 1 = x y x, bucket 3 = z, and 2 collisions |
| Buckets.EmptyHasNothing | HashTable/hash.cpp:23-27 | a freshly constructed table holds no element and has no non-empty bucket |
| Buckets.TotalSizeUpdate | HashTable/hash.cpp:222-224 | replacing one bucket changes the total size by that bucket's change in length |
| Buckets.OccupiedUpdate | HashTable/hash.cpp:202-207 | replacing one bucket changes the non-empty count only through that bucket's emptiness |
| Buckets.LoadSize | HashTable/hash.cpp:60-71 | each loaded token adds exactly one element: the total size grows by the number of tokens |
| Buckets.CollisionsAccount | HashTable/hash.cpp:62-68 | collisions plus newly occupied buckets equals the number of tokens loaded |
| Buckets.FreshLoadCounts | HashTable/hash.cpp:60-71 | loading into a fresh table stores exactly as many words as there were tokens; the collisions are the tokens minus the buckets used |
| Buckets.Occupied | HashTable/hash.cpp:202-207 | no more buckets are non-empty than there are buckets |
| Buckets.OccupiedBounds | HashTable/hash.cpp:202-208 | the non-empty count never exceeds the total size, and avgListLength's divisor is zero exactly when the table is empty |
| Buckets.ContainsIffStored | HashTable/hash.cpp:87-99 | on a table whose words sit in their home buckets, scanning only bucket `hf(w)` finds `w` exactly when `w` is stored in any bucket |
| Buckets.PlacedHome | HashTable/hash.cpp:89 | under that invariant, a word found in bucket k hashes to k |
| Buckets.ContainsAfterInsert | HashTable/hash.cpp:89-94 | after inserting `w`, search finds `w`, and its answer for any other word is unchanged |
| Buckets.FreshLoadContains | HashTable/hash.cpp:87-99 | after loading into a fresh table, search finds a word exactly when it was among the tokens |
| Buckets.Routed | HashTable/hash.cpp:61 | the tokens routed to slot k all hash to k and come from the input |
| Buckets.Without | HashTable/hash.cpp:114 | `list::remove` leaves no copy of the word, and adds no element that was not already there |
| Buckets.WithoutConcat | HashTable/hash.cpp:114 | dropping the word distributes over concatenation, so the remaining elements keep their relative order |
| Buckets.WithoutMultiset | HashTable/hash.cpp:114 | only the copies of the word go; every other word keeps its multiplicity, and the length drops by the number of copies |
| Buckets.WithoutAbsent | HashTable/hash.cpp:114 | dropping a word that is absent leaves the list as it was |
| Buckets.FirstHolding | HashTable/hash.cpp:111-113 | the scan stops at the lowest bucket index holding the word, and runs past the end only when no bucket holds it |
| Buckets.RemoveAbsent | HashTable/hash.cpp:108-120 | remove of a word that no bucket holds leaves the table unchanged |
| Buckets.RemoveHit | HashTable/hash.cpp:111-117 | when bucket i is the first holding the word, bucket i loses every copy of it and keeps the rest in order; every other bucket is unchanged |
| Buckets.RemovePreservesPlaced | HashTable/hash.cpp:111-117 | remove keeps every stored word in bucket `hf(word)` |
| Buckets.RemoveThenMissing | HashTable/hash.cpp:111-117 | on a table that keeps the invariant, after remove the word is in no bucket and search reports false |
| Buckets.RemoveSize | HashTable/hash.cpp:114 | on a table that keeps the invariant, remove lowers the total size by the number of copies of the word in its home bucket |
| Buckets.LongestScanStuck | HashTable/hash.cpp:166-187 | once `min <= max`, longest_List's update branch is never taken again and the scan returns `max` unchanged; from the initial 0 and 0 it returns 0 |
| Buckets.MaxBucketLen | HashTable/hash.cpp:158-162 | the documented longest list: at least the length of every bucket, and equal to the length of some bucket |
| Buckets.LongestListMissesLongest | HashTable/hash.cpp:164-188 | on every table that holds a word, longest_List as written returns 0 while the longest bucket has length at least 1 |
| Buckets.NonEmptyBucket | HashTable/hash.cpp:164-188 | a table with a positive total size has a non-empty bucket |

## Left out

- Console and file output (`print`, `output`, `printStats`, and the bucket dump inside `longest_List`). These only write text. The model has no I/O.
- Reading the input file in `processFile`. `ProcessFile` takes the tokens as a sequence of strings. When the file cannot be opened, the loop does not run and only `longest_List` is recorded, which is what an empty sequence does.
- `runningAvgListLength` and the `double` arithmetic of `avgListLength` and `loadFactor`: the divisions, the damped `(current + previous) / 2.0` average, and the 0/0 result when every bucket is empty after a remove. Only their integer inputs are modelled, by `LoadTotal` and `AvgListInputs`. `OccupiedBounds` says when the divisor is zero.
- The algorithm of `hf`. `hash_function.cpp` is not part of this model. The hash function is a parameter of the constructor, and only its range `[0, HASH_TABLE_SIZE)` is relied on.
- HashTable.Hash.Insert: `collisions` is a C++ `int`, and the model treats it as an unbounded integer. Signed overflow after 2^31 - 1 collisions is not modelled.
- `longest_List` is modelled by the recursive function `LongestScan`, with `max` and `min` as parameters, rather than by a loop. The update branch of the loop is dead code. As a loop, every checked statement in that branch would verify only from contradictory facts. The counting loop inside the branch is `|b[i]|` in `LongestScan`.
- `std::list` as a linked structure is modelled as a sequence value. Node identity, iterators and the iterator-invalidation concern at `hash.cpp:114` are not modelled.

## Findings

| source | as written | input that shows it | evidently intended | confidence | as-written member | corrected member |
|---|---|---|---|---|---|---|
| HashTable/hash.cpp:164-188 | `max` and `min` both start at 0, and `min` only changes inside `if (max < min)`, so the branch never runs and `longest_List` returns 0 | any table holding one word, e.g. one word in bucket 0: the result is 0, the longest list has length 1 | return the length of the longest bucket, as the comment at `hash.cpp:158-162` says | not executed | Buckets.LongestListMissesLongest | Buckets.MaxBucketLen |

`ProcessFile` stores the value that `longest_List` computes as written (0), so it keeps
the source's behaviour. `MaxBucketLen` is the corrected definition, with its
upper-bound and attained properties proved.
