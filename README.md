# speller dictionary, modelled in Dafny

This project models `speller.c`, the dictionary of a spell checker. The
dictionary is a hash table of 26 buckets, one per first letter, each a
singly-linked chain of words, plus a global counter `wordcount`. Its four
operations are `load` (fill the table from a word list), `check` (is a word in
the dictionary?), `size` (the counter) and `unload` (release the table). Two
hash functions sit beside them: `hash`, the first-letter hash that `load` and
`check` use, and `hash_function`, a character-sum hash that nothing calls.

Layout:

- `ctype.dfy`, module `CType`: the ASCII letter test behind `hash`'s valid
  range, `tolower` and `toupper` of C's `<ctype.h>` in the "C" locale, and `Lower`, which applies `tolower` to every
  character of a string.
- `speller.dfy`, module `Speller`:
  - the constants `N` and `NUM_BUCKETS` (26) and `LENGTH`;
  - `Hash` and `HashFunction`;
  - the table as a value (`Table`, a sequence of 26 chains, each a
    `seq<string>` whose element 0 is the chain's head node) with the
    specification functions `EmptyTable`, `Prepend`, `Inserted`, `Loaded`,
    `InDictionary`, `TotalWords` and `Words`, and the lemmas about them;
  - the class `Dictionary`, which holds the mutable state. Its field
    `hashtable` is an `array<seq<string>>` of length 26 and its field
    `wordcount` is the counter. Its methods are `Load`, `Check` and `Unload`,
    and its function `Size` reads the counter (`size`);
  - three client methods that run the operations on concrete word lists.

`load` reads its words from a file. Here it takes a `Source` instead: either
`Unavailable` (the file cannot be opened) or `Tokens(words)`, the
whitespace-separated tokens in file order.

What the code does, and the model with it:

- `check` lower-cases only the query. Stored words keep their original case,
  so a stored `Banana` is found by no query at all. `CheckAfterLoad` states
  the exact behaviour: after a load, `check(q)` holds exactly when `lower(q)`
  is, verbatim, one of the tokens.
- `load` empties every bucket before it tries to open the source. A failed
  load therefore leaves an empty table, but the counter keeps its old value.
- `load` never resets `wordcount`. Loading twice adds both token counts,
  while the table holds only the second list (`ReloadScenario`).
- The loop of `unload` runs up to `hashtable_size`, a global that is never
  assigned and so is 0. `unload` changes nothing and returns true.

A dictionary that matched case-insensitively, emptied itself on `unload` and
reset its count on every load would behave differently on these points: the
code compares the lower-cased query with words stored in their own case, its
`unload` changes nothing, and a failed load keeps the counter's previous value
(0 only on a dictionary that was never loaded). The model follows the code.

## Model

| member | source | states |
|---|---|---|
| CType.ToLower | speller.c:142 | `tolower`: the result is never an upper-case letter, is a letter exactly when the input is, leaves every non-upper-case character as it is, and `toupper` gives the upper-case letter back |
| CType.ToUpper | speller.c:39 | `toupper`: a lower-case letter becomes the capital at the same place in the alphabet; every other character is left as it is |
| CType.Lower | speller.c:139-146 | the lower-cased copy of the query has the query's length, contains no upper-case letter, and agrees with the query character by character up to case (same `toupper`); it equals the query when the query has no capitals |
| Speller.Hash | speller.c:47-51 | `hash` (first character lower-cased, minus `'a'`, as an unsigned int) is a bucket index below 26 exactly when the word starts with an ASCII letter of either case, and then bucket `r` is the `r`-th letter of the alphabet, the case-folded first letter |
| Speller.HashFirstLetter | speller.c:47-51 | two letter-initial words get the same bucket exactly when their first letters agree up to case |
| Speller.HashIgnoresCase | speller.c:47-51 | `hash` depends only on the case-folded word: `hash(w) == hash(lower(w))` |
| Speller.HashFunction | speller.c:31-45 | the loop sums `toupper` of every character; the result is that sum modulo `NUM_BUCKETS`, and so below `NUM_BUCKETS` for every string read as non-negative character codes |
| Speller.SumUpperIgnoresCase | speller.c:36-40 | the character sum of `hash_function` is the same for a word and for its lower-case form |
| Speller.InsertPrepends | speller.c:93-105 | one insertion puts the token, in its original case, at the head of chain `hash(token)`; the previous chain follows it and every other bucket is unchanged |
| Speller.InsertedChain | speller.c:73-105 | after a sequence of insertions, bucket `b` holds the tokens that hash to `b` in reverse order of insertion, duplicates kept, in front of what it held before |
| Speller.InsertedWellPlaced | speller.c:93-105 | insertions keep the invariant that every stored word lies in bucket `hash(word)` |
| Speller.InsertedCount | speller.c:73-87 | the number of stored words grows by exactly the number of tokens, duplicates included |
| Speller.InsertedWords | speller.c:73-105 | the multiset of stored words grows by exactly the multiset of tokens |
| Speller.LoadedContents | speller.c:56-105 | after a load, the chain lengths add up to the number of tokens and the stored words are exactly the tokens, as a multiset |
| Speller.CheckIgnoresCase | speller.c:139-157 | `check(q) == check(lower(q))` |
| Speller.CheckAfterLoad | speller.c:140-169 | after a load, `check(q)` holds exactly when `lower(q)` is verbatim one of the tokens; with no tokens, every query is false |
| Speller.LowercaseTokenFound | speller.c:149-160 | every loaded token that is already all lower-case is found by `check` |
| Speller.Dictionary.constructor | speller.c:22-25 | the zero-initialised globals: 26 empty chains and a counter of 0, satisfying the placement invariant |
| Speller.Dictionary.Load | speller.c:54-125 | resets all 26 buckets; on an unavailable source, calls `unload` and returns false with the table empty and the counter unchanged; otherwise returns true with the table equal to the tokens prepended one by one and `size()` equal to the old counter plus the number of tokens; keeps the placement invariant |
| Speller.Dictionary.Size | speller.c:121-125 | `size`: returns the counter; after a `Load` from `Tokens` it is the old counter plus the number of tokens, and after a failed load it is unchanged (`Load`'s ensures) |
| Speller.Dictionary.Check | speller.c:128-170 | builds the lower-cased copy with its loop, walks chain `hash(copy)`, and returns true exactly when the copy occurs verbatim in that chain; changes nothing |
| Speller.Dictionary.Unload | speller.c:174-191 | always returns true and changes neither the table nor the counter |
| Speller.AppleBananaScenario | speller.c:128-170 | for the list "apple Banana APPLE zebra": `size()` is 4, `check("apple")` and `check("Zebra")` are true, and `check("banana")`, `check("BANANA")` and `check("grape")` are false |
| Speller.UnavailableScenario | speller.c:56-68 | a load from a source that cannot be opened on a fresh dictionary returns false, leaves `size()` at 0 and `check("apple")` false (that every query is false follows from `Load`'s `Buckets() == EmptyTable()` and `CheckAfterLoad` with no tokens) |
| Speller.ReloadScenario | speller.c:56-87 | loading the list "apple" twice gives `size()` 2 while the table holds one word |

## Left out

- File input: `fopen`, `fscanf("%s", …)` and `fclose`. `load` takes the token sequence. Open failure is the `Unavailable` source.
- The `LENGTH + 1` buffers and `strcpy`: a token longer than `LENGTH` overflows them. `Load` requires every token to fit. `LENGTH` comes from `dictionary.h`, which is not part of this model; it is fixed at 45, and only the client scenarios depend on the value.
- `NUM_BUCKETS` also comes from `dictionary.h`. It is assumed equal to `N`, 26.
- Tokens and queries that are empty or start with a non-letter. `Hash` gives them an index outside the table: the NUL of an empty word, or a first character below `'a'` that is not a capital, wraps around to at least 2^32 - 97, and a first character after `'z'` gives its distance from `'a'`, 26 or more. `load` and `check` would then index outside the table, so `Load` and `Check` require a leading ASCII letter. Converting that unsigned value back to `int` is not modelled.
- Memory management: `malloc`, `memset`, `free`, and the NULL check that comes after the `memset`.
- The `feof` branch of `load` frees a node that is still linked into its bucket, a use-after-free. The model keeps the node in its bucket.
- The global `head`: it is written but never read.
- `unload`'s walk over the chains: its bound `hashtable_size` is always 0, so the walk never runs. The memory it would free is not modelled.
- `check`'s loop that counts the query's length: a `string` carries its length.
- Characters are Dafny `char`s with the "C" locale's case rules. A C string is the `string` of its characters before the NUL terminator.
- Speller.HashFunction: does not model the overflow of the signed `int` accumulator `index`, which is undefined behaviour once the sum passes 2^31 - 1 (strings of tens of millions of characters).
- Speller.HashFunction: takes every character as a non-negative code, as an `unsigned char` or ASCII would be. Where C's `char` is signed, a byte of 0x80 or more is negative; `toupper` of it is undefined (glibc returns it unchanged), the sum can go negative, and C's truncating `%` then gives a negative remainder that converts to an unsigned value of at least 2^32 - 25. For such input the bound below `NUM_BUCKETS` does not describe the C function. `Hash` likewise reads the first character as non-negative.
- Speller.Dictionary.Load: does not model the overflow of the signed `int` counter `wordcount` past 2^31 - 1 tokens.
