# HuffmanCodeBook in Dafny

A model of `HuffmanCodeBook`, the code book of a Huffman-style compressor. It is a hash
table with separate chaining that maps a character to its bit-sequence code. Its operations:

- `addSequence` adds a (character, code) pair at the tail of the character's chain and grows
  the table first when it is crowded;
- `contains` and `getSequence` look a character up;
- `encode` concatenates the codes of a string's characters;
- `containsAll` tests a string against the book;
- `getHuffmanChars` lists the stored characters;
- `expand` rebuilds the table at a larger, prime size that `nextPrime` finds.

The project has three modules:

- `Primes` (primes.dfy) specifies `nextPrime`. `LeastPassingFrom(n)` is the least m >= n that
  survives the source's trial division by every i with 2 <= i < m / 2. The search terminates
  because a prime exists above every bound: the least divisor of n! + 1 is a prime larger
  than n. Every size the table grows to is prime.
- `Table` (table.dfy) is the value-level meaning of the bucket array. A table is a
  `seq<Chain>` and a chain is a `seq<Entry>` in chain order. The module defines:
  - `Place` (add one entry at the tail of its key's bucket);
  - `InsertAll` (add a run of entries in order);
  - `Rehash` (re-add every entry, bucket by bucket, into an empty table of a new size);
  - `TableCodes(t, k)`, the codes stored under k in insertion order. This is the abstract
    value of the book at k. A lookup answers with the first of them (`FirstCode`).
  - `Encoded`, what `encode` returns;
  - `ContainsAllAsWritten`, what `containsAll` returns.
- `CodeBook` (codebook.dfy) holds the class `HuffmanCodeBook`. It has the source's three
  fields (`itemCount`, `bookSize`, and the bucket array `buckets: array<Chain>`), and its
  methods update them in place. Each method is proved against the `Table` functions applied
  to `buckets[..]`.

The object invariant `Valid()` has these parts:

- the size is positive and equals the array's length;
- every entry sits in the bucket its key hashes to (`ord(key) % bookSize`);
- `itemCount` is the number of chained entries;
- the table holds at most twice as many entries as buckets (`itemCount <= 2 * bookSize`).

The last part follows from the code. Growth starts once `itemCount >= 2 * bookSize`, and the
new size `nextPrime(2 * bookSize + 1)` is larger than twice the old one. Because of this, the
temporary book inside `expand` never grows again, and neither does the book while it copies
the entries back.

The growth test `itemCount / bookSize > 1` uses integer division. It fires at
`itemCount >= 2 * bookSize` (`CodeBook.CrowdedIff`), not at "more than three", as the comments
at HuffmanCodeBook.java:96-97 and :102 say. The model follows the code.

Re-insertion during a grow never triggers a further grow: `AddChain` requires room for the
whole chain, and `Expand` provides it.

`Character.hashCode` is the character's ordinal, `Objects.equals` on characters is `==`, a
`BinarySequence` is a `seq<bool>` whose `append` is concatenation, and Java's `null` result of
`getSequence` is `None`.

## Model

| member | source | states |
|---|---|---|
| Primes.LeastPassingFromIsLeast | HuffmanCodeBook.java:237-244 | the value nextPrime(n) is specified by is at least n, survives the trial division below m / 2, and no smaller candidate from n on survives it |
| Primes.LeastPassingFromStep | HuffmanCodeBook.java:239-240 | a candidate with a divisor in [2, n / 2) moves the search to n + 1 without changing its result |
| Primes.PassingIsPrimeFromFive | HuffmanCodeBook.java:238-243 | from 5 upward, a number that survives the trial division below m / 2 is prime |
| Primes.GrownSizeIsPrime | HuffmanCodeBook.java:250 | nextPrime(2 * b + 1) for b >= 1 is prime and larger than b |
| Primes.FourPassesTrialDivision | HuffmanCodeBook.java:238 | the bound num / 2 lets 4 through: nextPrime(4) is 4, which is not prime |
| Primes.PrimeAbove | HuffmanCodeBook.java:237-244 | above every n there is a prime, so the upward scan of nextPrime ends |
| Table.Index | HuffmanCodeBook.java:105 | for a positive size the computed slot ord(key) % size lies in [0, size) |
| Table.PlaceCodes | HuffmanCodeBook.java:105-116 | adding (k, v) appends v to k's codes and leaves every other key's codes as they were |
| Table.FirstCodeAfterPlace | HuffmanCodeBook.java:105-116 | after adding (k, v), k is known; a lookup of k still returns the older code when there was one (duplicates are kept, not overwritten); lookups of other keys are unchanged |
| Table.PlaceContents | HuffmanCodeBook.java:105-116 | adding an entry adds exactly that entry to the multiset of stored entries and one to their number |
| Table.PlaceKeepsShape | HuffmanCodeBook.java:105-116 | adding an entry keeps every entry in its hashed bucket, adds one to the count and appends its code to its key's codes, for all keys at once |
| Table.PlaceAfterRehashCodes | HuffmanCodeBook.java:101-117 | an addition that first grows the table leaves every key with the same codes, and every lookup with the same answer, as the addition without growth |
| Table.InsertAllAppend | HuffmanCodeBook.java:251-258 | adding a run of entries and then another is adding their concatenation |
| Table.InsertAllContents | HuffmanCodeBook.java:253-257 | re-adding a chain adds exactly its entries to the stored multiset |
| Table.FlattenCodes | HuffmanCodeBook.java:124-134 | in a well-placed table, scanning only k's bucket finds all of k's entries, in the order of a scan over every bucket |
| Table.CodesForNonEmpty | HuffmanCodeBook.java:127-133 | a chain holds codes for k exactly when one of its entries has the key k |
| Table.KnownIff | HuffmanCodeBook.java:124-134 | in a well-placed table, k is known exactly when some stored entry, in any bucket, has the key k |
| Table.RehashContents | HuffmanCodeBook.java:249-270 | a rebuild keeps the multiset of (key, code) entries and the count |
| Table.RehashWellPlaced | HuffmanCodeBook.java:249-270 | after a rebuild at size n every entry sits in bucket ord(key) % n |
| Table.RehashCodes | HuffmanCodeBook.java:249-270 | a rebuild keeps each key's codes in their relative order, so contains and getSequence answer as before |
| Table.RehashCodesAll | HuffmanCodeBook.java:249-270 | the same, for every key at once |
| Table.RehashIdempotent | HuffmanCodeBook.java:259-269 | copying a rebuilt table back, bucket by bucket, into an empty table of the same size reproduces it |
| Table.EncodedAppend | HuffmanCodeBook.java:179-188 | encoding a concatenation is concatenating the encodings |
| Table.EncodedChar | HuffmanCodeBook.java:181-185 | a one-character string encodes to that character's first code when the book knows it and to nothing otherwise |
| Table.EncodedUnknown | HuffmanCodeBook.java:183 | a string of characters the book does not know encodes to the empty sequence |
| Table.EncodeSkipsUnknown | HuffmanCodeBook.java:179-188 | with 'a' -> 0 and 'b' -> 1, "abc" encodes to 01: the unknown 'c' is skipped |
| Table.FirstKnown | HuffmanCodeBook.java:148-152 | the position the loop of containsAll stops at: the least index whose character is known, or none |
| Table.AllKnownPassesContainsAll | HuffmanCodeBook.java:141-154 | containsAll as written accepts every string whose characters are all known |
| Table.ContainsAllOverlooksLaterLetters | HuffmanCodeBook.java:148-153 | containsAll as written accepts "aaz" in a book that knows only 'a' |
| CodeBook.CrowdedIff | HuffmanCodeBook.java:102 | the growth test itemCount / bookSize > 1 holds exactly when itemCount >= 2 * bookSize |
| CodeBook.HuffmanCodeBook.constructor | HuffmanCodeBook.java:82-86 | the default book has five empty buckets and no entries |
| CodeBook.HuffmanCodeBook.OfSize | HuffmanCodeBook.java:88-92 | a book of a given positive size starts with that many empty buckets and no entries |
| CodeBook.HuffmanCodeBook.AddSequence | HuffmanCodeBook.java:101-117 | keeps the invariant and adds one to itemCount; a book that is not crowded keeps its array and size and gets the entry at the tail of bucket ord(key) % bookSize; a crowded one is first rebuilt at size nextPrime(2 * bookSize + 1) |
| CodeBook.HuffmanCodeBook.AddChain | HuffmanCodeBook.java:254-257 | walking a chain and adding each entry in order keeps the array and the size and adds exactly that run of entries |
| CodeBook.HuffmanCodeBook.Contains | HuffmanCodeBook.java:124-134 | true exactly when the key is known; by Table.KnownIff, exactly when some stored entry has the key |
| CodeBook.HuffmanCodeBook.GetSequence | HuffmanCodeBook.java:162-172 | None exactly when the key is unknown, otherwise the code of the key's first entry in chain order |
| CodeBook.HuffmanCodeBook.ContainsAll | HuffmanCodeBook.java:141-154 | returns ContainsAllAsWritten: true for "", contains for one character, otherwise contains(s[i]) for the least i >= 1 with contains(s[i-1]), and false when there is no such i |
| CodeBook.HuffmanCodeBook.ContainsEveryLetter | HuffmanCodeBook.java:141-154 | true exactly when the book knows every character of the string |
| CodeBook.HuffmanCodeBook.Encode | HuffmanCodeBook.java:179-188 | the in-order concatenation of the first codes of the characters the book knows |
| CodeBook.HuffmanCodeBook.GetHuffmanChars | HuffmanCodeBook.java:194-206 | a fresh array of exactly itemCount characters, the stored keys in bucket order and then chain order |
| CodeBook.HuffmanCodeBook.NextPrime | HuffmanCodeBook.java:237-244 | returns the least m >= num that has no divisor in [2, m / 2) |
| CodeBook.HuffmanCodeBook.Expand | HuffmanCodeBook.java:249-270 | keeps the invariant and itemCount; the new size is nextPrime(2 * bookSize + 1), prime and more than twice the old; the new chains are the old entries re-added bucket by bucket |
| CodeBook.HuffmanCodeBook.DrainInto | HuffmanCodeBook.java:250-258 | the temporary book ends up holding the rebuild of every chain at its size, and every slot of the old array is emptied |
| CodeBook.HuffmanCodeBook.RefillFrom | HuffmanCodeBook.java:259-269 | the book takes the temporary book's size and a fresh array, and ends up holding the rebuild of the temporary book's chains |

## Left out

- `showStructure` (HuffmanCodeBook.java:211-228) only prints to the console.
- `HashNode`'s `setKey`, `setVal` and `setNext`, and node identity, are left out: a chain is a
  sequence of entries, so appending at the tail replaces walking to the last node and linking
  a new one. The node accessors are never used except to walk or extend a chain.
- The internals of `BinarySequence` are not part of this model. A code is a `seq<bool>`,
  `append` is concatenation, and a `null` code cannot be passed to `addSequence`.
- Java's `char` is a UTF-16 code unit, while Dafny's `char` excludes the surrogate range.
  Characters in that range are not modelled.
- Java's 32-bit `int` arithmetic is not modelled. Sizes and counts are unbounded, so the
  overflow of `2 * bookSize + 1` (or of `nextPrime`'s scan) for sizes near 2^30 does not
  appear.
- CodeBook.HuffmanCodeBook.OfSize: requires a positive size. With a negative size Java throws
  when it allocates the array, and with size 0 the first `addSequence` divides by zero.
- CodeBook.HuffmanCodeBook.DrainInto and CodeBook.HuffmanCodeBook.RefillFrom are the two
  loops of `expand`, split into two methods. Their preconditions (disjoint books, a large
  enough empty temporary book) are what `Expand` establishes, not conditions the source
  checks.
- Concurrent use is not modelled; the book is single-threaded.

## Findings

| source | as written | input that shows it | evidently intended | confidence | as-written member | corrected member |
|---|---|---|---|---|---|---|
| HuffmanCodeBook.java:148-153 | the loop returns `contains(letters[i])` for the first i >= 1 whose predecessor is known, so it tests at most one pair of characters | a book holding only 'a' and the string "aaz": the loop stops at i = 1 and returns `contains('a')`, true, although 'z' is unknown | true exactly when every character of the string is in the book | not executed | Table.ContainsAllOverlooksLaterLetters | CodeBook.HuffmanCodeBook.ContainsEveryLetter |

`CodeBook.HuffmanCodeBook.ContainsAll` keeps the behaviour as written. Its contract is
`ContainsAllAsWritten`, the function the counterexample is stated with.
`Table.AllKnownPassesContainsAll` shows that the difference goes one way only: the written
test never rejects a string the corrected one accepts.

`nextPrime(4)` returns 4 (`Primes.FourPassesTrialDivision`). This is not a finding, because
the table only asks for `nextPrime(2 * bookSize + 1)`. For those arguments
`Primes.GrownSizeIsPrime` proves that the result is prime.
