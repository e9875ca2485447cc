# CVB0 shuffle-key comparator and matrix/dictionary assembly, in Dafny

This project models two pieces of pure logic from Mahout's distributed CVB0
(collapsed variational Bayes) topic-model trainer. It proves properties of
both.

1. **`CVBSortingComparator`**: the raw comparator of the shuffle keys. A key
   is 13 bytes, `[termId:4][docId:4][flag:1][branch:4]`, with big-endian ints.
   - `compareNoBooleanCheck` is the grouping comparison: termId descending,
     then docId descending.
   - `compare` is the sort order. It breaks grouping ties by the flag byte,
     so that flag 1 (true) sorts before flag 0 (false).
   - `getBranch` decodes the stored branch int into an `AggregationBranch`
     constant, or into null.
2. **`MatrixUtils`**: the logic of `invertDictionary`, the record fold of
   `readDictionary`, and the row assembly of `read`. The SequenceFiles are
   replaced by their records, one sequence per file, in file order.

Files:

- `java.dfy` (module `Java`): Java `int` and signed `byte`,
  `Integer.compareTo` and `Byte.compareTo`, 32-bit wrap-around, and the
  exceptions as a `Result` value.
- `big_endian.dfy` (module `BigEndian`): `WritableComparator.readInt` (four
  big-endian bytes, each masked with `& 0xff`) and its inverse `WriteInt`,
  with round-trip lemmas.
- `cvb_sorting_comparator.dfy` (module `CVBSortingComparator`): the key
  layout, the two comparisons, a lexicographic reference order with its
  order lemmas, and branch decoding.
- `matrix_utils.dfy` (module `MatrixUtils`): index placement ("a later value
  at the same index wins"), dictionary inversion, the dictionary fold and row
  assembly.

Java exceptions are values. Each one is raised by the model exactly where the
code would raise it:
- an array access outside the array raises `ArrayIndexOutOfBounds`;
- `new T[n]` with `n < 0` raises `NegativeArraySize`;
- `read` with no rows raises the `IOException` "no vectors", modelled as
  `NoVectors`.

The comparators read bytes lazily, like the code. The docIds are read only
when the termIds are equal, and the flags only when the grouping comparison
returned 0. So a short array fails in the model exactly when it fails in Java.

Points where the code behaves differently from what a reader might expect:
- The flag tie-break returns the signed byte difference (`Byte.compareTo`),
  negated, so it can be any value in -255..255, not only -1, 0 or 1.
- The `len` arguments are ignored. A key of the wrong length is not rejected;
  only a read outside the array fails.
- Branch decoding can throw: a stored int above the number of branches
  raises, and so does Integer.MIN_VALUE (see Findings). "No branch" is any
  stored int ≤ 0 other than Integer.MIN_VALUE.

## Model

| member | source | states |
|---|---|---|
| `BigEndian.ReadInt` | core/src/main/java/org/apache/mahout/clustering/lda/cvb/CVBSortingComparator.java:35-36 | reading an int succeeds exactly when all four bytes lie inside the array; otherwise it raises ArrayIndexOutOfBounds; the result is negative exactly when the first byte is negative |
| `BigEndian.ReadWriteInt` | core/src/main/java/org/apache/mahout/clustering/lda/cvb/CVBSortingComparator.java:35-36 | the int decode inverts the big-endian encoding for every Java int, wherever the four bytes sit in the array |
| `BigEndian.WriteReadInt` | core/src/main/java/org/apache/mahout/clustering/lda/cvb/CVBSortingComparator.java:35-36 | re-encoding a decoded int reproduces the four bytes, so the decode is injective |
| `CVBSortingComparator.DecodeEncodeKey` | core/src/main/java/org/apache/mahout/clustering/lda/cvb/CVBSortingComparator.java:6-10 | decoding the 13-byte layout [termId][docId][flag][branch] returns the encoded fields, at any offset |
| `CVBSortingComparator.EncodeDecodeKey` | core/src/main/java/org/apache/mahout/clustering/lda/cvb/CVBSortingComparator.java:6-10 | every 13 bytes are the encoding of the fields decoded from them |
| `CVBSortingComparator.CompareNoBooleanCheck` | core/src/main/java/org/apache/mahout/clustering/lda/cvb/CVBSortingComparator.java:33-48 | the larger termId sorts first (-1); with equal termIds the larger docId sorts first; the result is 0 exactly when termId and docId both agree (the grouping predicate); it succeeds exactly when both termIds are readable and, if they are equal, both docIds are too, and otherwise raises ArrayIndexOutOfBounds |
| `CVBSortingComparator.Compare` | core/src/main/java/org/apache/mahout/clustering/lda/cvb/CVBSortingComparator.java:17-26 | a non-zero grouping result is returned unchanged; within a group the result is the second flag byte minus the first, so flag 1 sorts strictly before flag 0 (-1); it succeeds exactly when the grouping comparison does and, if that is 0, both flag bytes are readable, and otherwise raises ArrayIndexOutOfBounds |
| `CVBSortingComparator.CompareIsLexicographic` | core/src/main/java/org/apache/mahout/clustering/lda/cvb/CVBSortingComparator.java:17-48 | the sign of the sort order equals an independent lexicographic comparison of the tuples (-termId, -docId, -flag) |
| `CVBSortingComparator.CompareAntisymmetric` | core/src/main/java/org/apache/mahout/clustering/lda/cvb/CVBSortingComparator.java:17-48 | swapping the two keys negates the result exactly |
| `CVBSortingComparator.CompareTransitive` | core/src/main/java/org/apache/mahout/clustering/lda/cvb/CVBSortingComparator.java:17-48 | a ≤ b and b ≤ c give a ≤ c, and strictly so when either step is strict |
| `CVBSortingComparator.CompareZeroIffSameComparedBytes` | core/src/main/java/org/apache/mahout/clustering/lda/cvb/CVBSortingComparator.java:17-48 | two keys compare equal exactly when their first nine bytes are identical; in particular every key compares equal to itself |
| `CVBSortingComparator.CompareReadsOnlyComparedBytes` | core/src/main/java/org/apache/mahout/clustering/lda/cvb/CVBSortingComparator.java:17-48 | both comparisons depend only on the nine bytes at each start offset: not on the branch bytes, the surrounding bytes or the len arguments |
| `CVBSortingComparator.CompareIgnoresBranch` | core/src/main/java/org/apache/mahout/clustering/lda/cvb/CVBSortingComparator.java:6-25 | changing the branch field of either encoded key never changes the sort order |
| `CVBSortingComparator.CompareEncodedKeys` | core/src/main/java/org/apache/mahout/clustering/lda/cvb/CVBSortingComparator.java:17-48 | on encoded keys, the sort order is termId descending, then docId descending, then flag descending; the grouping comparison is 0 exactly when termId and docId agree |
| `CVBSortingComparator.LexCompareTransitive` | core/src/main/java/org/apache/mahout/clustering/lda/cvb/CVBSortingComparator.java:17-48 | the lexicographic reference order is transitive (strictly, when either step is strict) |
| `CVBSortingComparator.GetBranch` | core/src/main/java/org/apache/mahout/clustering/lda/cvb/CVBSortingComparator.java:28-31 | a stored int between Integer.MIN_VALUE (exclusive) and 0 decodes to no branch; a stored int s with 1 ≤ s ≤ N decodes to enum value s-1; a stored int above N, or fewer than four bytes, raises ArrayIndexOutOfBounds |
| `CVBSortingComparator.GetBranchMinValueThrows` | core/src/main/java/org/apache/mahout/clustering/lda/cvb/CVBSortingComparator.java:29-30 | the stored int Integer.MIN_VALUE raises instead of decoding to no branch, because subtracting one wraps around |
| `CVBSortingComparator.GetBranchIntended` | core/src/main/java/org/apache/mahout/clustering/lda/cvb/CVBSortingComparator.java:28-31 | corrected decoding: no branch exactly when the stored int is ≤ 0; enum value s-1 for 1 ≤ s ≤ N; raises exactly when the bytes are short or s > N |
| `CVBSortingComparator.GetBranchIntendedInvertsStoredBranch` | core/src/main/java/org/apache/mahout/clustering/lda/cvb/CVBSortingComparator.java:28-31 | decoding the stored int of branch ordinal i (i+1, or 0 for none) returns that branch |
| `CVBSortingComparator.GetBranchAgreesAwayFromMinValue` | core/src/main/java/org/apache/mahout/clustering/lda/cvb/CVBSortingComparator.java:29-30 | the code as written and the corrected decoding return the same result if and only if the four bytes read do not hold Integer.MIN_VALUE |
| `Java.IntegerCompare` | core/src/main/java/org/apache/mahout/clustering/lda/cvb/CVBSortingComparator.java:38 | Integer.compareTo yields only -1, 0 or 1, with the sign of x - y |
| `Java.ByteCompare` | core/src/main/java/org/apache/mahout/clustering/lda/cvb/CVBSortingComparator.java:24 | Byte.compareTo returns the difference of the two signed byte values, which lies in -255..255 |
| `MatrixUtils.InvertDictionary` | core/src/main/java/org/apache/mahout/math/MatrixUtils.java:82-93 | the method succeeds exactly when every id lies in [0, Integer.MAX_VALUE); an id of Integer.MAX_VALUE overflows the length into NegativeArraySize; any other failure (a negative id) is ArrayIndexOutOfBounds; the array length is max id + 1, or 0 for an empty map; every filled slot holds a term whose id is that slot; slots that are no term's id stay null; for injective ids every term sits at its id; with shared ids the term visited last wins |
| `MatrixUtils.InvertDictionaryOutcome` | core/src/main/java/org/apache/mahout/math/MatrixUtils.java:83-90 | the largest visited id is Integer.MAX_VALUE exactly when some term has that id; the fill loop visits a negative id exactly when the map holds one; an empty map gives max id -1 |
| `MatrixUtils.InvertDictionarySlots` | core/src/main/java/org/apache/mahout/math/MatrixUtils.java:88-91 | after placement every id is below the array length, the last slot is some term's id, filled slots hold terms with that id, unused slots are null, and injective ids put each term at its own id |
| `MatrixUtils.LargestIndex` | core/src/main/java/org/apache/mahout/math/MatrixUtils.java:83-86 | the Math.max loop from -1 computes the maximum index, or -1 when there is none |
| `MatrixUtils.MaxIndex` | core/src/main/java/org/apache/mahout/math/MatrixUtils.java:83-86 | the fold is at least -1, bounds every index, and is attained by some index unless it is -1 |
| `MatrixUtils.PlaceAll` | core/src/main/java/org/apache/mahout/math/MatrixUtils.java:88-91 | placing values into a fresh array raises ArrayIndexOutOfBounds exactly when some index is negative or not below the array size; otherwise each slot holds the value of the last entry with that index, or null |
| `MatrixUtils.PlacedEntries` | core/src/main/java/org/apache/mahout/math/MatrixUtils.java:55-57 | an entry not overwritten by a later entry with the same index ends up in its slot, and slots that no entry names stay null |
| `MatrixUtils.LastAtLastOccurrence` | core/src/main/java/org/apache/mahout/math/MatrixUtils.java:55-57 | the value kept at an index is the one from the last entry with that index |
| `MatrixUtils.PutAll` | core/src/main/java/org/apache/mahout/math/MatrixUtils.java:76 | putting records into a map leaves its keys as the old keys plus every record term |
| `MatrixUtils.PutAllKeepsOthers` | core/src/main/java/org/apache/mahout/math/MatrixUtils.java:76 | a term that no record mentions keeps its old id |
| `MatrixUtils.PutAllLastWins` | core/src/main/java/org/apache/mahout/math/MatrixUtils.java:73-77 | a term gets the id from the last record that mentions it |
| `MatrixUtils.PutAllConcat` | core/src/main/java/org/apache/mahout/math/MatrixUtils.java:73-78 | putting one file's records after another's is the same as putting their concatenation |
| `MatrixUtils.ReadDictionary` | core/src/main/java/org/apache/mahout/math/MatrixUtils.java:70-80 | the dictionary's keys are exactly the terms of all records of all files; a repeated term takes the id of its last record across the files, taken in order |
| `MatrixUtils.ScanRows` | core/src/main/java/org/apache/mahout/math/MatrixUtils.java:40-48 | the scan yields the largest row index (from -1), the size of the first row (which later rows never change), and sparsity decided by the last row alone |
| `MatrixUtils.AssembleRows` | core/src/main/java/org/apache/mahout/math/MatrixUtils.java:43-66 | no rows raise the "no vectors" IOException; an index of Integer.MAX_VALUE raises NegativeArraySize; a negative index raises ArrayIndexOutOfBounds; otherwise the matrix has max index + 1 rows and the first row's column count, is sparse exactly when the last row is not dense, and holds each vector at its own index unless a later row takes it, with other slots null |
| `MatrixUtils.Read` | core/src/main/java/org/apache/mahout/math/MatrixUtils.java:34-68 | read raises the "no vectors" IOException exactly when every file is empty; otherwise it assembles the rows of all files in file order, as stated for AssembleRows |

## Findings

| source | as written | input that shows it | evidently intended | confidence | as-written member | corrected member |
|---|---|---|---|---|---|---|
| core/src/main/java/org/apache/mahout/clustering/lda/cvb/CVBSortingComparator.java:29-30 | `readInt(bytes, offset) - 1` is computed in 32-bit `int`, then `i < 0 ? null : values()[i]` | stored branch bytes `80 00 00 00` (Integer.MIN_VALUE): `-1` wraps to Integer.MAX_VALUE, so `values()[Integer.MAX_VALUE]` raises ArrayIndexOutOfBounds | every stored int ≤ 0 decodes to "no branch" (null) | low: only a corrupt or hand-built key stores this value; not executed | `CVBSortingComparator.GetBranchMinValueThrows` | `CVBSortingComparator.GetBranchIntended` |

`CVBSortingComparator.GetBranch` models the code as written. The finding's
lemma is stated about it. `GetBranchAgreesAwayFromMinValue` shows that the two
definitions differ only at Integer.MIN_VALUE.

## Left out

- `MatrixUtils.write` and all SequenceFile, FileSystem and Writer plumbing.
  This is I/O. The records of each file are an input sequence instead, and the
  I/O exceptions are not modelled.
- `compare(Object, Object)` delegates to `CVBKey.compareTo`. CVBKey is not
  part of this model. Neither is the code that writes keys, so the 13-byte
  layout is taken from the format comment.
- `AggregationBranch`: the enum's constants are not part of this model. Its
  `values()` array is a parameter `values: seq<B>` of any length N.
- The iteration order of `OpenObjectIntHashMap.keys()` is a hash order the
  model cannot see. It is a parameter `order` that lists every key of the map.
  The result depends on it only when two terms share an id.
- `DenseMatrix`, `SparseRowMatrix` and `assignRow` are not part of this model.
  The assembled matrix records its kind, its dimensions and the vector (or
  null) in each row slot. How the dense path copies rows is not modelled, nor
  how it fails on a null slot or a row whose size differs from the column
  count.
- Vectors are opaque values. Only their `size` and `isDense` are read, and
  their cells are an uninterpreted payload.
- Java arrays and `int` offsets are bounded by Integer.MAX_VALUE. The model
  uses unbounded sequences and offsets. Every offset whose Java sum
  (`start + 8`, say) would wrap is also out of bounds for any real Java array,
  so both raise the same exception.
- `readDictionary` calls `record.getFirst().toString()`. The model takes the
  term as a string already.
- The rest of the CVB0 engine is outside this model: per-document inference,
  model accumulation, the iteration driver and the in-memory trainer. So is
  its floating point. The tests that exercise it, the distributed Lanczos
  solver test and the identity Wikipedia reducer are not modelled either.
