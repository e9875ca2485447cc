/**
 The raw comparator that orders CVB0 shuffle keys. A serialized key is 13 bytes:

     [termId: 4][docId: 4][flag: 1][branch: 4]

 with both ints big-endian. Keys are sorted by termId descending, then docId
 descending, then flag descending (true = 1 before false = 0); the grouping
 comparison stops after docId, and the branch int is never compared at all.
 */
module CVBSortingComparator {
  import opened Java
  import opened BigEndian

  const TERM_ID_OFFSET: nat := 0
  const DOC_ID_OFFSET: nat := 4
  const FLAG_OFFSET: nat := 8
  const BRANCH_OFFSET: nat := 9
  const KEY_LENGTH: nat := 13
  /** Only this many leading bytes of a key take part in comparisons. */
  const COMPARED_LENGTH: nat := 9

  /** The fields of a serialized key; `branch` is the stored int, not yet decoded. */
  datatype KeyFields = KeyFields(termId: Int32, docId: Int32, flag: Byte, branch: Int32)

  /** The 13-byte serialized form of a key. */
  function EncodeKey(k: KeyFields): (bytes: seq<Byte>)
    ensures |bytes| == KEY_LENGTH
    ensures bytes[FLAG_OFFSET] == k.flag
  {
    WriteInt(k.termId) + WriteInt(k.docId) + [k.flag] + WriteInt(k.branch)
  }

  /** Reads all four fields of the key at `start`; bytes past the array end raise. */
  function DecodeKey(bytes: seq<Byte>, start: int): (r: Result<KeyFields>)
    ensures r.Ok? <==> 0 <= start && start + KEY_LENGTH <= |bytes|
    ensures r.Ok? ==> r.value.flag == bytes[start + FLAG_OFFSET]
  {
    var termId :- ReadInt(bytes, start + TERM_ID_OFFSET);
    var docId :- ReadInt(bytes, start + DOC_ID_OFFSET);
    if start + FLAG_OFFSET >= |bytes| then Throws(ArrayIndexOutOfBounds)
    else
      var branch :- ReadInt(bytes, start + BRANCH_OFFSET);
      Ok(KeyFields(termId, docId, bytes[start + FLAG_OFFSET], branch))
  }

  /** Decoding an encoded key gives the key back, wherever it sits in the array. */
  lemma DecodeEncodeKey(prefix: seq<Byte>, k: KeyFields, suffix: seq<Byte>)
    ensures DecodeKey(prefix + EncodeKey(k) + suffix, |prefix|) == Ok(k)
  {
    var bytes := prefix + EncodeKey(k) + suffix;
    var p := |prefix|;
    ReadWriteInt(prefix, k.termId, WriteInt(k.docId) + [k.flag] + WriteInt(k.branch) + suffix);
    assert bytes == prefix + WriteInt(k.termId) + (WriteInt(k.docId) + [k.flag] + WriteInt(k.branch) + suffix);
    ReadWriteInt(prefix + WriteInt(k.termId), k.docId, [k.flag] + WriteInt(k.branch) + suffix);
    assert bytes == prefix + WriteInt(k.termId) + WriteInt(k.docId) + ([k.flag] + WriteInt(k.branch) + suffix);
    ReadWriteInt(prefix + WriteInt(k.termId) + WriteInt(k.docId) + [k.flag], k.branch, suffix);
    assert bytes == prefix + WriteInt(k.termId) + WriteInt(k.docId) + [k.flag] + WriteInt(k.branch) + suffix;
    assert bytes[p + FLAG_OFFSET] == k.flag;
  }

  /** Encoding a decoded key reproduces its 13 bytes. */
  lemma EncodeDecodeKey(bytes: seq<Byte>, start: int)
    requires 0 <= start && start + KEY_LENGTH <= |bytes|
    ensures EncodeKey(DecodeKey(bytes, start).value) == bytes[start..start + KEY_LENGTH]
  {
    WriteReadInt(bytes, start + TERM_ID_OFFSET);
    WriteReadInt(bytes, start + DOC_ID_OFFSET);
    WriteReadInt(bytes, start + BRANCH_OFFSET);
    var w := bytes[start..start + KEY_LENGTH];
    assert w == bytes[start..start + 4] + bytes[start + 4..start + 8]
      + [bytes[start + 8]] + bytes[start + 9..start + 13];
  }

  // ---------------------------------------------------------------------------
  // The fields the comparisons read

  /** True when the bytes a full comparison may read lie inside the array. */
  predicate Comparable(bytes: seq<Byte>, start: int) {
    0 <= start && start + COMPARED_LENGTH <= |bytes|
  }

  function TermIdAt(bytes: seq<Byte>, start: int): Int32
    requires Comparable(bytes, start)
  {
    ReadInt(bytes, start + TERM_ID_OFFSET).value
  }

  function DocIdAt(bytes: seq<Byte>, start: int): Int32
    requires Comparable(bytes, start)
  {
    ReadInt(bytes, start + DOC_ID_OFFSET).value
  }

  function FlagAt(bytes: seq<Byte>, start: int): Byte
    requires Comparable(bytes, start)
  {
    bytes[start + FLAG_OFFSET]
  }

  // ---------------------------------------------------------------------------
  // The comparisons

  /**
   `compareNoBooleanCheck`: the grouping comparison. Reads both termIds; only
   when they are equal does it read the docIds. The `len` arguments are unused.
   */
  function CompareNoBooleanCheck(bytes: seq<Byte>, start: int, len: int,
                                 bytes1: seq<Byte>, start1: int, len1: int): (r: Result<int>)
    ensures r.Ok? ==> r.value == -1 || r.value == 0 || r.value == 1
    ensures Comparable(bytes, start) && Comparable(bytes1, start1) ==> r.Ok?
    ensures r.Ok? <==>
      && IntInBounds(bytes, start) && IntInBounds(bytes1, start1)
      && (ReadInt(bytes, start) != ReadInt(bytes1, start1)
          || (IntInBounds(bytes, start + DOC_ID_OFFSET) && IntInBounds(bytes1, start1 + DOC_ID_OFFSET)))
    ensures r.Throws? ==> r.exception == ArrayIndexOutOfBounds
    ensures Comparable(bytes, start) && Comparable(bytes1, start1) ==>
      && (TermIdAt(bytes, start) > TermIdAt(bytes1, start1) ==> r == Ok(-1))
      && (TermIdAt(bytes, start) < TermIdAt(bytes1, start1) ==> r == Ok(1))
      && (TermIdAt(bytes, start) == TermIdAt(bytes1, start1) ==>
            && (DocIdAt(bytes, start) > DocIdAt(bytes1, start1) ==> r == Ok(-1))
            && (DocIdAt(bytes, start) < DocIdAt(bytes1, start1) ==> r == Ok(1)))
      && (r == Ok(0) <==>
            TermIdAt(bytes, start) == TermIdAt(bytes1, start1)
            && DocIdAt(bytes, start) == DocIdAt(bytes1, start1))
  {
    var termId :- ReadInt(bytes, start);
    var termId1 :- ReadInt(bytes1, start1);
    var result := IntegerCompare(termId, termId1);
    if result != 0 then Ok(-result)
    else
      var docId :- ReadInt(bytes, start + 4);
      var docId1 :- ReadInt(bytes1, start1 + 4);
      Ok(-IntegerCompare(docId, docId1))
  }

  /**
   `compare(byte[], int, int, byte[], int, int)`: the sort order. The grouping
   result stands when it is non-zero; otherwise the flag bytes break the tie,
   negated so that flag 1 (true) sorts before flag 0 (false).
   */
  function Compare(bytes: seq<Byte>, start: int, len: int,
                   bytes1: seq<Byte>, start1: int, len1: int): (r: Result<int>)
    ensures Comparable(bytes, start) && Comparable(bytes1, start1) ==> r.Ok?
    ensures var g := CompareNoBooleanCheck(bytes, start, len, bytes1, start1, len1);
      r.Ok? <==> g.Ok? && (g.value != 0
                           || (0 <= start + FLAG_OFFSET < |bytes| && 0 <= start1 + FLAG_OFFSET < |bytes1|))
    ensures r.Throws? ==> r.exception == ArrayIndexOutOfBounds
    ensures var g := CompareNoBooleanCheck(bytes, start, len, bytes1, start1, len1);
      g.Ok? && g.value != 0 ==> r == g
    ensures (Comparable(bytes, start) && Comparable(bytes1, start1)
             && CompareNoBooleanCheck(bytes, start, len, bytes1, start1, len1) == Ok(0)) ==>
      && r == Ok(FlagAt(bytes1, start1) - FlagAt(bytes, start))
      && (FlagAt(bytes, start) == 1 && FlagAt(bytes1, start1) == 0 ==> r == Ok(-1))
      && (r.value < 0 <==> FlagAt(bytes, start) > FlagAt(bytes1, start1))
      && (r.value == 0 <==> FlagAt(bytes, start) == FlagAt(bytes1, start1))
  {
    var result :- CompareNoBooleanCheck(bytes, start, len, bytes1, start1, len1);
    if result != 0 then Ok(result)
    else if !(0 <= start + 8 < |bytes|) || !(0 <= start1 + 8 < |bytes1|) then
      Throws(ArrayIndexOutOfBounds)
    else
      Ok(-ByteCompare(bytes[start + 8], bytes1[start1 + 8]))
  }

  // ---------------------------------------------------------------------------
  // Reference order: lexicographic comparison of integer tuples

  /** Lexicographic comparison of equal-length integer tuples, as -1, 0 or 1. */
  function LexCompare(x: seq<int>, y: seq<int>): (r: int)
    requires |x| == |y|
    decreases |x|
  {
    if |x| == 0 then 0
    else if x[0] < y[0] then -1
    else if x[0] > y[0] then 1
    else LexCompare(x[1..], y[1..])
  }

  lemma {:induction false} LexCompareTransitive(x: seq<int>, y: seq<int>, z: seq<int>)
    requires |x| == |y| == |z|
    requires LexCompare(x, y) <= 0 && LexCompare(y, z) <= 0
    ensures LexCompare(x, z) <= 0
    ensures LexCompare(x, y) < 0 || LexCompare(y, z) < 0 ==> LexCompare(x, z) < 0
    decreases |x|
  {
    if |x| > 0 && x[0] == y[0] && y[0] == z[0] {
      LexCompareTransitive(x[1..], y[1..], z[1..]);
    }
  }

  /** `LexCompare` on triples, unfolded. */
  lemma LexCompareTriple(x: seq<int>, y: seq<int>)
    requires |x| == |y| == 3
    ensures LexCompare(x, y)
         == if x[0] != y[0] then Sign(x[0] - y[0])
            else if x[1] != y[1] then Sign(x[1] - y[1])
            else Sign(x[2] - y[2])
  {
    assert x[1..][1..] == x[2..] && y[1..][1..] == y[2..];
    assert x[2..][1..] == [] && y[2..][1..] == [];
    assert LexCompare(x[2..], y[2..]) == Sign(x[2] - y[2]);
    assert LexCompare(x[1..], y[1..])
        == if x[1] != y[1] then Sign(x[1] - y[1]) else Sign(x[2] - y[2]);
  }

  function Sign(n: int): (s: int)
    ensures s == -1 || s == 0 || s == 1
    ensures s < 0 <==> n < 0
    ensures s == 0 <==> n == 0
  {
    if n < 0 then -1 else if n == 0 then 0 else 1
  }

  /** The tuple a key sorts by: (-termId, -docId, -flag), ascending. */
  function SortTuple(bytes: seq<Byte>, start: int): (t: seq<int>)
    requires Comparable(bytes, start)
    ensures |t| == 3
  {
    [-(TermIdAt(bytes, start) as int), -(DocIdAt(bytes, start) as int), -(FlagAt(bytes, start) as int)]
  }

  /** The sort order is lexicographic on (-termId, -docId, -flag). */
  lemma CompareIsLexicographic(bytes: seq<Byte>, start: int, len: int,
                               bytes1: seq<Byte>, start1: int, len1: int)
    requires Comparable(bytes, start) && Comparable(bytes1, start1)
    ensures Sign(Compare(bytes, start, len, bytes1, start1, len1).value)
         == LexCompare(SortTuple(bytes, start), SortTuple(bytes1, start1))
  {
    var x, y := SortTuple(bytes, start), SortTuple(bytes1, start1);
    LexCompareTriple(x, y);
  }

  // ---------------------------------------------------------------------------
  // Order properties of the raw comparator

  /** Swapping the arguments negates the result exactly. */
  lemma CompareAntisymmetric(bytes: seq<Byte>, start: int, len: int,
                             bytes1: seq<Byte>, start1: int, len1: int)
    requires Comparable(bytes, start) && Comparable(bytes1, start1)
    ensures Compare(bytes, start, len, bytes1, start1, len1).value
         == -Compare(bytes1, start1, len1, bytes, start, len).value
  {
  }

  /** Two keys compare equal exactly when their first nine bytes agree. */
  lemma CompareZeroIffSameComparedBytes(bytes: seq<Byte>, start: int, len: int,
                                        bytes1: seq<Byte>, start1: int, len1: int)
    requires Comparable(bytes, start) && Comparable(bytes1, start1)
    ensures Compare(bytes, start, len, bytes1, start1, len1) == Ok(0)
        <==> bytes[start..start + COMPARED_LENGTH] == bytes1[start1..start1 + COMPARED_LENGTH]
  {
    ComparedBytesFromFields(bytes, start);
    ComparedBytesFromFields(bytes1, start1);
    if bytes[start..start + COMPARED_LENGTH] == bytes1[start1..start1 + COMPARED_LENGTH] {
      SameComparedFields(bytes, start, bytes1, start1);
    }
  }

  /** The compared bytes are the encodings of termId and docId, then the flag. */
  lemma ComparedBytesFromFields(bytes: seq<Byte>, start: int)
    requires Comparable(bytes, start)
    ensures bytes[start..start + COMPARED_LENGTH]
         == WriteInt(TermIdAt(bytes, start)) + WriteInt(DocIdAt(bytes, start)) + [FlagAt(bytes, start)]
  {
    WriteReadInt(bytes, start);
    WriteReadInt(bytes, start + 4);
    assert bytes[start..start + COMPARED_LENGTH]
        == bytes[start..start + 4] + bytes[start + 4..start + 8] + [bytes[start + 8]];
  }

  /** The sort order is transitive, strictly so when either step is strict. */
  lemma CompareTransitive(a: seq<Byte>, sa: int, la: int,
                          b: seq<Byte>, sb: int, lb: int,
                          c: seq<Byte>, sc: int, lc: int)
    requires Comparable(a, sa) && Comparable(b, sb) && Comparable(c, sc)
    requires Compare(a, sa, la, b, sb, lb).value <= 0
    requires Compare(b, sb, lb, c, sc, lc).value <= 0
    ensures Compare(a, sa, la, c, sc, lc).value <= 0
    ensures Compare(a, sa, la, b, sb, lb).value < 0 || Compare(b, sb, lb, c, sc, lc).value < 0
      ==> Compare(a, sa, la, c, sc, lc).value < 0
  {
    CompareIsLexicographic(a, sa, la, b, sb, lb);
    CompareIsLexicographic(b, sb, lb, c, sc, lc);
    CompareIsLexicographic(a, sa, la, c, sc, lc);
    LexCompareTransitive(SortTuple(a, sa), SortTuple(b, sb), SortTuple(c, sc));
  }

  /**
   Only the nine compared bytes of each key matter: the branch bytes, the
   bytes around the key and the `len` arguments never change a comparison.
   */
  lemma CompareReadsOnlyComparedBytes(a: seq<Byte>, sa: int, la: int, b: seq<Byte>, sb: int, lb: int,
                                      a': seq<Byte>, sa': int, la': int, b': seq<Byte>, sb': int, lb': int)
    requires Comparable(a, sa) && Comparable(b, sb) && Comparable(a', sa') && Comparable(b', sb')
    requires a[sa..sa + COMPARED_LENGTH] == a'[sa'..sa' + COMPARED_LENGTH]
    requires b[sb..sb + COMPARED_LENGTH] == b'[sb'..sb' + COMPARED_LENGTH]
    ensures Compare(a, sa, la, b, sb, lb) == Compare(a', sa', la', b', sb', lb')
    ensures CompareNoBooleanCheck(a, sa, la, b, sb, lb) == CompareNoBooleanCheck(a', sa', la', b', sb', lb')
  {
    SameComparedFields(a, sa, a', sa');
    SameComparedFields(b, sb, b', sb');
  }

  lemma SliceOfSlice<T>(s: seq<T>, i: int, j: int, k: int, l: int)
    requires 0 <= i <= j <= |s| && 0 <= k <= l <= j - i
    ensures s[i..j][k..l] == s[i + k..i + l]
  {
    forall t | 0 <= t < l - k
      ensures s[i..j][k..l][t] == s[i + k..i + l][t]
    {
      assert s[i..j][k..l][t] == s[i..j][k + t];
    }
  }

  /** Keys whose compared bytes agree have the same termId, docId and flag. */
  lemma SameComparedFields(a: seq<Byte>, sa: int, a': seq<Byte>, sa': int)
    requires Comparable(a, sa) && Comparable(a', sa')
    requires a[sa..sa + COMPARED_LENGTH] == a'[sa'..sa' + COMPARED_LENGTH]
    ensures TermIdAt(a, sa) == TermIdAt(a', sa')
    ensures DocIdAt(a, sa) == DocIdAt(a', sa')
    ensures FlagAt(a, sa) == FlagAt(a', sa')
  {
    var w := a[sa..sa + COMPARED_LENGTH];
    assert a[sa..sa + 4] == w[0..4];
    assert a'[sa'..sa' + 4] == w[0..4];
    SliceOfSlice(a, sa, sa + COMPARED_LENGTH, 4, 8);
    SliceOfSlice(a', sa', sa' + COMPARED_LENGTH, 4, 8);
    assert a[sa + 8] == w[8] == a'[sa' + 8];
    ReadIntOfSlice(a, sa);
    ReadIntOfSlice(a', sa');
    ReadIntOfSlice(a, sa + 4);
    ReadIntOfSlice(a', sa' + 4);
  }

  /** For encoded keys, the branch field never affects the sort order. */
  lemma CompareIgnoresBranch(k: KeyFields, k1: KeyFields, branch: Int32, branch1: Int32)
    ensures Compare(EncodeKey(k), 0, KEY_LENGTH, EncodeKey(k1), 0, KEY_LENGTH)
         == Compare(EncodeKey(k.(branch := branch)), 0, KEY_LENGTH,
                    EncodeKey(k1.(branch := branch1)), 0, KEY_LENGTH)
  {
    var e, e1 := EncodeKey(k), EncodeKey(k1);
    var f, f1 := EncodeKey(k.(branch := branch)), EncodeKey(k1.(branch := branch1));
    assert e[..COMPARED_LENGTH] == f[..COMPARED_LENGTH];
    assert e1[..COMPARED_LENGTH] == f1[..COMPARED_LENGTH];
    CompareReadsOnlyComparedBytes(e, 0, KEY_LENGTH, e1, 0, KEY_LENGTH,
                                  f, 0, KEY_LENGTH, f1, 0, KEY_LENGTH);
  }

  /**
   For encoded keys the sort order is the key order: termId descending, then
   docId descending, then flag descending; the grouping comparison is zero
   exactly when termId and docId agree.
   */
  lemma CompareEncodedKeys(k: KeyFields, k1: KeyFields)
    ensures Sign(Compare(EncodeKey(k), 0, KEY_LENGTH, EncodeKey(k1), 0, KEY_LENGTH).value)
         == LexCompare([-(k.termId as int), -(k.docId as int), -(k.flag as int)],
                       [-(k1.termId as int), -(k1.docId as int), -(k1.flag as int)])
    ensures CompareNoBooleanCheck(EncodeKey(k), 0, KEY_LENGTH, EncodeKey(k1), 0, KEY_LENGTH) == Ok(0)
        <==> k.termId == k1.termId && k.docId == k1.docId
  {
    var e, e1 := EncodeKey(k), EncodeKey(k1);
    EncodedFields(k);
    EncodedFields(k1);
    CompareIsLexicographic(e, 0, KEY_LENGTH, e1, 0, KEY_LENGTH);
  }

  /** The fields the comparisons read from an encoded key are the key's own. */
  lemma EncodedFields(k: KeyFields)
    ensures Comparable(EncodeKey(k), 0)
    ensures TermIdAt(EncodeKey(k), 0) == k.termId
    ensures DocIdAt(EncodeKey(k), 0) == k.docId
    ensures FlagAt(EncodeKey(k), 0) == k.flag
  {
    var rest := [k.flag] + WriteInt(k.branch);
    ReadWriteInt([], k.termId, WriteInt(k.docId) + rest);
    assert EncodeKey(k) == [] + WriteInt(k.termId) + (WriteInt(k.docId) + rest);
    ReadWriteInt(WriteInt(k.termId), k.docId, rest);
    assert EncodeKey(k) == WriteInt(k.termId) + WriteInt(k.docId) + rest;
  }

  // ---------------------------------------------------------------------------
  // Branch decoding

  /**
   `getBranch(bytes, offset)`, with `AggregationBranch.values()` given as
   `values`. The stored int minus one, in 32-bit arithmetic, indexes `values`;
   a negative index means no branch, and an index past the end raises.
   */
  function GetBranch<B>(bytes: seq<Byte>, offset: int, values: seq<B>): (r: Result<Option<B>>)
    ensures !IntInBounds(bytes, offset) ==> r == Throws(ArrayIndexOutOfBounds)
    ensures IntInBounds(bytes, offset) ==>
      var stored := ReadInt(bytes, offset).value;
      && (INT_MIN < stored <= 0 ==> r == Ok(None))
      && (1 <= stored <= |values| ==> r == Ok(Some(values[stored - 1])))
      && (stored > |values| ==> r == Throws(ArrayIndexOutOfBounds))
  {
    var stored :- ReadInt(bytes, offset);
    var i := Wrap32(stored - 1);
    if i < 0 then Ok(None)
    else if i < |values| then Ok(Some(values[i]))
    else Throws(ArrayIndexOutOfBounds)
  }

  /**
   The stored int Integer.MIN_VALUE is not read as "no branch": subtracting one
   wraps to Integer.MAX_VALUE, which indexes past any enum's values.
   */
  lemma GetBranchMinValueThrows<B>(values: seq<B>)
    requires |values| < INT_MAX
    ensures GetBranch(WriteInt(INT_MIN), 0, values) == Throws(ArrayIndexOutOfBounds)
  {
    ReadWriteInt([], INT_MIN, []);
    assert [] + WriteInt(INT_MIN) + [] == WriteInt(INT_MIN);
  }

  /** `getBranch` as intended: every stored int up to zero means no branch. */
  function GetBranchIntended<B>(bytes: seq<Byte>, offset: int, values: seq<B>): (r: Result<Option<B>>)
    ensures r == Ok(None) <==> IntInBounds(bytes, offset) && ReadInt(bytes, offset).value <= 0
    ensures IntInBounds(bytes, offset) && 1 <= ReadInt(bytes, offset).value <= |values| ==>
      r == Ok(Some(values[ReadInt(bytes, offset).value - 1]))
    ensures r.Throws? ==> r.exception == ArrayIndexOutOfBounds
    ensures r.Throws? <==> !IntInBounds(bytes, offset) || ReadInt(bytes, offset).value > |values|
  {
    var stored :- ReadInt(bytes, offset);
    if stored <= 0 then Ok(None)
    else if stored - 1 < |values| then Ok(Some(values[stored - 1]))
    else Throws(ArrayIndexOutOfBounds)
  }

  /** The int a key stores for a branch: its ordinal plus one, or 0 for none. */
  function StoredBranch(ordinal: Option<nat>): Int32
    requires ordinal.Some? ==> ordinal.value < INT_MAX
  {
    match ordinal
    case None => 0
    case Some(i) => i + 1
  }

  /** Decoding the stored int of a branch ordinal gives that branch back. */
  lemma GetBranchIntendedInvertsStoredBranch<B>(values: seq<B>, ordinal: Option<nat>)
    requires |values| < INT_MAX
    requires ordinal.Some? ==> ordinal.value < |values|
    ensures GetBranchIntended(WriteInt(StoredBranch(ordinal)), 0, values)
         == Ok(if ordinal.Some? then Some(values[ordinal.value]) else None)
  {
    ReadWriteInt([], StoredBranch(ordinal), []);
    assert [] + WriteInt(StoredBranch(ordinal)) + [] == WriteInt(StoredBranch(ordinal));
  }

  /**
   The code as written and the intended decoding give the same result exactly
   when the stored int is not Integer.MIN_VALUE.
   */
  lemma GetBranchAgreesAwayFromMinValue<B>(bytes: seq<Byte>, offset: int, values: seq<B>)
    ensures GetBranch(bytes, offset, values) == GetBranchIntended(bytes, offset, values)
        <==> ReadInt(bytes, offset) != Ok(INT_MIN)
  {
  }
}
