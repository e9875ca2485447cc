/**
 The pure part of Mahout's `MatrixUtils`: turning a term dictionary around,
 folding dictionary records into a map, and assembling a row matrix from
 (row index, vector) records. Reading the SequenceFiles is replaced by the
 records themselves, one sequence per file, in file order.
 */
module MatrixUtils {
  import opened Java

  // ---------------------------------------------------------------------------
  // Placing values at int indices; a later value at the same index wins

  /** A value bound for slot `index` of an array. */
  datatype Entry<V> = Entry(index: Int32, value: V)

  /** No entry after the `i`-th has its index, so nothing overwrites its value. */
  predicate NotOverwritten<V>(entries: seq<Entry<V>>, i: int)
    requires 0 <= i < |entries|
  {
    forall k :: i < k < |entries| ==> entries[k].index != entries[i].index
  }

  /** The value the last entry with index `j` carries, if any entry has that index. */
  function LastAt<V>(entries: seq<Entry<V>>, j: int): (r: Option<V>)
    ensures r.None? <==> forall i :: 0 <= i < |entries| ==> entries[i].index != j
    ensures r.Some? ==> exists i :: 0 <= i < |entries| && entries[i] == Entry(j, r.value)
                                    && forall k :: i < k < |entries| ==> entries[k].index != j
  {
    if |entries| == 0 then None
    else
      var last := entries[|entries| - 1];
      if last.index == j then Some(last.value) else LastAt(entries[..|entries| - 1], j)
  }

  /** The last entry with a given index is the one `LastAt` finds. */
  lemma LastAtLastOccurrence<V>(entries: seq<Entry<V>>, i: int)
    requires 0 <= i < |entries| && NotOverwritten(entries, i)
    ensures LastAt(entries, entries[i].index) == Some(entries[i].value)
  {
    var r := LastAt(entries, entries[i].index);
    var i' :| 0 <= i' < |entries| && entries[i'] == Entry(entries[i].index, r.value)
              && forall k :: i' < k < |entries| ==> entries[k].index != entries[i].index;
  }

  /** When every entry with index `j` carries `v`, and one does, `LastAt` finds `v`. */
  lemma LastAtUniform<V>(entries: seq<Entry<V>>, j: int, v: V)
    requires exists i :: 0 <= i < |entries| && entries[i].index == j && entries[i].value == v
    requires forall i :: 0 <= i < |entries| && entries[i].index == j ==> entries[i].value == v
    ensures LastAt(entries, j) == Some(v)
  {
    var r := LastAt(entries, j);
    var i' :| 0 <= i' < |entries| && entries[i'] == Entry(j, r.value)
              && forall k :: i' < k < |entries| ==> entries[k].index != j;
  }

  function Max(x: int, y: int): int {
    if x < y then y else x
  }

  /** `Math.max` folded over the indices, starting from -1. */
  function MaxIndex<V>(entries: seq<Entry<V>>): (m: int)
    ensures -1 <= m <= INT_MAX
    ensures forall i :: 0 <= i < |entries| ==> entries[i].index <= m
    ensures m == -1 || exists i :: 0 <= i < |entries| && entries[i].index == m
  {
    if |entries| == 0 then -1
    else Max(MaxIndex(entries[..|entries| - 1]), entries[|entries| - 1].index)
  }

  /** The loop computing `Math.max` over the indices, starting from -1. */
  method LargestIndex<V>(entries: seq<Entry<V>>) returns (m: int)
    ensures m == MaxIndex(entries)
  {
    m := -1;
    var i := 0;
    while i < |entries|
      invariant 0 <= i <= |entries|
      invariant m == MaxIndex(entries[..i])
    {
      assert entries[..i + 1][..i] == entries[..i];
      m := Max(m, entries[i].index);
      i := i + 1;
    }
    assert entries[..i] == entries;
  }

  /**
   `array[index] = value` for each entry in turn, into a fresh array of `size`
   nulls. An index outside the array, negative or past its end, raises.
   */
  method PlaceAll<V>(size: nat, entries: seq<Entry<V>>) returns (r: Result<seq<Option<V>>>)
    ensures r.Throws? <==> exists i :: 0 <= i < |entries| && !(0 <= entries[i].index < size)
    ensures r.Throws? ==> r.exception == ArrayIndexOutOfBounds
    ensures r.Ok? ==> |r.value| == size
    ensures r.Ok? ==> forall j :: 0 <= j < size ==> r.value[j] == LastAt(entries, j)
  {
    var slots: seq<Option<V>> := seq(size, _ => None);
    var i := 0;
    while i < |entries|
      invariant 0 <= i <= |entries|
      invariant |slots| == size
      invariant forall k :: 0 <= k < i ==> 0 <= entries[k].index < size
      invariant forall j :: 0 <= j < size ==> slots[j] == LastAt(entries[..i], j)
    {
      var e := entries[i];
      if e.index < 0 || e.index >= |slots| {
        return Throws(ArrayIndexOutOfBounds);
      }
      assert entries[..i + 1][..i] == entries[..i];
      slots := slots[e.index := Some(e.value)];
      i := i + 1;
    }
    assert entries[..i] == entries;
    return Ok(slots);
  }

  // ---------------------------------------------------------------------------
  // Dictionaries

  /** One record of a dictionary file: a term and its id. */
  datatype DictionaryRecord = DictionaryRecord(term: string, id: Int32)

  /** True when no record after the `i`-th repeats its term. */
  predicate LastRecordFor(records: seq<DictionaryRecord>, i: int)
    requires 0 <= i < |records|
  {
    forall k :: i < k < |records| ==> records[k].term != records[i].term
  }

  /** `dictionary.put(term, id)` for each record in turn. */
  function PutAll(dictionary: map<string, Int32>, records: seq<DictionaryRecord>): (d: map<string, Int32>)
    ensures d.Keys == dictionary.Keys + (set i | 0 <= i < |records| :: records[i].term)
  {
    if |records| == 0 then dictionary
    else
      var init := records[..|records| - 1];
      var last := records[|records| - 1];
      assert (set i | 0 <= i < |records| :: records[i].term)
          == (set i | 0 <= i < |init| :: init[i].term) + {last.term};
      PutAll(dictionary, init)[last.term := last.id]
  }

  /** A term no record mentions keeps the id it had. */
  lemma {:induction false} PutAllKeepsOthers(dictionary: map<string, Int32>, records: seq<DictionaryRecord>, t: string)
    requires t in dictionary
    requires forall i :: 0 <= i < |records| ==> records[i].term != t
    ensures PutAll(dictionary, records)[t] == dictionary[t]
  {
    if |records| > 0 {
      PutAllKeepsOthers(dictionary, records[..|records| - 1], t);
    }
  }

  /** A term takes the id of the last record that mentions it. */
  lemma {:induction false} PutAllLastWins(dictionary: map<string, Int32>, records: seq<DictionaryRecord>, i: int)
    requires 0 <= i < |records| && LastRecordFor(records, i)
    ensures PutAll(dictionary, records)[records[i].term] == records[i].id
  {
    var n := |records|;
    if i < n - 1 {
      var init := records[..n - 1];
      assert LastRecordFor(init, i) by {
        forall k | i < k < |init| ensures init[k].term != init[i].term {
          assert init[k] == records[k];
        }
      }
      PutAllLastWins(dictionary, init, i);
    }
  }

  /** The records of all files, file after file. */
  function Concat<T>(files: seq<seq<T>>): (all: seq<T>)
    ensures |all| == 0 <==> forall f :: 0 <= f < |files| ==> |files[f]| == 0
  {
    if |files| == 0 then []
    else Concat(files[..|files| - 1]) + files[|files| - 1]
  }

  /**
   `readDictionary`: every record of every file, in file order, put into an
   initially empty map. Its keys are exactly the terms of all records, and a
   term repeated anywhere gets the id of its last record across all files.
   */
  function ReadDictionary(files: seq<seq<DictionaryRecord>>): (d: map<string, Int32>)
    ensures d == PutAll(map[], Concat(files))
    ensures d.Keys == set i | 0 <= i < |Concat(files)| :: Concat(files)[i].term
    ensures forall i :: 0 <= i < |Concat(files)| && LastRecordFor(Concat(files), i)
                        ==> d[Concat(files)[i].term] == Concat(files)[i].id
  {
    PutAllLastWinsEverywhere(map[], Concat(files));
    if |files| == 0 then map[]
    else
      var init := files[..|files| - 1];
      PutAllConcat(map[], Concat(init), files[|files| - 1]);
      PutAll(ReadDictionary(init), files[|files| - 1])
  }

  /** Every record not repeated later decides its term's id. */
  lemma PutAllLastWinsEverywhere(dictionary: map<string, Int32>, records: seq<DictionaryRecord>)
    ensures forall i :: 0 <= i < |records| && LastRecordFor(records, i)
                        ==> PutAll(dictionary, records)[records[i].term] == records[i].id
  {
    forall i | 0 <= i < |records| && LastRecordFor(records, i)
      ensures PutAll(dictionary, records)[records[i].term] == records[i].id
    {
      PutAllLastWins(dictionary, records, i);
    }
  }

  /** Putting two batches of records one after the other is putting their concatenation. */
  lemma {:induction false} PutAllConcat(m: map<string, Int32>, a: seq<DictionaryRecord>, b: seq<DictionaryRecord>)
    ensures PutAll(PutAll(m, a), b) == PutAll(m, a + b)
    decreases |b|
  {
    if |b| > 0 {
      var b' := b[..|b| - 1];
      PutAllConcat(m, a, b');
      assert (a + b)[..|a + b| - 1] == a + b';
    } else {
      assert a + b == a;
    }
  }

  /** The entries `invertDictionary` writes: (id, term) for each key in iteration order. */
  function DictionaryEntries(order: seq<string>, termIdMap: map<string, Int32>): (es: seq<Entry<string>>)
    requires forall i :: 0 <= i < |order| ==> order[i] in termIdMap
    ensures |es| == |order|
    ensures forall i :: 0 <= i < |order| ==> es[i] == Entry(termIdMap[order[i]], order[i])
  {
    seq(|order|, i requires 0 <= i < |order| => Entry(termIdMap[order[i]], order[i]))
  }

  /** `order` lists every key of the map: the map's iteration order. */
  predicate IsKeyOrder(order: seq<string>, termIdMap: map<string, Int32>) {
    && (forall i :: 0 <= i < |order| ==> order[i] in termIdMap)
    && (forall t :: t in termIdMap ==> t in order)
  }

  /** No two terms share an id. */
  predicate Injective(termIdMap: map<string, Int32>) {
    forall t, t' :: t in termIdMap && t' in termIdMap && t != t' ==> termIdMap[t] != termIdMap[t']
  }

  /**
   `invertDictionary`: an array indexed by term id, as long as the largest id
   plus one, holding each term at its id and null elsewhere. The map is visited
   in its iteration order `order`; when two terms share an id, the later wins.
   */
  method InvertDictionary(termIdMap: map<string, Int32>, order: seq<string>)
    returns (r: Result<seq<Option<string>>>)
    requires IsKeyOrder(order, termIdMap)
    ensures r.Ok? <==> forall t :: t in termIdMap ==> 0 <= termIdMap[t] < INT_MAX
    ensures r == Throws(NegativeArraySize) <==> exists t :: t in termIdMap && termIdMap[t] == INT_MAX
    ensures r.Throws? ==> r.exception == NegativeArraySize || r.exception == ArrayIndexOutOfBounds
    ensures r.Ok? ==> forall t :: t in termIdMap ==> termIdMap[t] < |r.value|
    ensures r.Ok? ==> |r.value| == 0 || exists t :: t in termIdMap && termIdMap[t] == |r.value| - 1
    ensures |termIdMap| == 0 ==> r == Ok([])
    ensures r.Ok? ==> forall j :: 0 <= j < |r.value| ==> r.value[j] == LastAt(DictionaryEntries(order, termIdMap), j)
    ensures r.Ok? ==> forall j :: 0 <= j < |r.value| && r.value[j].Some? ==>
              r.value[j].value in termIdMap && termIdMap[r.value[j].value] == j
    ensures r.Ok? ==> forall j :: (0 <= j < |r.value| && forall t :: t in termIdMap ==> termIdMap[t] != j)
                               ==> r.value[j] == None
    ensures r.Ok? && Injective(termIdMap) ==> forall t :: t in termIdMap ==> r.value[termIdMap[t]] == Some(t)
  {
    var entries := DictionaryEntries(order, termIdMap);
    var maxTermId := LargestIndex(entries);
    InvertDictionaryOutcome(termIdMap, order);
    var size := Wrap32(maxTermId + 1);
    if size < 0 {
      return Throws(NegativeArraySize);
    }
    r := PlaceAll(size, entries);
    if r.Ok? {
      assert PlacedFromDictionary(termIdMap, order, r.value);
      InvertDictionarySlots(termIdMap, order, r.value);
    }
  }

  /** Each entry pairs a key of the map with its id, and each key has an entry. */
  lemma DictionaryEntriesCoverMap(termIdMap: map<string, Int32>, order: seq<string>)
    requires IsKeyOrder(order, termIdMap)
    ensures var es := DictionaryEntries(order, termIdMap);
      && (forall t :: t in termIdMap ==> exists i :: 0 <= i < |es| && es[i] == Entry(termIdMap[t], t))
      && (forall i :: 0 <= i < |es| ==> es[i].value in termIdMap && termIdMap[es[i].value] == es[i].index)
  {
    var es := DictionaryEntries(order, termIdMap);
    forall t | t in termIdMap
      ensures exists i :: 0 <= i < |es| && es[i] == Entry(termIdMap[t], t)
    {
      var i :| 0 <= i < |order| && order[i] == t;
      assert es[i] == Entry(termIdMap[t], t);
    }
  }

  /** Which exception, if any, the ids of the map lead `invertDictionary` to. */
  lemma InvertDictionaryOutcome(termIdMap: map<string, Int32>, order: seq<string>)
    requires IsKeyOrder(order, termIdMap)
    ensures var es := DictionaryEntries(order, termIdMap);
      && (MaxIndex(es) == INT_MAX <==> exists t :: t in termIdMap && termIdMap[t] == INT_MAX)
      && ((exists i :: 0 <= i < |es| && es[i].index < 0) <==> exists t :: t in termIdMap && termIdMap[t] < 0)
      && (|termIdMap| == 0 ==> MaxIndex(es) == -1 && |es| == 0)
  {
    DictionaryEntriesCoverMap(termIdMap, order);
  }

  /** The slots `invertDictionary` places, as the method call states them. */
  predicate PlacedFromDictionary(termIdMap: map<string, Int32>, order: seq<string>, slots: seq<Option<string>>)
    requires IsKeyOrder(order, termIdMap)
  {
    var es := DictionaryEntries(order, termIdMap);
    && |slots| == MaxIndex(es) + 1
    && forall j :: 0 <= j < |slots| ==> slots[j] == LastAt(es, j)
  }

  /** What the slots placed by `invertDictionary` hold, stated over the map. */
  lemma InvertDictionarySlots(termIdMap: map<string, Int32>, order: seq<string>, slots: seq<Option<string>>)
    requires IsKeyOrder(order, termIdMap)
    requires forall t :: t in termIdMap ==> termIdMap[t] >= 0
    requires PlacedFromDictionary(termIdMap, order, slots)
    ensures forall t :: t in termIdMap ==> termIdMap[t] < |slots|
    ensures |slots| == 0 || exists t :: t in termIdMap && termIdMap[t] == |slots| - 1
    ensures forall j :: 0 <= j < |slots| && slots[j].Some? ==>
              slots[j].value in termIdMap && termIdMap[slots[j].value] == j
    ensures forall j :: (0 <= j < |slots| && forall t :: t in termIdMap ==> termIdMap[t] != j)
                        ==> slots[j] == None
    ensures Injective(termIdMap) ==> forall t :: t in termIdMap ==> slots[termIdMap[t]] == Some(t)
  {
    DictionaryEntriesCoverMap(termIdMap, order);
    SlotsHoldOwnIds(termIdMap, order, slots);
    SlotsWithoutIdEmpty(termIdMap, order, slots);
    if Injective(termIdMap) {
      SlotsOfInjective(termIdMap, order, slots);
    }
  }

  lemma SlotsHoldOwnIds(termIdMap: map<string, Int32>, order: seq<string>, slots: seq<Option<string>>)
    requires IsKeyOrder(order, termIdMap)
    requires PlacedFromDictionary(termIdMap, order, slots)
    ensures forall j :: 0 <= j < |slots| && slots[j].Some? ==>
              slots[j].value in termIdMap && termIdMap[slots[j].value] == j
  {
    var es := DictionaryEntries(order, termIdMap);
    forall j | 0 <= j < |slots| && slots[j].Some?
      ensures slots[j].value in termIdMap && termIdMap[slots[j].value] == j
    {
      assert slots[j] == LastAt(es, j);
      var i :| 0 <= i < |es| && es[i] == Entry(j, slots[j].value)
               && forall k :: i < k < |es| ==> es[k].index != j;
      assert es[i] == Entry(termIdMap[order[i]], order[i]);
    }
  }

  lemma SlotsWithoutIdEmpty(termIdMap: map<string, Int32>, order: seq<string>, slots: seq<Option<string>>)
    requires IsKeyOrder(order, termIdMap)
    requires PlacedFromDictionary(termIdMap, order, slots)
    ensures forall j :: (0 <= j < |slots| && forall t :: t in termIdMap ==> termIdMap[t] != j)
                        ==> slots[j] == None
  {
    var es := DictionaryEntries(order, termIdMap);
    forall j | 0 <= j < |slots| && (forall t :: t in termIdMap ==> termIdMap[t] != j)
      ensures slots[j] == None
    {
      assert slots[j] == LastAt(es, j);
      forall i | 0 <= i < |es| ensures es[i].index != j {
        assert es[i] == Entry(termIdMap[order[i]], order[i]);
      }
    }
  }

  lemma SlotsOfInjective(termIdMap: map<string, Int32>, order: seq<string>, slots: seq<Option<string>>)
    requires IsKeyOrder(order, termIdMap)
    requires PlacedFromDictionary(termIdMap, order, slots)
    requires forall t :: t in termIdMap ==> termIdMap[t] >= 0
    requires Injective(termIdMap)
    ensures forall t :: t in termIdMap ==> termIdMap[t] < |slots| && slots[termIdMap[t]] == Some(t)
  {
    var es := DictionaryEntries(order, termIdMap);
    DictionaryEntriesCoverMap(termIdMap, order);
    forall t | t in termIdMap
      ensures termIdMap[t] < |slots| && slots[termIdMap[t]] == Some(t)
    {
      var id := termIdMap[t];
      forall i | 0 <= i < |es| && es[i].index == id
        ensures es[i].value == t
      {
        assert termIdMap[es[i].value] == id;
      }
      LastAtUniform(es, id, t);
    }
  }

  // ---------------------------------------------------------------------------
  // Row matrices

  /** A vector, seen only through its cardinality, its density and its opaque cells. */
  datatype Vector<C> = Vector(size: nat, isDense: bool, cells: C)

  /** One record of a matrix file: a row index and its vector. */
  type Row<C> = Entry<Vector<C>>

  datatype MatrixKind = SparseRow | Dense

  /** The assembled matrix: its kind, its dimensions and the vector placed in each row slot. */
  datatype Matrix<C> = Matrix(kind: MatrixKind, numRows: nat, numCols: nat, rows: seq<Option<Vector<C>>>)

  /**
   What `read` makes of the rows of all files, in order: no rows raise an
   IOException; an index of Integer.MAX_VALUE overflows the row count into a
   negative array size; a negative index raises ArrayIndexOutOfBounds.
   Otherwise the row count is the largest index plus one, the column count is
   the size of the first row, the kind follows the density of the last row,
   and each vector lands at its own index unless a later row takes that index;
   slots no row names stay null.
   */
  ghost predicate AssembledFrom<C>(rows: seq<Row<C>>, r: Result<Matrix<C>>) {
    && (r == Throws(NoVectors) <==> |rows| == 0)
    && (r == Throws(NegativeArraySize) <==>
          |rows| > 0 && exists i :: 0 <= i < |rows| && rows[i].index == INT_MAX)
    && (r.Ok? <==> |rows| > 0 && forall i :: 0 <= i < |rows| ==> 0 <= rows[i].index < INT_MAX)
    && (r.Ok? ==>
          && |rows| > 0
          && r.value.numCols == rows[0].value.size
          && (r.value.kind == SparseRow <==> !rows[|rows| - 1].value.isDense)
          && r.value.numRows == |r.value.rows|
          && (forall i :: 0 <= i < |rows| ==> rows[i].index < r.value.numRows)
          && (exists i :: 0 <= i < |rows| && rows[i].index == r.value.numRows - 1)
          && (forall j :: 0 <= j < r.value.numRows ==> r.value.rows[j] == LastAt(rows, j))
          && (forall i :: 0 <= i < |rows| && NotOverwritten(rows, i)
                ==> r.value.rows[rows[i].index] == Some(rows[i].value))
          && (forall j :: 0 <= j < r.value.numRows && (forall i :: 0 <= i < |rows| ==> rows[i].index != j)
                ==> r.value.rows[j] == None))
  }

  /** `read`: the rows of every file, in file order, assembled into one matrix. */
  method Read<C>(files: seq<seq<Row<C>>>) returns (r: Result<Matrix<C>>)
    ensures r == Throws(NoVectors) <==> forall f :: 0 <= f < |files| ==> |files[f]| == 0
    ensures AssembledFrom(Concat(files), r)
  {
    r := AssembleRows(Concat(files));
  }

  /** The assembly step of `read`, over the rows of all files in order. */
  method AssembleRows<C>(rows: seq<Row<C>>) returns (r: Result<Matrix<C>>)
    ensures AssembledFrom(rows, r)
  {
    var numRows, numCols, sparse := ScanRows(rows);
    if |rows| == 0 {
      return Throws(NoVectors);
    }
    var size := Wrap32(numRows + 1);
    if size < 0 {
      return Throws(NegativeArraySize);
    }
    var slots := PlaceAll(size, rows);
    if slots.Throws? {
      return Throws(slots.exception);
    }
    PlacedEntries(rows, slots.value);
    var kind := if sparse then SparseRow else Dense;
    return Ok(Matrix(kind, size, numCols, slots.value));
  }

  /**
   The per-row bookkeeping of `read`: the largest index seen (from -1), the
   size of the first row (-1 until there is one) and whether the row read
   last was sparse.
   */
  method ScanRows<C>(rows: seq<Row<C>>) returns (numRows: int, numCols: int, sparse: bool)
    ensures numRows == MaxIndex(rows)
    ensures numCols == if |rows| == 0 then -1 else rows[0].value.size
    ensures sparse <==> |rows| > 0 && !rows[|rows| - 1].value.isDense
  {
    numRows, numCols, sparse := -1, -1, false;
    var i := 0;
    while i < |rows|
      invariant 0 <= i <= |rows|
      invariant numRows == MaxIndex(rows[..i])
      invariant numCols == if i == 0 then -1 else rows[0].value.size
      invariant sparse == (i > 0 && !rows[i - 1].value.isDense)
    {
      assert rows[..i + 1][..i] == rows[..i];
      numRows := Max(numRows, rows[i].index);
      sparse := !rows[i].value.isDense;
      if numCols < 0 {
        numCols := rows[i].value.size;
      }
      i := i + 1;
    }
    assert rows[..i] == rows;
  }

  /** Slots filled from entries hold each entry not overwritten later, and nothing at unused indices. */
  lemma PlacedEntries<V>(entries: seq<Entry<V>>, slots: seq<Option<V>>)
    requires forall i :: 0 <= i < |entries| ==> 0 <= entries[i].index < |slots|
    requires forall j :: 0 <= j < |slots| ==> slots[j] == LastAt(entries, j)
    ensures forall i :: 0 <= i < |entries| && NotOverwritten(entries, i)
              ==> slots[entries[i].index] == Some(entries[i].value)
    ensures forall j :: (0 <= j < |slots| && forall i :: 0 <= i < |entries| ==> entries[i].index != j)
              ==> slots[j] == None
  {
    forall i | 0 <= i < |entries| && NotOverwritten(entries, i)
      ensures slots[entries[i].index] == Some(entries[i].value)
    {
      LastAtLastOccurrence(entries, i);
    }
  }
}
