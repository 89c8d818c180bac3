/**
 * The observable vector of src/common/SignalVector.hpp and the table model over it of
 * src/common/SignalVectorModel.hpp. A signal is a call of the connected model.
 */
module SignalVectors {
  import opened Collections
  import opened ModelRows

  type Compare<!T> = (T, T) -> bool

  /** The first position whose element is not less than `x`. */
  function LowerBound<T>(less: Compare<T>, items: seq<T>, x: T): (k: nat)
    ensures k <= |items| && (k < |items| ==> !less(items[k], x))
    ensures forall j :: 0 <= j < k ==> less(items[j], x)
  {
    if items == [] || !less(items[0], x) then 0 else
      var k := 1 + LowerBound(less, items[1..], x);
      assert forall j :: 1 <= j < k ==> items[j] == items[1..][j - 1];
      k
  }

  /** Where `insert` puts an item: a sorted vector ignores the proposed index, -1 appends. */
  function InsertIndex<T>(compare: Option<Compare<T>>, items: seq<T>, item: T, index: int): (k: int)
    ensures compare.Some? || index == -1 ==> 0 <= k <= |items|
  {
    match compare
    case Some(less) => LowerBound(less, items, item)
    case None => if index == -1 then |items| else index
  }

  ghost predicate StrictWeakOrder<T(!new)>(less: Compare<T>) {
    && (forall x, y :: less(x, y) ==> !less(y, x))
    && (forall x, y, z :: !less(x, y) && !less(y, z) ==> !less(x, z))
  }

  ghost predicate Sorted<T>(less: Compare<T>, items: seq<T>) {
    forall i, j :: 0 <= i < j < |items| ==> !less(items[j], items[i])
  }

  /** A vector that compares its items by a strict weak order holds them sorted. */
  ghost predicate InOrder<T(!new)>(compare: Option<Compare<T>>, items: seq<T>) {
    compare.Some? && StrictWeakOrder(compare.value) ==> Sorted(compare.value, items)
  }

  lemma InsertKeepsOrder<T(!new)>(compare: Option<Compare<T>>, items: seq<T>, item: T, index: nat)
    requires InOrder(compare, items) && index <= |items|
    requires compare.Some? ==> index == LowerBound(compare.value, items, item)
    ensures InOrder(compare, InsertAt(items, index, item))
  {
    if compare.Some? && StrictWeakOrder(compare.value) {
      InsertKeepsSorted(compare.value, items, item);
    }
  }

  lemma RemoveKeepsOrder<T(!new)>(compare: Option<Compare<T>>, items: seq<T>, index: nat)
    requires InOrder(compare, items) && index < |items|
    ensures InOrder(compare, RemoveAt(items, index))
  {
    if compare.Some? && StrictWeakOrder(compare.value) {
      RemoveKeepsSorted(compare.value, items, index);
    }
  }

  /** Insertion at the lower bound keeps a sorted vector sorted. */
  lemma InsertKeepsSorted<T(!new)>(less: Compare<T>, items: seq<T>, x: T)
    requires StrictWeakOrder(less) && Sorted(less, items)
    ensures Sorted(less, InsertAt(items, LowerBound(less, items, x), x))
  {
    var k := LowerBound(less, items, x);
    var s := InsertAt(items, k, x);
    forall j | k <= j < |items|
      ensures !less(items[j], x)
    {
      assert j > k ==> !less(items[j], items[k]);
    }
    forall i, j | 0 <= i < j < |s|
      ensures !less(s[j], s[i])
    {
      if i < k && j == k {
        assert less(items[i], x);
      }
    }
  }

  lemma RemoveKeepsSorted<T>(less: Compare<T>, items: seq<T>, k: nat)
    requires Sorted(less, items) && k < |items|
    ensures Sorted(less, RemoveAt(items, k))
  {
  }

  /** An unsorted vector takes the proposed index; a sorted one puts the item behind all that are less and in
      front of one that is not. */
  ghost predicate Lands<T>(compare: Option<Compare<T>>, items: seq<T>, item: T, proposed: int, index: int) {
    match compare
    case None => index == if proposed == -1 then |items| else proposed
    case Some(less) => 0 <= index <= |items| && (forall j :: 0 <= j < index ==> less(items[j], item))
                       && (index < |items| ==> !less(items[index], item))
  }

  /** One cell is written, and nothing else of its row and no other row. */
  ghost predicate OnlyCellWritten<T>(before: seq<Row<T>>, after: seq<Row<T>>, row: nat, column: nat,
                                     write: Cell -> Cell) {
    && row < |before| == |after| && column < |before[row].cells| == |after[row].cells|
    && after[row].cells[column] == write(before[row].cells[column])
    && (forall k :: 0 <= k < |before[row].cells| && k != column ==> after[row].cells[k] == before[row].cells[k])
    && after[row].original == before[row].original && after[row].isCustom == before[row].isCustom
    && forall i :: 0 <= i < |before| && i != row ==> after[i] == before[i]
  }

  class SignalVector<T(==, !new)> {
    const compare: Option<Compare<T>>
    var items: seq<T>
    var readOnly: seq<T>
    /** The model that is connected to the signals. */
    var listener: SignalVectorModel?<T>

    /** The copy is up to date, and a sorted vector is sorted. */
    ghost predicate Valid()
      reads this
    {
      readOnly == items && InOrder(compare, items)
    }

    constructor (compare: Option<Compare<T>>)
      ensures Valid() && items == [] && listener == null && this.compare == compare
    {
      this.compare := compare;
      items, readOnly := [], [];
      listener := null;
    }

    method Insert(item: T, proposed: int, caller: object?) returns (index: int)
      requires Valid() && (compare.None? ==> -1 <= proposed <= |items|)
      modifies this`items, this`readOnly, if listener == null then {} else {listener}
      ensures Valid() && index == InsertIndex(compare, old(items), item, proposed)
      ensures 0 <= index <= |old(items)| && items == InsertAt(old(items), index, item)
      ensures compare.None? && proposed == -1 ==> items == old(items) + [item]
      ensures Lands(compare, old(items), item, proposed, index)
      ensures listener != null ==>
                listener.rows == if caller == listener then old(listener.rows)
                                 else InsertAt(old(listener.rows), ModelIndex(old(listener.rows), index),
                                               OrdinaryRow(listener.codec, item))
      ensures listener != null && old(listener.InSync(this)) && caller != listener ==> listener.InSync(this)
    {
      match compare {
        case Some(less) =>
          index := LowerBound(less, items, item);
        case None =>
          index := if proposed == -1 then |items| else proposed;
      }
      InsertKeepsOrder(compare, items, item, index);
      PlaceAt(item, index, caller);
    }

    /** Puts an item in its place and tells the model. */
    method PlaceAt(item: T, index: nat, caller: object?)
      requires index <= |items| && InOrder(compare, InsertAt(items, index, item))
      modifies this`items, this`readOnly, if listener == null then {} else {listener}
      ensures items == InsertAt(old(items), index, item) && readOnly == items
      ensures listener != null ==>
                listener.rows == if caller == listener then old(listener.rows)
                                 else InsertAt(old(listener.rows), ModelIndex(old(listener.rows), index),
                                               OrdinaryRow(listener.codec, item))
      ensures listener != null && old(listener.InSync(this)) && caller != listener ==> listener.InSync(this)
    {
      if listener != null && listener.InSync(this) {
        InsertStaysInSync(listener.codec, listener.rows, items, index, item);
      }
      items := InsertAt(items, index, item);
      if listener != null {
        listener.OnItemInserted(item, index, caller);
      }
      readOnly := items;
    }

    method RemoveAtIndex(index: int, caller: object?)
      requires Valid() && 0 <= index < |items|
      requires listener != null && caller != listener ==> index < OrdinaryCount(listener.rows)
      modifies this`items, this`readOnly, if listener == null then {} else {listener}
      ensures Valid() && items == RemoveAt(old(items), index)
      ensures listener != null ==>
                if caller == listener then listener.rows == old(listener.rows)
                else ModelIndex(old(listener.rows), index) < |old(listener.rows)|
                     && listener.rows == RemoveAt(old(listener.rows), ModelIndex(old(listener.rows), index))
      ensures listener != null && old(listener.InSync(this)) && caller != listener ==> listener.InSync(this)
    {
      if listener != null && listener.InSync(this) {
        RemoveStaysInSync(listener.codec, listener.rows, items, index);
      }
      RemoveKeepsOrder(compare, items, index);
      items := RemoveAt(items, index);
      if listener != null {
        listener.OnItemRemoved(index, caller);
      }
      readOnly := items;
    }

    /** Removes the first match, if any. */
    method RemoveFirstMatching(matcher: T -> bool, caller: object?) returns (removed: bool, ghost at: nat)
      requires Valid()
      requires listener != null && caller != listener ==> OrdinaryCount(listener.rows) == |items|
      modifies this`items, this`readOnly, if listener == null then {} else {listener}
      ensures Valid() && (forall j :: 0 <= j < at <= |old(items)| ==> !matcher(old(items)[j]))
      ensures removed <==> exists j :: 0 <= j < |old(items)| && matcher(old(items)[j])
      ensures removed ==> at < |old(items)| && matcher(old(items)[at]) && items == RemoveAt(old(items), at)
      ensures !removed ==> items == old(items)
      ensures listener != null ==>
                if !removed || caller == listener then listener.rows == old(listener.rows)
                else ModelIndex(old(listener.rows), at) < |old(listener.rows)|
                     && listener.rows == RemoveAt(old(listener.rows), ModelIndex(old(listener.rows), at))
      ensures listener != null && old(listener.InSync(this)) && caller != listener ==> listener.InSync(this)
    {
      at := 0;
      for index := 0 to |items|
        invariant items == old(items) && readOnly == old(readOnly) && at == index
        invariant listener != null ==> listener.rows == old(listener.rows)
        invariant forall j :: 0 <= j < index ==> !matcher(items[j])
      {
        if matcher(items[index]) {
          RemoveAtIndex(index, caller);
          return true, index;
        }
        at := index + 1;
      }
      removed := false;
    }
  }

  class SignalVectorModel<T(==, !new)> {
    const columnCount: nat
    const codec: Codec<T>
    var rows: seq<Row<T>>

    constructor (columnCount: nat, codec: Codec<T>)
      ensures this.columnCount == columnCount && this.codec == codec && rows == []
    {
      this.columnCount := columnCount;
      this.codec := codec;
      rows := [];
    }

    /** The model shows the vector: the decoded ordinary rows are its items. */
    ghost predicate InSync(vector: SignalVector<T>)
      reads this, vector
    {
      && Lawful(codec) && WellFormed(rows) && vector.Valid() && vector.listener == this
      && Decoded(codec, rows) == vector.items
    }

    method GetVectorIndexFromModelIndex(modelIndex: int) returns (r: nat)
      ensures r == VectorIndex(rows, modelIndex)
    {
      var index := modelIndex;
      var i := 0;
      for k := 0 to |rows|
        invariant i == OrdinaryCount(rows[..k]) && index == modelIndex - (k - i)
        invariant !(0 <= modelIndex < k && !rows[modelIndex].isCustom)
      {
        CountStep(rows, k);
        if rows[k].isCustom {
          index := index - 1;
          continue;
        }
        if i == index {
          return i;
        }
        i := i + 1;
      }
      assert rows[..|rows|] == rows;
      r := i;
    }

    method GetModelIndexFromVectorIndex(vectorIndex: nat) returns (r: nat)
      ensures r == ModelIndex(rows, vectorIndex)
    {
      var v := vectorIndex;
      var modelIndex := 0;
      while modelIndex < |rows|
        invariant 0 <= modelIndex <= |rows|
        invariant v == vectorIndex + (modelIndex - OrdinaryCount(rows[..modelIndex]))
        invariant OrdinaryCount(rows[..modelIndex]) <= vectorIndex
        invariant ModelIndex(rows, vectorIndex) == SearchModel(rows, vectorIndex, modelIndex)
      {
        CountStep(rows, modelIndex);
        if rows[modelIndex].isCustom {
          v := v + 1;
        }
        if modelIndex == v {
          return modelIndex;
        }
        modelIndex := modelIndex + 1;
      }
      r := modelIndex;
    }

    method OnItemInserted(item: T, index: nat, caller: object?)
      modifies this`rows
      ensures rows == if caller == this then old(rows)
                      else InsertAt(old(rows), ModelIndex(old(rows), index), OrdinaryRow(codec, item))
    {
      if caller == this {
        return;
      }
      var at := GetModelIndexFromVectorIndex(index);
      rows := rows[..at] + [Row(codec.rowFromItem(item), Some(item), false)] + rows[at..];
    }

    method OnItemRemoved(index: nat, caller: object?)
      requires caller != this ==> index < OrdinaryCount(rows)
      modifies this`rows
      ensures caller == this ==> rows == old(rows)
      ensures caller != this ==> ModelIndex(old(rows), index) < |old(rows)|
                                 && rows == RemoveAt(old(rows), ModelIndex(old(rows), index))
    {
      if caller == this {
        return;
      }
      IndexMapsInvert(rows, index, 0);
      var row := GetModelIndexFromVectorIndex(index);
      rows := rows[..row] + rows[row + 1..];
    }

    /** Takes over the items of a vector and connects to its signals. */
    method Initialize(vector: SignalVector<T>)
      requires vector.Valid() && vector.listener == null
      requires Lawful(codec) && WellFormed(rows) && OrdinaryCount(rows) == 0
      modifies this`rows, vector`listener
      ensures InSync(vector) && vector.items == old(vector.items)
    {
      var raw := vector.items;
      for i := 0 to |raw|
        invariant WellFormed(rows) && Decoded(codec, rows) == raw[..i]
      {
        InsertNextStaysInSync(codec, rows, raw, i);
        OnItemInserted(raw[i], i, null);
      }
      assert raw[..|raw|] == raw;
      vector.listener := this;
    }

    /** Writes one cell. The result says whether the write was accepted. */
    method SetData(vector: SignalVector<T>, row: int, column: int, write: Cell -> Cell) returns (ok: bool)
      requires vector.Valid() && vector.listener == this && WellFormed(rows)
      requires 0 <= row < |rows| && 0 <= column < columnCount ==> |rows[row].cells| == columnCount
      modifies this, vector`items, vector`readOnly
      ensures vector.Valid() && WellFormed(rows)
      ensures !(0 <= row < |old(rows)| && 0 <= column < columnCount) ==>
                !ok && rows == old(rows) && vector.items == old(vector.items)
      ensures 0 <= row < |old(rows)| && 0 <= column < columnCount ==>
                && rows == Written(old(rows), row, column, write)
                && if rows[row].isCustom then ok && vector.items == old(vector.items)
                   else var v := VectorIndex(rows, row);
                     && ok == (v < |old(vector.items)|)
                     && (!ok ==> vector.items == old(vector.items))
                     && (ok ==> vector.items == Rewritten(vector.compare, old(vector.items), v, Item(codec, rows[row])))
      ensures 0 <= row < |old(rows)| && 0 <= column < columnCount ==>
                OnlyCellWritten(old(rows), rows, row, column, write)
      ensures old(InSync(vector)) ==>
                (ok <==> 0 <= row < |old(rows)| && 0 <= column < columnCount)
      ensures old(InSync(vector)) && vector.compare.None? ==> InSync(vector)
      ensures old(InSync(vector)) && ok && rows[row].isCustom ==> InSync(vector)
      ensures old(InSync(vector)) && ok && !rows[row].isCustom ==>
                var v := VectorIndex(rows, row);
                InSync(vector) <==> vector.items == old(vector.items)[v := Item(codec, rows[row])]
    {
      if row < 0 || column < 0 || row >= |rows| || column >= columnCount {
        return false;
      }
      var was := rows[row];
      rows := rows[row := was.(cells := was.cells[column := write(was.cells[column])])];
      ghost var wasInSync := old(InSync(vector));
      WrittenIs(old(rows), row, column, write);
      if wasInSync {
        WrittenStays(codec, old(rows), old(vector.items), row, rows[row]);
      }
      if rows[row].isCustom {
        return true;
      }
      var vecRow := GetVectorIndexFromModelIndex(row);
      if vecRow >= |vector.readOnly| {
        return false;
      }
      vector.RemoveAtIndex(vecRow, this);
      var item := codec.itemFromRow(rows[row].cells, rows[row].original.value);
      var _ := vector.Insert(item, vecRow, this);
      RewrittenUnsorted(old(vector.items), vecRow, item);
      ok := true;
    }

    method DeleteRow(vector: SignalVector<T>, row: int)
      requires InSync(vector) && IsOrdinary(rows, row)
      modifies this, vector`items, vector`readOnly
      ensures InSync(vector) && rows == RemoveAt(old(rows), row)
      ensures VectorIndex(old(rows), row) < |old(vector.items)|
      ensures vector.items == RemoveAt(old(vector.items), VectorIndex(old(rows), row))
    {
      IndexMapsInvert(rows, 0, row);
      RemoveRowDecodes(codec, rows, row);
      var signalVectorRow := GetVectorIndexFromModelIndex(row);
      vector.RemoveAtIndex(signalVectorRow, null);
    }

    method RemoveRows(vector: SignalVector<T>, row: int, count: int) returns (ok: bool)
      requires InSync(vector) && (count == 1 ==> IsOrdinary(rows, row))
      modifies this, vector`items, vector`readOnly
      ensures InSync(vector) && ok == (count == 1)
      ensures ok ==> rows == RemoveAt(old(rows), row)
      ensures !ok ==> rows == old(rows)
    {
      if count != 1 {
        return false;
      }
      DeleteRow(vector, row);
      ok := true;
    }

    /** Moves an ordinary row through the vector. */
    method MoveRow(vector: SignalVector<T>, sourceRow: int, destinationChild: int)
      requires InSync(vector) && IsOrdinary(rows, sourceRow)
      modifies this, vector`items, vector`readOnly
      ensures InSync(vector)
      ensures multiset(vector.items) == multiset(old(vector.items))
      ensures old(rows[sourceRow].original.Some? && VectorIndex(rows, sourceRow) < |vector.items|)
      ensures var at := MoveTarget(codec, vector.compare, old(rows), old(vector.items), sourceRow, destinationChild);
              && 0 <= at < |old(vector.items)|
              && rows == RowsAfterMove(codec, old(rows), sourceRow, at)
              && vector.items == ItemsAfterMove(codec, old(rows), old(vector.items), sourceRow, at)
      ensures vector.compare.None? ==> rows == MovedRows(codec, old(rows), sourceRow, destinationChild)
      ensures vector.compare.None? ==>
                |old(vector.items)| == OrdinaryCount(old(rows)) > OrdinaryCount(old(rows)[..sourceRow])
                && vector.items == MovedItems(codec, old(rows), sourceRow, destinationChild, old(vector.items))
    {
      ghost var rows0, items0 := rows, vector.items;
      MoveSteps(codec, vector.compare, rows0, items0, sourceRow, destinationChild);
      var signalVectorRow := GetVectorIndexFromModelIndex(sourceRow);
      var item := codec.itemFromRow(rows[sourceRow].cells, rows[sourceRow].original.value);
      vector.RemoveAtIndex(signalVectorRow, null);
      var destination := GetVectorIndexFromModelIndex(destinationChild);
      var at := vector.Insert(item, destination, null);
      MoveEnds(codec, vector.compare, rows0, items0, sourceRow, destinationChild, at, rows, vector.items);
    }

    /** Only single rows can be moved. */
    method MoveRows(vector: SignalVector<T>, sourceRow: int, count: int, destinationChild: int) returns (ok: bool)
      requires InSync(vector) && (count == 1 ==> IsOrdinary(rows, sourceRow))
      modifies this, vector`items, vector`readOnly
      ensures InSync(vector) && ok == (count == 1)
      ensures ok ==> multiset(vector.items) == multiset(old(vector.items))
      ensures ok && vector.compare.None? ==> rows == MovedRows(codec, old(rows), sourceRow, destinationChild)
      ensures !ok ==> rows == old(rows)
    {
      if count != 1 {
        return false;
      }
      MoveRow(vector, sourceRow, destinationChild);
      ok := true;
    }

    method InsertCustomRow(cells: seq<Cell>, index: nat)
      requires index <= |rows| && WellFormed(rows)
      modifies this`rows
      ensures rows == InsertAt(old(rows), index, Row(cells, None, true))
      ensures WellFormed(rows) && Decoded(codec, rows) == Decoded(codec, old(rows))
    {
      InsertRowDecodes(codec, rows, index, Row(cells, None, true));
      rows := rows[..index] + [Row(cells, None, true)] + rows[index..];
    }

    method RemoveCustomRow(index: nat)
      requires index < |rows| && rows[index].isCustom && WellFormed(rows)
      modifies this`rows
      ensures rows == RemoveAt(old(rows), index)
      ensures WellFormed(rows) && Decoded(codec, rows) == Decoded(codec, old(rows))
    {
      RemoveRowDecodes(codec, rows, index);
      rows := rows[..index] + rows[index + 1..];
    }
  }

  // ---- Edits of rows and items in step ----

  /** The signal handlers keep rows and items in step for inserts of anyone else. */
  lemma InsertStaysInSync<T(!new)>(c: Codec<T>, rows: seq<Row<T>>, items: seq<T>, index: nat, item: T)
    requires Lawful(c) && WellFormed(rows) && Decoded(c, rows) == items && index <= |items|
    ensures var rows' := InsertAt(rows, ModelIndex(rows, index), OrdinaryRow(c, item));
            WellFormed(rows') && Decoded(c, rows') == InsertAt(items, index, item)
  {
    SearchFinds(rows, index, 0);
    InsertRowDecodes(c, rows, ModelIndex(rows, index), OrdinaryRow(c, item));
  }

  lemma InsertNextStaysInSync<T(!new)>(c: Codec<T>, rows: seq<Row<T>>, items: seq<T>, i: nat)
    requires Lawful(c) && WellFormed(rows) && i < |items| && Decoded(c, rows) == items[..i]
    ensures var rows' := InsertAt(rows, ModelIndex(rows, i), OrdinaryRow(c, items[i]));
            WellFormed(rows') && Decoded(c, rows') == items[..i + 1]
  {
    InsertStaysInSync(c, rows, items[..i], i, items[i]);
    assert InsertAt(items[..i], i, items[i]) == items[..i + 1];
  }

  /** And for removals. */
  lemma RemoveStaysInSync<T>(c: Codec<T>, rows: seq<Row<T>>, items: seq<T>, index: nat)
    requires WellFormed(rows) && Decoded(c, rows) == items && index < |items|
    ensures ModelIndex(rows, index) < |rows|
    ensures var rows' := RemoveAt(rows, ModelIndex(rows, index));
            WellFormed(rows') && Decoded(c, rows') == RemoveAt(items, index)
  {
    SearchFinds(rows, index, 0);
    RemoveRowDecodes(c, rows, ModelIndex(rows, index));
  }

  /** The position at which a moved item is put back. */
  function MoveTarget<T>(c: Codec<T>, compare: Option<Compare<T>>, rows: seq<Row<T>>, items: seq<T>,
                         source: nat, destination: int): int
    requires IsOrdinary(rows, source) && rows[source].original.Some? && VectorIndex(rows, source) < |items|
  {
    InsertIndex(compare, RemoveAt(items, VectorIndex(rows, source)), Item(c, rows[source]),
                VectorIndex(RemoveAt(rows, source), destination))
  }

  function RowsAfterMove<T>(c: Codec<T>, rows: seq<Row<T>>, source: nat, at: nat): seq<Row<T>>
    requires IsOrdinary(rows, source) && rows[source].original.Some?
  {
    var rest := RemoveAt(rows, source);
    InsertAt(rest, ModelIndex(rest, at), OrdinaryRow(c, Item(c, rows[source])))
  }

  function ItemsAfterMove<T>(c: Codec<T>, rows: seq<Row<T>>, items: seq<T>, source: nat, at: nat): seq<T>
    requires IsOrdinary(rows, source) && rows[source].original.Some?
    requires VectorIndex(rows, source) < |items| && at < |items|
  {
    InsertAt(RemoveAt(items, VectorIndex(rows, source)), at, Item(c, rows[source]))
  }

  /** What the removal and the insertion of a move do to rows and items. */
  lemma MoveSteps<T(!new)>(c: Codec<T>, compare: Option<Compare<T>>, rows: seq<Row<T>>, items: seq<T>,
                           source: nat, destination: int)
    requires Lawful(c) && WellFormed(rows) && Decoded(c, rows) == items && IsOrdinary(rows, source)
    ensures VectorIndex(rows, source) < |items| && ModelIndex(rows, VectorIndex(rows, source)) == source
    ensures VectorIndex(RemoveAt(rows, source), destination) < |items|
    ensures 0 <= MoveTarget(c, compare, rows, items, source, destination) < |items|
  {
    IndexMapsInvert(rows, 0, source);
    RemoveRowDecodes(c, rows, source);
    CountAt(RemoveAt(rows, source), destination);
  }

  /** What the removal and the insertion of a move come to. */
  lemma MoveEnds<T(!new)>(c: Codec<T>, compare: Option<Compare<T>>, rows: seq<Row<T>>, items: seq<T>,
                          source: nat, destination: int, at: nat, rows': seq<Row<T>>, items': seq<T>)
    requires Lawful(c) && WellFormed(rows) && Decoded(c, rows) == items && IsOrdinary(rows, source)
    requires VectorIndex(rows, source) < |items| && at < |items|
    requires at == MoveTarget(c, compare, rows, items, source, destination)
    requires items' == InsertAt(RemoveAt(items, VectorIndex(rows, source)), at, Item(c, rows[source]))
    requires rows' == InsertAt(RemoveAt(rows, source), ModelIndex(RemoveAt(rows, source), at),
                               OrdinaryRow(c, Item(c, rows[source])))
    ensures multiset(items') == multiset(items)
    ensures compare.None? ==> rows' == MovedRows(c, rows, source, destination)
    ensures compare.None? ==>
              |items| == OrdinaryCount(rows) > OrdinaryCount(rows[..source])
              && items' == MovedItems(c, rows, source, destination, items)
  {
    var v := VectorIndex(rows, source);
    IndexMapsInvert(rows, 0, source);
    RemoveRowDecodes(c, rows, source);
    RemoveAtMultiset(items, v);
    InsertAtMultiset(RemoveAt(items, v), at, Item(c, rows[source]));
  }

  function Written<T>(rows: seq<Row<T>>, row: nat, column: nat, write: Cell -> Cell): seq<Row<T>>
    requires row < |rows| && column < |rows[row].cells|
  {
    var cells := rows[row].cells;
    rows[row := rows[row].(cells := cells[column := write(cells[column])])]
  }

  lemma WrittenIs<T>(rows: seq<Row<T>>, row: nat, column: nat, write: Cell -> Cell)
    requires row < |rows| && column < |rows[row].cells| && WellFormed(rows)
    ensures WellFormed(Written(rows, row, column, write))
    ensures Written(rows, row, column, write)[..row] == rows[..row]
  {
  }

  /** The vector after an item is taken out and the new one put in. */
  function Rewritten<T>(compare: Option<Compare<T>>, items: seq<T>, v: nat, item: T): seq<T>
    requires v < |items|
  {
    var rest := RemoveAt(items, v);
    InsertAt(rest, InsertIndex(compare, rest, item, v), item)
  }

  lemma RewrittenUnsorted<T>(items: seq<T>, v: nat, item: T)
    requires v < |items|
    ensures Rewritten(None, items, v, item) == items[v := item]
  {
  }

  lemma InsertEqualElements<T>(s: seq<T>, p: nat, q: nat, x: T)
    requires p <= q <= |s|
    ensures InsertAt(s, p, x) == InsertAt(s, q, x) <==> forall k :: p <= k < q ==> s[k] == x
  {
    var a, b := InsertAt(s, p, x), InsertAt(s, q, x);
    if a == b {
      forall k | p <= k < q
        ensures s[k] == x
      {
        EqualRun(s, p, q, x, k);
      }
    } else {
      assert |a| == |b|;
      var i :| 0 <= i < |a| && a[i] != b[i];
      assert p <= i <= q;
      assert i < q ==> b[i] == s[i];
      assert i > p ==> a[i] == s[i - 1];
    }
  }

  lemma {:induction false} EqualRun<T>(s: seq<T>, p: nat, q: nat, x: T, k: nat)
    requires p <= k < q <= |s| && InsertAt(s, p, x) == InsertAt(s, q, x)
    ensures s[k] == x
    decreases k
  {
    assert InsertAt(s, q, x)[k] == s[k];
    assert InsertAt(s, p, x)[k] == if k == p then x else s[k - 1];
    if k > p {
      EqualRun(s, p, q, x, k - 1);
    }
  }

  /** `setData` on a sorted vector: the item stays in the place of its row, as the model assumes,
      exactly if only equal items lie between that place and the lower bound. */
  lemma SortedRewriteStays<T>(less: Compare<T>, items: seq<T>, v: nat, item: T)
    requires v < |items|
    ensures var rest := RemoveAt(items, v);
            var p := LowerBound(less, rest, item);
            Rewritten(Some(less), items, v, item) == items[v := item]
            <==> forall k :: Min(p, v) <= k < Max(p, v) ==> rest[k] == item
  {
    var rest := RemoveAt(items, v);
    var p := LowerBound(less, rest, item);
    RewrittenUnsorted(items, v, item);
    InsertEqualElements(rest, Min(p, v), Max(p, v), item);
  }

  /** Rewriting the first of two numbers to a larger one than the second moves it behind that. */
  lemma SortedRewriteMoves()
    ensures Rewritten(Some((x: int, y: int) => x < y), [1, 2], 0, 3) == [2, 3]
    ensures [1, 2][0 := 3] == [3, 2]
  {
    assert RemoveAt([1, 2], 0) == [2];
    assert LowerBound((x: int, y: int) => x < y, [2][1..], 3) == 0;
  }

  /** In step, the index of a written row is in range and its decoded item takes that place. */
  lemma WrittenStays<T>(c: Codec<T>, rows: seq<Row<T>>, items: seq<T>, row: nat, newRow: Row<T>)
    requires WellFormed(rows) && Decoded(c, rows) == items && row < |rows|
    requires RowOk(newRow) && newRow.isCustom == rows[row].isCustom
    ensures var rows' := rows[row := newRow];
            && WellFormed(rows')
            && (newRow.isCustom ==> Decoded(c, rows') == items)
            && (!newRow.isCustom ==> VectorIndex(rows', row) < |items|
                                     && Decoded(c, rows') == items[VectorIndex(rows', row) := Item(c, newRow)])
  {
    UpdateRowDecodes(c, rows, row, newRow);
    assert rows[row := newRow][..row] == rows[..row];
  }

  // ---- Runs ----

  /** What does not change: the concrete model, its number of columns, and the order of the vector. */
  datatype Setup<!T> = Setup(codec: Codec<T>, columns: nat, compare: Option<Compare<T>>)

  /** Rows, items and the read-only copy of the items. */
  datatype State<T> = State(rows: seq<Row<T>>, items: seq<T>, readOnly: seq<T>)

  /** The edits of a vector and its model. */
  datatype Edit<!T> =
    | VectorInsert(item: T, index: int)
    | VectorRemove(index: int)
    | SetCell(row: int, column: int, write: Cell -> Cell)
    | DeleteModelRow(row: int)
    | MoveModelRow(source: int, destination: int)
    | AddCustomRow(cells: seq<Cell>, at: int)
    | DropCustomRow(at: int)

  /** The model decodes what it encodes, and fills all columns. */
  ghost predicate Proper<T(!new)>(t: Setup<T>) {
    Lawful(t.codec) && forall x: T :: |t.codec.rowFromItem(x)| == t.columns
  }

  /** All rows have a cell for every column. */
  predicate Wide<T>(columns: nat, rows: seq<Row<T>>) {
    forall i :: 0 <= i < |rows| ==> |rows[i].cells| == columns
  }

  ghost predicate Agrees<T(!new)>(t: Setup<T>, s: State<T>) {
    && Proper(t) && WellFormed(s.rows) && Wide(t.columns, s.rows)
    && Decoded(t.codec, s.rows) == s.items && s.readOnly == s.items && InOrder(t.compare, s.items)
  }

  /** `setData` refuses any other cell. */
  predicate IsCell<T>(t: Setup<T>, s: State<T>, row: int, column: int) {
    0 <= row < |s.rows| && 0 <= column < t.columns
  }

  /** The guard of `setData`: the index of the row is beyond the read-only copy. */
  predicate IsGuarded<T>(t: Setup<T>, s: State<T>, e: Edit<T>) {
    e.SetCell? && IsCell(t, s, e.row, e.column) && !s.rows[e.row].isCustom
    && VectorIndex(s.rows, e.row) >= |s.readOnly|
  }

  /** What the source asks of the arguments. */
  predicate InRange<T>(t: Setup<T>, s: State<T>, e: Edit<T>) {
    match e
    case VectorInsert(_, i) => t.compare.Some? || -1 <= i <= |s.items|
    case VectorRemove(i) => 0 <= i < |s.items|
    case SetCell(_, _, _) => true
    case DeleteModelRow(r) => IsOrdinary(s.rows, r)
    case MoveModelRow(a, _) => IsOrdinary(s.rows, a)
    case AddCustomRow(cells, i) => |cells| == t.columns && 0 <= i <= |s.rows|
    case DropCustomRow(i) => 0 <= i < |s.rows| && s.rows[i].isCustom
  }

  /** The edit also reaches no missing row, cell, item or original on its way. */
  predicate RunsThrough<T>(t: Setup<T>, s: State<T>, e: Edit<T>) {
    InRange(t, s, e) &&
    match e
    case VectorRemove(i) => ModelIndex(s.rows, i) < |s.rows|
    case SetCell(r, k, _) =>
      IsCell(t, s, r, k) ==>
        && |s.rows[r].cells| == t.columns
        && (!s.rows[r].isCustom && !IsGuarded(t, s, e) ==>
              s.rows[r].original.Some? && VectorIndex(s.rows, r) < |s.items|)
    case DeleteModelRow(r) => VectorIndex(s.rows, r) < |s.items|
    case MoveModelRow(a, b) =>
      && s.rows[a].original.Some? && VectorIndex(s.rows, a) < |s.items|
      && 0 <= MoveTarget(t.codec, t.compare, s.rows, s.items, a, b) < |s.items|
    case _ => true
  }

  function Edited<T>(rows: seq<Row<T>>, items: seq<T>): State<T> {
    State(rows, items, items)
  }

  /** The effect of an edit; one that does not run through has none. */
  function After<T>(t: Setup<T>, s: State<T>, e: Edit<T>): State<T> {
    if !RunsThrough(t, s, e) then s else
      match e
      case VectorInsert(x, i) =>
        var at := InsertIndex(t.compare, s.items, x, i);
        Edited(InsertAt(s.rows, ModelIndex(s.rows, at), OrdinaryRow(t.codec, x)), InsertAt(s.items, at, x))
      case VectorRemove(i) =>
        Edited(RemoveAt(s.rows, ModelIndex(s.rows, i)), RemoveAt(s.items, i))
      case SetCell(r, k, write) =>
        if !IsCell(t, s, r, k) then s else
          var rows := Written(s.rows, r, k, write);
          if rows[r].isCustom || IsGuarded(t, s, e) then s.(rows := rows)
          else Edited(rows, Rewritten(t.compare, s.items, VectorIndex(s.rows, r), Item(t.codec, rows[r])))
      case DeleteModelRow(r) =>
        Edited(RemoveAt(s.rows, r), RemoveAt(s.items, VectorIndex(s.rows, r)))
      case MoveModelRow(a, b) =>
        var at := MoveTarget(t.codec, t.compare, s.rows, s.items, a, b);
        Edited(RowsAfterMove(t.codec, s.rows, a, at), ItemsAfterMove(t.codec, s.rows, s.items, a, at))
      case AddCustomRow(cells, i) =>
        s.(rows := InsertAt(s.rows, i, Row(cells, None, true)))
      case DropCustomRow(i) =>
        s.(rows := RemoveAt(s.rows, i))
  }

  /** The item that a write makes of item `v` has only equal items between it and its lower bound. */
  predicate KeepsPlace<T(==)>(compare: Option<Compare<T>>, items: seq<T>, v: nat, item: T)
    requires v < |items|
  {
    compare.Some? ==>
      var rest := RemoveAt(items, v);
      var p := LowerBound(compare.value, rest, item);
      forall k :: Min(p, v) <= k < Max(p, v) ==> rest[k] == item
  }

  lemma KeepsPlaceExactly<T>(compare: Option<Compare<T>>, items: seq<T>, v: nat, item: T)
    requires v < |items|
    ensures KeepsPlace(compare, items, v, item) <==> Rewritten(compare, items, v, item) == items[v := item]
  {
    match compare
    case None =>
      RewrittenUnsorted(items, v, item);
    case Some(less) =>
      SortedRewriteStays(less, items, v, item);
  }

  /** A write of a cell leaves the item in its place. */
  predicate WriteStays<T(==)>(t: Setup<T>, s: State<T>, e: Edit<T>) {
    RunsThrough(t, s, e) && e.SetCell? && IsCell(t, s, e.row, e.column) && !s.rows[e.row].isCustom
    && !IsGuarded(t, s, e) ==>
      KeepsPlace(t.compare, s.items, VectorIndex(s.rows, e.row),
                 Item(t.codec, Written(s.rows, e.row, e.column, e.write)[e.row]))
  }

  /** In step, the guard does not fire, and an edit runs through if its arguments are in range. */
  lemma EditRunsThrough<T(!new)>(t: Setup<T>, s: State<T>, e: Edit<T>)
    requires Agrees(t, s)
    ensures !IsGuarded(t, s, e)
    ensures RunsThrough(t, s, e) <==> InRange(t, s, e)
  {
    match e
    case VectorRemove(i) =>
      if i >= 0 {
        IndexMapsInvert(s.rows, i, 0);
      }
    case SetCell(r, _, _) =>
      assert 0 <= r < |s.rows| ==> RowOk(s.rows[r]);
      IndexMapsInvert(s.rows, 0, r);
    case DeleteModelRow(r) =>
      IndexMapsInvert(s.rows, 0, r);
    case MoveModelRow(a, b) =>
      if IsOrdinary(s.rows, a) {
        MoveSteps(t.codec, t.compare, s.rows, s.items, a, b);
      }
    case _ =>
  }

  lemma InsertedIsWide<T>(columns: nat, rows: seq<Row<T>>, i: nat, row: Row<T>)
    requires Wide(columns, rows) && i <= |rows| && |row.cells| == columns
    ensures Wide(columns, InsertAt(rows, i, row))
  {
  }

  lemma RemovedIsWide<T>(columns: nat, rows: seq<Row<T>>, i: nat)
    requires Wide(columns, rows) && i < |rows|
    ensures Wide(columns, RemoveAt(rows, i))
  {
  }

  /** Every edit keeps all rows as wide as the model. */
  lemma StaysWide<T(!new)>(t: Setup<T>, s: State<T>, e: Edit<T>)
    requires Proper(t) && Wide(t.columns, s.rows)
    ensures Wide(t.columns, After(t, s, e).rows)
  {
    if RunsThrough(t, s, e) {
      match e
      case VectorInsert(x, i) =>
        InsertedIsWide(t.columns, s.rows, ModelIndex(s.rows, InsertIndex(t.compare, s.items, x, i)),
                       OrdinaryRow(t.codec, x));
      case VectorRemove(i) =>
        RemovedIsWide(t.columns, s.rows, ModelIndex(s.rows, i));
      case SetCell(_, _, _) =>
      case DeleteModelRow(r) =>
        RemovedIsWide(t.columns, s.rows, r);
      case MoveModelRow(a, b) =>
        var at := MoveTarget(t.codec, t.compare, s.rows, s.items, a, b);
        RemovedIsWide(t.columns, s.rows, a);
        InsertedIsWide(t.columns, RemoveAt(s.rows, a), ModelIndex(RemoveAt(s.rows, a), at),
                       OrdinaryRow(t.codec, Item(t.codec, s.rows[a])));
      case AddCustomRow(cells, i) =>
        InsertedIsWide(t.columns, s.rows, i, Row(cells, None, true));
      case DropCustomRow(i) =>
        RemovedIsWide(t.columns, s.rows, i);
    }
  }

  lemma RewrittenKeepsOrder<T(!new)>(compare: Option<Compare<T>>, items: seq<T>, v: nat, item: T)
    requires v < |items| && InOrder(compare, items)
    ensures InOrder(compare, Rewritten(compare, items, v, item))
  {
    RemoveKeepsOrder(compare, items, v);
    InsertKeepsOrder(compare, RemoveAt(items, v), item, InsertIndex(compare, RemoveAt(items, v), item, v));
  }

  /** A move of a vector in step, sorted or not. */
  lemma MoveStaysInSync<T(!new)>(t: Setup<T>, rows: seq<Row<T>>, items: seq<T>, source: nat, at: nat)
    requires Lawful(t.codec) && WellFormed(rows) && Decoded(t.codec, rows) == items && IsOrdinary(rows, source)
    requires VectorIndex(rows, source) < |items| && at < |items|
    ensures WellFormed(RowsAfterMove(t.codec, rows, source, at))
    ensures Decoded(t.codec, RowsAfterMove(t.codec, rows, source, at))
         == ItemsAfterMove(t.codec, rows, items, source, at)
  {
    RemoveRowDecodes(t.codec, rows, source);
    InsertStaysInSync(t.codec, RemoveAt(rows, source), RemoveAt(items, VectorIndex(rows, source)), at,
                      Item(t.codec, rows[source]));
  }

  lemma MoveKeepsOrder<T(!new)>(t: Setup<T>, s: State<T>, a: nat, b: int)
    requires Agrees(t, s) && RunsThrough(t, s, MoveModelRow(a, b))
    ensures InOrder(t.compare, After(t, s, MoveModelRow(a, b)).items)
  {
    var v := VectorIndex(s.rows, a);
    RemoveKeepsOrder(t.compare, s.items, v);
    InsertKeepsOrder(t.compare, RemoveAt(s.items, v), Item(t.codec, s.rows[a]),
                     MoveTarget(t.codec, t.compare, s.rows, s.items, a, b));
  }

  lemma CellStaysInSync<T(!new)>(t: Setup<T>, s: State<T>, r: nat, k: nat, write: Cell -> Cell)
    requires Agrees(t, s) && r < |s.rows| && k < t.columns
    ensures Agrees(t, After(t, s, SetCell(r, k, write))) <==> WriteStays(t, s, SetCell(r, k, write))
  {
    var e := SetCell(r, k, write);
    var rows := Written(s.rows, r, k, write);
    EditRunsThrough(t, s, e);
    StaysWide(t, s, e);
    WrittenStays(t.codec, s.rows, s.items, r, rows[r]);
    WrittenIs(s.rows, r, k, write);
    if !rows[r].isCustom {
      var v, item := VectorIndex(s.rows, r), Item(t.codec, rows[r]);
      RewrittenKeepsOrder(t.compare, s.items, v, item);
      KeepsPlaceExactly(t.compare, s.items, v, item);
    }
  }

  /** After an edit in range, rows, items and copy are in step again, exactly if a write left its item
      in place. */
  lemma EditStaysInSync<T(!new)>(t: Setup<T>, s: State<T>, e: Edit<T>)
    requires Agrees(t, s) && InRange(t, s, e)
    ensures Agrees(t, After(t, s, e)) <==> WriteStays(t, s, e)
  {
    EditRunsThrough(t, s, e);
    StaysWide(t, s, e);
    match e
    case VectorInsert(x, i) =>
      InsertStaysInSync(t.codec, s.rows, s.items, InsertIndex(t.compare, s.items, x, i), x);
      InsertKeepsOrder(t.compare, s.items, x, InsertIndex(t.compare, s.items, x, i));
    case VectorRemove(i) =>
      RemoveStaysInSync(t.codec, s.rows, s.items, i);
      RemoveKeepsOrder(t.compare, s.items, i);
    case SetCell(r, k, write) =>
      if IsCell(t, s, r, k) {
        CellStaysInSync(t, s, r, k, write);
      }
    case DeleteModelRow(r) =>
      RemoveRowDecodes(t.codec, s.rows, r);
      RemoveKeepsOrder(t.compare, s.items, VectorIndex(s.rows, r));
    case MoveModelRow(a, b) =>
      MoveStaysInSync(t, s.rows, s.items, a, MoveTarget(t.codec, t.compare, s.rows, s.items, a, b));
      MoveKeepsOrder(t, s, a, b);
    case AddCustomRow(cells, i) =>
      InsertRowDecodes(t.codec, s.rows, i, Row(cells, None, true));
    case DropCustomRow(i) =>
      RemoveRowDecodes(t.codec, s.rows, i);
  }

  function AfterAll<T>(t: Setup<T>, s: State<T>, edits: seq<Edit<T>>): State<T>
    decreases |edits|
  {
    if |edits| == 0 then s else AfterAll(t, After(t, s, edits[0]), edits[1..])
  }

  predicate AllInRange<T>(t: Setup<T>, s: State<T>, edits: seq<Edit<T>>)
    decreases |edits|
  {
    |edits| == 0 || (InRange(t, s, edits[0]) && AllInRange(t, After(t, s, edits[0]), edits[1..]))
  }

  predicate AllWritesStay<T(==)>(t: Setup<T>, s: State<T>, edits: seq<Edit<T>>)
    decreases |edits|
  {
    |edits| == 0 || (WriteStays(t, s, edits[0]) && AllWritesStay(t, After(t, s, edits[0]), edits[1..]))
  }

  /** No edit is stopped by the guard, and none reaches a missing row, cell, item or original. */
  predicate AllRunThrough<T>(t: Setup<T>, s: State<T>, edits: seq<Edit<T>>)
    decreases |edits|
  {
    |edits| == 0 ||
    (RunsThrough(t, s, edits[0]) && !IsGuarded(t, s, edits[0]) && AllRunThrough(t, After(t, s, edits[0]), edits[1..]))
  }

  /** Rows, items and copy are in step before and after every edit. */
  ghost predicate AlwaysAgrees<T(!new)>(t: Setup<T>, s: State<T>, edits: seq<Edit<T>>)
    decreases |edits|
  {
    Agrees(t, s) && (|edits| == 0 || AlwaysAgrees(t, After(t, s, edits[0]), edits[1..]))
  }

  /** A run of edits in range stays in step all the time exactly if every write leaves its item in place;
      then it runs through and never meets the guard. */
  lemma {:induction false} RunStaysInSync<T(!new)>(t: Setup<T>, s: State<T>, edits: seq<Edit<T>>)
    requires Agrees(t, s) && AllInRange(t, s, edits)
    ensures AlwaysAgrees(t, s, edits) <==> AllWritesStay(t, s, edits)
    ensures AllWritesStay(t, s, edits) ==> AllRunThrough(t, s, edits) && Agrees(t, AfterAll(t, s, edits))
    decreases |edits|
  {
    if |edits| > 0 {
      EditRunsThrough(t, s, edits[0]);
      EditStaysInSync(t, s, edits[0]);
      if WriteStays(t, s, edits[0]) {
        RunStaysInSync(t, After(t, s, edits[0]), edits[1..]);
      } else {
        assert !AlwaysAgrees(t, After(t, s, edits[0]), edits[1..]);
      }
    }
  }

  /** In an unsorted vector every write does; so there a run from arguments in range always stays in
      step, and arguments in range are all it needs to run through. */
  lemma {:induction false} UnsortedRunStaysInSync<T(!new)>(t: Setup<T>, s: State<T>, edits: seq<Edit<T>>)
    requires Agrees(t, s) && t.compare.None?
    ensures AllWritesStay(t, s, edits)
    ensures AllInRange(t, s, edits) <==> AllRunThrough(t, s, edits)
    ensures AllInRange(t, s, edits) ==> AlwaysAgrees(t, s, edits) && Agrees(t, AfterAll(t, s, edits))
    decreases |edits|
  {
    UnsortedWritesStay(t, s, edits);
    if |edits| > 0 {
      EditRunsThrough(t, s, edits[0]);
      if InRange(t, s, edits[0]) {
        EditStaysInSync(t, s, edits[0]);
        UnsortedRunStaysInSync(t, After(t, s, edits[0]), edits[1..]);
      }
    }
  }

  lemma {:induction false} UnsortedWritesStay<T>(t: Setup<T>, s: State<T>, edits: seq<Edit<T>>)
    requires t.compare.None?
    ensures AllWritesStay(t, s, edits)
    decreases |edits|
  {
    if |edits| > 0 {
      UnsortedWritesStay(t, After(t, s, edits[0]), edits[1..]);
    }
  }

  // ---- The same runs on a vector and its model ----

  ghost function Now<T(!new)>(model: SignalVectorModel<T>, vector: SignalVector<T>): State<T>
    reads model, vector
  {
    State(model.rows, vector.items, vector.readOnly)
  }

  ghost function SetupOf<T(!new)>(model: SignalVectorModel<T>, vector: SignalVector<T>): Setup<T> {
    Setup(model.codec, model.columnCount, vector.compare)
  }

  /** One edit through the methods of the vector and its model. */
  method ApplyEdit<T(!new)>(model: SignalVectorModel<T>, vector: SignalVector<T>, e: Edit<T>)
    requires vector.listener == model && Agrees(SetupOf(model, vector), Now(model, vector))
    requires InRange(SetupOf(model, vector), Now(model, vector), e)
    modifies model, vector`items, vector`readOnly
    ensures Now(model, vector) == After(SetupOf(model, vector), old(Now(model, vector)), e)
  {
    EditRunsThrough(SetupOf(model, vector), Now(model, vector), e);
    match e {
      case VectorInsert(item, index) =>
        var _ := vector.Insert(item, index, null);
      case VectorRemove(index) =>
        vector.RemoveAtIndex(index, null);
      case SetCell(row, column, write) =>
        var _ := model.SetData(vector, row, column, write);
      case DeleteModelRow(row) =>
        model.DeleteRow(vector, row);
      case MoveModelRow(source, destination) =>
        model.MoveRow(vector, source, destination);
      case AddCustomRow(cells, at) =>
        model.InsertCustomRow(cells, at);
      case DropCustomRow(at) =>
        model.RemoveCustomRow(at);
    }
  }

  /** A run on a vector and its model comes to the state that `AfterAll` gives. */
  method ApplyEdits<T(!new)>(model: SignalVectorModel<T>, vector: SignalVector<T>, edits: seq<Edit<T>>)
    requires vector.listener == model && Agrees(SetupOf(model, vector), Now(model, vector))
    requires AllInRange(SetupOf(model, vector), Now(model, vector), edits)
    requires AllWritesStay(SetupOf(model, vector), Now(model, vector), edits)
    modifies model, vector`items, vector`readOnly
    ensures Agrees(SetupOf(model, vector), Now(model, vector))
    ensures Now(model, vector) == AfterAll(SetupOf(model, vector), old(Now(model, vector)), edits)
    decreases |edits|
  {
    if |edits| > 0 {
      EditStaysInSync(SetupOf(model, vector), Now(model, vector), edits[0]);
      ApplyEdit(model, vector, edits[0]);
      ApplyEdits(model, vector, edits[1..]);
    }
  }
}
