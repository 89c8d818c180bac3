/**
 * The rows of the table model of src/common/SignalVectorModel.hpp: one ordinary row for every
 * vector item, with custom rows anywhere between them.
 */
module ModelRows {
  import opened Collections

  type Cell = string

  datatype Row<+T> = Row(cells: seq<Cell>, original: Option<T>, isCustom: bool)

  /** How a concrete model turns items into rows and rows back into items. */
  datatype Codec<!T> = Codec(rowFromItem: T -> seq<Cell>, itemFromRow: (seq<Cell>, T) -> T)

  ghost predicate Lawful<T(!new)>(c: Codec<T>) {
    forall x: T :: c.itemFromRow(c.rowFromItem(x), x) == x
  }

  /** Ordinary rows remember the item they were made from. */
  predicate RowOk<T>(row: Row<T>) {
    !row.isCustom ==> row.original.Some?
  }

  predicate WellFormed<T>(rows: seq<Row<T>>) {
    forall i :: 0 <= i < |rows| ==> RowOk(rows[i])
  }

  function Item<T>(c: Codec<T>, row: Row<T>): T
    requires row.original.Some?
  {
    c.itemFromRow(row.cells, row.original.value)
  }

  function OrdinaryRow<T>(c: Codec<T>, item: T): Row<T> {
    Row(c.rowFromItem(item), Some(item), false)
  }

  function OrdinaryCount<T>(rows: seq<Row<T>>): (n: nat)
    ensures n <= |rows|
  {
    if rows == [] then 0
    else OrdinaryCount(rows[..|rows| - 1]) + if rows[|rows| - 1].isCustom then 0 else 1
  }

  /** What one row contributes to the items. */
  function ItemsOf<T>(c: Codec<T>, row: Row<T>): seq<T>
    requires RowOk(row)
  {
    if row.isCustom then [] else [Item(c, row)]
  }

  /** The items the ordinary rows stand for, in order. */
  function Decoded<T>(c: Codec<T>, rows: seq<Row<T>>): (items: seq<T>)
    requires WellFormed(rows)
    ensures |items| == OrdinaryCount(rows)
  {
    if rows == [] then [] else
      Decoded(c, rows[..|rows| - 1]) + ItemsOf(c, rows[|rows| - 1])
  }

  predicate IsOrdinary<T>(rows: seq<Row<T>>, i: int) {
    0 <= i < |rows| && !rows[i].isCustom
  }

  // ---- The two index maps ----

  /** The vector index of an ordinary row; the number of ordinary rows for any other index. */
  function VectorIndex<T>(rows: seq<Row<T>>, i: int): nat {
    if IsOrdinary(rows, i) then OrdinaryCount(rows[..i]) else OrdinaryCount(rows)
  }

  /** The first ordinary row from `m` on with `v` ordinary rows before it, or the end. */
  function SearchModel<T>(rows: seq<Row<T>>, v: nat, m: nat): (r: nat)
    requires m <= |rows|
    ensures m <= r <= |rows|
    ensures r < |rows| ==> !rows[r].isCustom && OrdinaryCount(rows[..r]) == v
    decreases |rows| - m
  {
    if m == |rows| || (!rows[m].isCustom && OrdinaryCount(rows[..m]) == v) then m
    else SearchModel(rows, v, m + 1)
  }

  /** The model index of the `v`-th ordinary row, or the end. */
  function ModelIndex<T>(rows: seq<Row<T>>, v: nat): nat {
    SearchModel(rows, v, 0)
  }

  lemma CountStep<T>(rows: seq<Row<T>>, m: nat)
    requires m < |rows|
    ensures OrdinaryCount(rows[..m + 1]) == OrdinaryCount(rows[..m]) + if rows[m].isCustom then 0 else 1
  {
    assert rows[..m + 1][..m] == rows[..m];
  }

  lemma {:induction false} CountGrows<T>(rows: seq<Row<T>>, m: nat, n: nat)
    requires m <= n <= |rows|
    ensures OrdinaryCount(rows[..m]) <= OrdinaryCount(rows[..n])
    decreases n - m
  {
    if m < n {
      CountStep(rows, m);
      CountGrows(rows, m + 1, n);
    }
  }

  lemma {:induction false} SearchFinds<T>(rows: seq<Row<T>>, v: nat, m: nat)
    requires m <= |rows| && OrdinaryCount(rows[..m]) <= v
    ensures SearchModel(rows, v, m) < |rows| <==> v < OrdinaryCount(rows)
    ensures v == OrdinaryCount(rows) ==> OrdinaryCount(rows[..SearchModel(rows, v, m)]) == v
    decreases |rows| - m
  {
    assert rows[..|rows|] == rows;
    if m < |rows| {
      CountStep(rows, m);
      CountGrows(rows, m + 1, |rows|);
      if rows[m].isCustom || OrdinaryCount(rows[..m]) != v {
        SearchFinds(rows, v, m + 1);
      }
    }
  }

  lemma {:induction false} SearchSkips<T>(rows: seq<Row<T>>, v: nat, m: nat, i: nat)
    requires m <= i && IsOrdinary(rows, i) && OrdinaryCount(rows[..i]) == v
    ensures SearchModel(rows, v, m) == i
    decreases i - m
  {
    if m < i {
      CountStep(rows, m);
      CountGrows(rows, m + 1, i);
      SearchSkips(rows, v, m + 1, i);
    }
  }

  /** The maps are inverse between vector indices and ordinary rows; the vector length maps to
      the end of the model; custom rows map to the vector length. */
  lemma IndexMapsInvert<T>(rows: seq<Row<T>>, v: nat, i: int)
    ensures v < OrdinaryCount(rows) ==> IsOrdinary(rows, ModelIndex(rows, v))
                                        && VectorIndex(rows, ModelIndex(rows, v)) == v
    ensures v >= OrdinaryCount(rows) ==> ModelIndex(rows, v) == |rows|
    ensures IsOrdinary(rows, i) ==> VectorIndex(rows, i) < OrdinaryCount(rows)
                                    && ModelIndex(rows, VectorIndex(rows, i)) == i
    ensures !IsOrdinary(rows, i) ==> ModelIndex(rows, VectorIndex(rows, i)) == |rows|
  {
    SearchFinds(rows, v, 0);
    SearchFinds(rows, VectorIndex(rows, i), 0);
    if IsOrdinary(rows, i) {
      CountStep(rows, i);
      CountGrows(rows, i + 1, |rows|);
      assert rows[..|rows|] == rows;
      SearchSkips(rows, VectorIndex(rows, i), 0, i);
    }
  }

  // ---- Editing rows ----

  lemma {:induction false} DecodedSplit<T>(c: Codec<T>, a: seq<Row<T>>, b: seq<Row<T>>)
    requires WellFormed(a) && WellFormed(b)
    ensures WellFormed(a + b) && Decoded(c, a + b) == Decoded(c, a) + Decoded(c, b)
  {
    if b == [] {
      assert a + b == a;
    } else {
      var shorter := b[..|b| - 1];
      assert (a + b)[..|a + b| - 1] == a + shorter;
      DecodedSplit(c, a, shorter);
      ConcatAssociates(Decoded(c, a), Decoded(c, shorter), ItemsOf(c, b[|b| - 1]));
    }
  }

  /** The items around and at one row. */
  lemma DecodedAround<T>(c: Codec<T>, before: seq<Row<T>>, row: Row<T>, after: seq<Row<T>>)
    requires WellFormed(before) && RowOk(row) && WellFormed(after)
    ensures WellFormed(before + [row] + after)
    ensures Decoded(c, before + [row] + after) == Decoded(c, before) + ItemsOf(c, row) + Decoded(c, after)
  {
    assert (before + [row])[..|before|] == before;
    DecodedSplit(c, before + [row], after);
  }

  lemma CutAtRow<T>(c: Codec<T>, rows: seq<Row<T>>, m: nat)
    requires WellFormed(rows) && m < |rows|
    ensures WellFormed(rows[..m]) && WellFormed(rows[m + 1..])
    ensures Decoded(c, rows) == Decoded(c, rows[..m]) + ItemsOf(c, rows[m]) + Decoded(c, rows[m + 1..])
  {
    DecodedAround(c, rows[..m], rows[m], rows[m + 1..]);
    SplitAround(rows, m);
  }

  lemma SplitAround<T>(s: seq<T>, m: nat)
    requires m < |s|
    ensures s == s[..m] + [s[m]] + s[m + 1..]
  {
  }

  lemma EditBetween<T>(a: seq<T>, b: seq<T>, x: T, y: T)
    ensures a + [x] + b == InsertAt(a + b, |a|, x)
    ensures a + b == RemoveAt(a + [x] + b, |a|)
    ensures a + [y] + b == (a + [x] + b)[|a| := y]
  {
  }

  /** Inserting a row inserts its item at the matching place, or nothing for a custom row. */
  lemma InsertRowDecodes<T>(c: Codec<T>, rows: seq<Row<T>>, m: nat, row: Row<T>)
    requires WellFormed(rows) && m <= |rows| && RowOk(row)
    ensures WellFormed(InsertAt(rows, m, row)) && OrdinaryCount(rows[..m]) <= OrdinaryCount(rows)
    ensures row.isCustom ==> Decoded(c, InsertAt(rows, m, row)) == Decoded(c, rows)
    ensures !row.isCustom ==>
              Decoded(c, InsertAt(rows, m, row)) == InsertAt(Decoded(c, rows), OrdinaryCount(rows[..m]), Item(c, row))
  {
    DecodedSplit(c, rows[..m], rows[m..]);
    assert rows == rows[..m] + rows[m..];
    DecodedAround(c, rows[..m], row, rows[m..]);
    if row.isCustom {
      assert Decoded(c, rows[..m]) + [] == Decoded(c, rows[..m]);
    } else {
      EditBetween(Decoded(c, rows[..m]), Decoded(c, rows[m..]), Item(c, row), Item(c, row));
    }
  }

  /** Removing a row removes its item, or nothing for a custom row. */
  lemma RemoveRowDecodes<T>(c: Codec<T>, rows: seq<Row<T>>, m: nat)
    requires WellFormed(rows) && m < |rows|
    ensures WellFormed(RemoveAt(rows, m))
    ensures rows[m].isCustom ==> Decoded(c, RemoveAt(rows, m)) == Decoded(c, rows)
    ensures !rows[m].isCustom ==>
              && OrdinaryCount(rows[..m]) < OrdinaryCount(rows)
              && Decoded(c, rows)[OrdinaryCount(rows[..m])] == Item(c, rows[m])
              && Decoded(c, RemoveAt(rows, m)) == RemoveAt(Decoded(c, rows), OrdinaryCount(rows[..m]))
  {
    CutAtRow(c, rows, m);
    DecodedSplit(c, rows[..m], rows[m + 1..]);
    if rows[m].isCustom {
      assert Decoded(c, rows[..m]) + [] == Decoded(c, rows[..m]);
    } else {
      EditBetween(Decoded(c, rows[..m]), Decoded(c, rows[m + 1..]), Item(c, rows[m]), Item(c, rows[m]));
    }
  }

  /** Rewriting the cells of an ordinary row changes one item. */
  lemma UpdateRowDecodes<T>(c: Codec<T>, rows: seq<Row<T>>, m: nat, row: Row<T>)
    requires WellFormed(rows) && m < |rows| && RowOk(row) && row.isCustom == rows[m].isCustom
    ensures WellFormed(rows[m := row])
    ensures row.isCustom ==> Decoded(c, rows[m := row]) == Decoded(c, rows)
    ensures !row.isCustom ==>
              && OrdinaryCount(rows[..m]) < OrdinaryCount(rows)
              && Decoded(c, rows[m := row]) == Decoded(c, rows)[OrdinaryCount(rows[..m]) := Item(c, row)]
  {
    var rows' := rows[m := row];
    CutAtRow(c, rows, m);
    CutAtRow(c, rows', m);
    assert rows'[..m] == rows[..m] && rows'[m + 1..] == rows[m + 1..];
    if !row.isCustom {
      EditBetween(Decoded(c, rows[..m]), Decoded(c, rows[m + 1..]), Item(c, rows[m]), Item(c, row));
    }
  }

  // ---- Moving rows ----

  /** The rows after `moveRows(source, 1, destination)` on an unsorted vector. */
  function MovedRows<T>(c: Codec<T>, rows: seq<Row<T>>, source: nat, destination: int): seq<Row<T>>
    requires IsOrdinary(rows, source) && rows[source].original.Some?
  {
    var rest := RemoveAt(rows, source);
    InsertAt(rest, ModelIndex(rest, VectorIndex(rest, destination)), OrdinaryRow(c, Item(c, rows[source])))
  }

  /** The vector after the same call. */
  function MovedItems<T>(c: Codec<T>, rows: seq<Row<T>>, source: nat, destination: int, items: seq<T>): seq<T>
    requires IsOrdinary(rows, source) && rows[source].original.Some?
    requires OrdinaryCount(rows[..source]) < |items| == OrdinaryCount(rows)
  {
    var rest := RemoveAt(rows, source);
    var v := VectorIndex(rest, destination);
    var kept := RemoveAt(items, OrdinaryCount(rows[..source]));
    if v <= |kept| then InsertAt(kept, v, Item(c, rows[source])) else kept
  }

  /** The moved row ends at `destination` if the row there, after the removal, is ordinary, and at
      the end of the model otherwise. */
  lemma MovedRowEndsAt<T>(c: Codec<T>, rows: seq<Row<T>>, source: nat, destination: int)
    requires IsOrdinary(rows, source) && rows[source].original.Some?
    ensures var moved := MovedRows(c, rows, source, destination);
            var rest := RemoveAt(rows, source);
            var at := if IsOrdinary(rest, destination) then destination else |rest|;
            && at < |moved| == |rows| && moved[at] == OrdinaryRow(c, Item(c, rows[source]))
            && RemoveAt(moved, at) == rest
  {
    var rest := RemoveAt(rows, source);
    IndexMapsInvert(rest, 0, destination);
  }

  lemma RemoveAtMultiset<T>(s: seq<T>, i: nat)
    requires i < |s|
    ensures multiset(s) == multiset(RemoveAt(s, i)) + multiset{s[i]}
  {
    MultisetSplit(s, i);
  }

  lemma MovedItem<T>(items: seq<T>, v: nat, w: nat)
    requires v < |items| && w < |items|
    ensures var moved := InsertAt(RemoveAt(items, v), w, items[v]);
            && multiset(moved) == multiset(items) && |moved| == |items|
            && moved[w] == items[v] && RemoveAt(moved, w) == RemoveAt(items, v)
  {
    var kept := RemoveAt(items, v);
    InsertAtMultiset(kept, w, items[v]);
    RemoveAtMultiset(items, v);
  }

  /** A move permutes the vector, keeps the order of the other items, and stays in step with the
      rows. */
  lemma MoveIsPermutation<T(!new)>(c: Codec<T>, rows: seq<Row<T>>, source: nat, destination: int, items: seq<T>)
    requires Lawful(c) && WellFormed(rows) && items == Decoded(c, rows) && IsOrdinary(rows, source)
    ensures OrdinaryCount(rows[..source]) < |items|
    ensures var v := OrdinaryCount(rows[..source]);
            var rest := RemoveAt(rows, source);
            var moved := MovedItems(c, rows, source, destination, items);
            && multiset(moved) == multiset(items)
            && VectorIndex(rest, destination) < |moved| == |items|
            && moved[VectorIndex(rest, destination)] == items[v]
            && RemoveAt(moved, VectorIndex(rest, destination)) == RemoveAt(items, v)
            && WellFormed(MovedRows(c, rows, source, destination))
            && Decoded(c, MovedRows(c, rows, source, destination)) == moved
  {
    var v := OrdinaryCount(rows[..source]);
    RemoveRowDecodes(c, rows, source);
    var rest := RemoveAt(rows, source);
    var w := VectorIndex(rest, destination);
    CountAt(rest, destination);
    var x := Item(c, rows[source]);
    var kept := RemoveAt(items, v);
    assert MovedItems(c, rows, source, destination, items) == InsertAt(kept, w, x);
    InsertRowDecodes(c, rest, ModelIndex(rest, w), OrdinaryRow(c, x));
    MovedItem(items, v, w);
  }

  lemma CountAt<T>(rows: seq<Row<T>>, i: int)
    ensures VectorIndex(rows, i) <= OrdinaryCount(rows)
    ensures OrdinaryCount(rows[..ModelIndex(rows, VectorIndex(rows, i))]) == VectorIndex(rows, i)
  {
    IndexMapsInvert(rows, 0, i);
    assert rows[..|rows|] == rows;
  }
}
