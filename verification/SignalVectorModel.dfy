/**
  An observable vector and the table model that mirrors it row by row, with custom rows mixed in
  between. Signals are delivered synchronously, before the mutating call returns.
 */
module SignalVectorModels {
  import opened Sequences

  /** The data of one table cell, by role. */
  type Cell = map<int, string>

  /** A row knows the item it was made for unless it is a custom row, which shows no item. */
  datatype Row<T> = PlainRow(items: seq<Cell>, original: T) | CustomRow(items: seq<Cell>)

  // ---------------------------------------------------------------------------------------
  // Rows and indices

  function PlainCount<T>(rows: seq<Row<T>>): (n: nat)
    ensures n <= |rows|
  {
    if rows == [] then 0 else (if rows[0].CustomRow? then 0 else 1) + PlainCount(rows[1..])
  }

  /** The row showing the v-th vector item, or the end of the table. */
  function RowOf<T>(rows: seq<Row<T>>, v: nat): (r: nat)
    ensures r <= |rows|
  {
    if rows == [] || (v == 0 && !rows[0].CustomRow?) then 0
    else 1 + RowOf(rows[1..], if rows[0].CustomRow? then v else v - 1)
  }

  /** The vector index shown by row `m`; custom rows and rows outside the table count as the end. */
  function IndexOfRow<T>(rows: seq<Row<T>>, m: int): (v: nat)
    ensures v <= PlainCount(rows)
    ensures v < PlainCount(rows) <==> 0 <= m < |rows| && !rows[m].CustomRow?
  {
    if 0 <= m < |rows| && !rows[m].CustomRow? then
      RowOfUnique(rows, m);
      PlainCount(rows[..m])
    else
      PlainCount(rows)
  }

  /** `s` with its element `from` taken out and put back at `to`, or last if that is out of range. */
  function Moved<T>(s: seq<T>, from: nat, to: nat): seq<T>
    requires from < |s|
  {
    InsertAt(RemoveAt(s, from), if to < |s| then to else |s| - 1, s[from])
  }

  function Decoded<T>(rows: seq<Row<T>>, itemFromRow: (seq<Cell>, T) -> T): (items: seq<T>)
    ensures |items| == PlainCount(rows)
  {
    if rows == [] then []
    else if rows[0].CustomRow? then Decoded(rows[1..], itemFromRow)
    else [itemFromRow(rows[0].items, rows[0].original)] + Decoded(rows[1..], itemFromRow)
  }

  lemma {:induction false} PlainCountAppend<T>(s: seq<Row<T>>, t: seq<Row<T>>)
    ensures PlainCount(s + t) == PlainCount(s) + PlainCount(t)
  {
    if s == [] {
      assert s + t == t;
    } else {
      assert (s + t)[1..] == s[1..] + t;
      PlainCountAppend(s[1..], t);
    }
  }

  /** What `RowOf` finds: the plain row with exactly `v` plain rows above it. */
  lemma {:induction false} RowOfIs<T>(rows: seq<Row<T>>, v: nat)
    ensures v >= PlainCount(rows) ==> RowOf(rows, v) == |rows|
    ensures v < PlainCount(rows) ==>
              RowOf(rows, v) < |rows| && !rows[RowOf(rows, v)].CustomRow?
              && PlainCount(rows[..RowOf(rows, v)]) == v
  {
    if rows != [] && !(v == 0 && !rows[0].CustomRow?) {
      var w := if rows[0].CustomRow? then v else v - 1;
      RowOfIs(rows[1..], w);
      assert rows[..1 + RowOf(rows[1..], w)] == [rows[0]] + rows[1..][..RowOf(rows[1..], w)];
    }
  }

  /** Conversely, a row found that way is the one. */
  lemma {:induction false} RowOfUnique<T>(rows: seq<Row<T>>, r: nat)
    requires r < |rows| && !rows[r].CustomRow?
    ensures PlainCount(rows[..r]) < PlainCount(rows) && RowOf(rows, PlainCount(rows[..r])) == r
  {
    if r > 0 {
      assert rows[..r] == [rows[0]] + rows[1..][..r - 1];
      RowOfUnique(rows[1..], r - 1);
    }
  }

  /** From the vector to the table and back is the identity, the end position included. */
  lemma VectorIndexRoundTrip<T>(rows: seq<Row<T>>, v: nat)
    requires v <= PlainCount(rows)
    ensures IndexOfRow(rows, RowOf(rows, v)) == v
  {
    RowOfIs(rows, v);
  }

  /** From the table to the vector and back is the identity except on custom rows and outside. */
  lemma ModelIndexRoundTrip<T>(rows: seq<Row<T>>, m: int)
    ensures RowOf(rows, IndexOfRow(rows, m)) == m
            <==> m == |rows| || (0 <= m < |rows| && !rows[m].CustomRow?)
  {
    if 0 <= m < |rows| && !rows[m].CustomRow? {
      RowOfUnique(rows, m);
    } else {
      RowOfIs(rows, PlainCount(rows));
    }
  }

  // ---------------------------------------------------------------------------------------
  // The vector

  /** `less` is a strict weak order. */
  ghost predicate StrictWeakOrder<T(!new)>(less: (T, T) -> bool) {
    && (forall x :: !less(x, x))
    && (forall x, y, z :: less(x, y) && less(y, z) ==> less(x, z))
    && (forall x, y, z :: less(x, z) ==> less(x, y) || less(y, z))
  }

  ghost predicate SortedBy<T>(s: seq<T>, less: (T, T) -> bool) {
    forall i, j :: 0 <= i < j < |s| ==> !less(s[j], s[i])
  }

  class SignalVector<T(==,!new)> {
    const itemCompare: Option<(T, T) -> bool>
    var items: seq<T>
    /** The copy that other threads may read. */
    var readOnly: seq<T>
    /** The table connected to the signals, if any. */
    var subscriber: SignalVectorModel?<T>

    ghost predicate Valid()
      reads this
    {
      && readOnly == items
      && (itemCompare.Some? ==> StrictWeakOrder(itemCompare.value) && SortedBy(items, itemCompare.value))
    }

    constructor (itemCompare: Option<(T, T) -> bool>)
      requires itemCompare.Some? ==> StrictWeakOrder(itemCompare.value)
      ensures Valid() && items == [] && subscriber == null && this.itemCompare == itemCompare
    {
      this.itemCompare := itemCompare;
      items, readOnly, subscriber := [], [], null;
    }

    predicate IsSorted() {
      itemCompare.Some?
    }

    ghost function Watchers(): set<object>
      reads this
    {
      if subscriber == null then {} else {subscriber}
    }

    /** Where `item` sorts in `s`: the first position whose item is not less than it. */
    function SortedPosition(s: seq<T>, item: T): (pos: nat)
      requires IsSorted()
      ensures pos <= |s|
      ensures forall k :: 0 <= k < pos ==> itemCompare.value(s[k], item)
      ensures pos < |s| ==> !itemCompare.value(s[pos], item)
    {
      FirstMatch(s, NotLess(item))
    }

    function NotLess(item: T): T -> bool
      requires IsSorted()
    {
      var less := itemCompare.value;
      x => !less(x, item)
    }

    /** Finds that position by bisection; everything from there on is not less either. */
    method LowerBound(item: T) returns (pos: nat)
      requires Valid() && IsSorted()
      ensures pos == SortedPosition(items, item)
      ensures forall k :: pos <= k < |items| ==> !itemCompare.value(items[k], item)
    {
      var less := itemCompare.value;
      var lo, hi := 0, |items|;
      while lo < hi
        invariant 0 <= lo <= hi <= |items|
        invariant forall k :: 0 <= k < lo ==> less(items[k], item)
        invariant forall k :: hi <= k < |items| ==> !less(items[k], item)
      {
        var mid := (lo + hi) / 2;
        if less(items[mid], item) {
          forall k | 0 <= k <= mid
            ensures less(items[k], item)
          {
            assert k < mid ==> !less(items[mid], items[k]);
          }
          lo := mid + 1;
        } else {
          forall k | mid <= k < |items|
            ensures !less(items[k], item)
          {
            assert mid < k ==> !less(items[k], items[mid]);
          }
          hi := mid;
        }
      }
      FirstMatchIs(items, NotLess(item), lo);
      return lo;
    }

    /** `index == -1` appends; a sorted vector ignores `index`. Returns the position used. */
    method Insert(item: T, index: int, caller: object?) returns (at: nat)
      requires Valid() && (IsSorted() || -1 <= index <= |items|)
      requires subscriber != null ==> subscriber.Columns(item)
      modifies this`items, this`readOnly, Watchers()
      ensures Valid()
      ensures at <= |old(items)| && items == InsertAt(old(items), at, item)
      ensures at == if IsSorted() then SortedPosition(old(items), item)
                    else if index == -1 then |old(items)| else index
      ensures subscriber != null ==>
                subscriber.rows == if caller == subscriber then old(subscriber.rows)
                                   else subscriber.Inserted(old(subscriber.rows), at, item)
    {
      if IsSorted() {
        at := LowerBound(item);
        InsertKeepsSorted(items, at, item, itemCompare.value);
      } else {
        at := if index == -1 then |items| else index;
      }
      items := InsertAt(items, at, item);
      if subscriber != null {
        subscriber.OnItemInserted(item, at, caller);
      }
      readOnly := items;
    }

    method RemoveAt(index: nat, caller: object?)
      requires Valid() && index < |items|
      requires subscriber != null && caller != subscriber ==> index < PlainCount(subscriber.rows)
      modifies this`items, this`readOnly, Watchers()
      ensures Valid()
      ensures items == Sequences.RemoveAt(old(items), index)
      ensures subscriber != null ==>
                subscriber.rows == if caller == subscriber then old(subscriber.rows)
                                   else subscriber.Removed(old(subscriber.rows), index)
    {
      items := Sequences.RemoveAt(items, index);
      if subscriber != null {
        subscriber.OnItemRemoved(index, caller);
      }
      readOnly := items;
    }

    method RemoveFirstMatching(matcher: T -> bool, caller: object?) returns (removed: bool)
      requires Valid()
      requires subscriber != null && caller != subscriber ==> |items| <= PlainCount(subscriber.rows)
      modifies this`items, this`readOnly, Watchers()
      ensures Valid()
      ensures var i := FirstMatch(old(items), matcher);
              && removed == (i < |old(items)|)
              && items == (if removed then Sequences.RemoveAt(old(items), i) else old(items))
              && (subscriber != null ==>
                    subscriber.rows == if !removed || caller == subscriber then old(subscriber.rows)
                                       else subscriber.Removed(old(subscriber.rows), i))
    {
      for index := 0 to |items|
        invariant forall k :: 0 <= k < index ==> !matcher(items[k])
        invariant Valid() && items == old(items)
        invariant subscriber != null ==> subscriber.rows == old(subscriber.rows)
      {
        if matcher(items[index]) {
          assert index == FirstMatch(items, matcher);
          RemoveAt(index, caller);
          return true;
        }
      }
      return false;
    }
  }

  lemma InsertKeepsSorted<T(!new)>(s: seq<T>, at: nat, x: T, less: (T, T) -> bool)
    requires StrictWeakOrder(less) && SortedBy(s, less) && at <= |s|
    requires forall k :: 0 <= k < at ==> less(s[k], x)
    requires forall k :: at <= k < |s| ==> !less(s[k], x)
    ensures SortedBy(InsertAt(s, at, x), less)
  {
    var r := InsertAt(s, at, x);
    forall i, j | 0 <= i < j < |r|
      ensures !less(r[j], r[i])
    {
      assert r[i] == (if i < at then s[i] else if i == at then x else s[i - 1]);
      assert r[j] == (if j < at then s[j] else if j == at then x else s[j - 1]);
    }
  }

  // ---------------------------------------------------------------------------------------
  // The table

  /** What became of a change to the table. */
  datatype Outcome = Done | Refused | Failed

  class SignalVectorModel<T(==,!new)> {
    const vector: SignalVector<T>
    const columnCount: nat
    /** What a concrete table defines: how rows show items and how items are read back. */
    const itemFromRow: (seq<Cell>, T) -> T
    const rowFromItem: T -> seq<Cell>
    var rows: seq<Row<T>>

    /** Showing an item fills every column, and an unedited row reads back as its item. */
    ghost predicate Codec() {
      forall x :: |rowFromItem(x)| == columnCount && itemFromRow(rowFromItem(x), x) == x
    }

    predicate Columns(item: T) {
      |rowFromItem(item)| == columnCount
    }

    ghost predicate RowsValid(rs: seq<Row<T>>) {
      forall row :: row in rs ==> |row.items| == columnCount
    }

    /** The table is connected to its vector and well formed. */
    ghost predicate Valid()
      reads this, vector
    {
      && Codec()
      && vector.subscriber == this
      && vector.Valid()
      && RowsValid(rows)
    }

    /** The plain rows read back, from top to bottom, as exactly the items of the vector. */
    ghost predicate Synced()
      reads this, vector
    {
      Valid() && Decoded(rows, itemFromRow) == vector.items
    }

    /** The item a plain row reads back as. */
    function ReadBack(row: Row<T>): T
      requires row.PlainRow?
    {
      itemFromRow(row.items, row.original)
    }

    function Edited(row: Row<T>, column: nat, value: string, role: int): (r: Row<T>)
      requires column < |row.items|
      ensures |r.items| == |row.items| && r.CustomRow? == row.CustomRow? && (row.PlainRow? ==> r.original == row.original)
      ensures forall c, k :: 0 <= c < |row.items| && k in r.items[c] ==>
                if c == column && k == role then r.items[c][k] == value
                else k in row.items[c] && r.items[c][k] == row.items[c][k]
      ensures role in r.items[column]
      ensures forall c, k :: 0 <= c < |row.items| && k in row.items[c] ==> k in r.items[c]
    {
      row.(items := row.items[column := row.items[column][role := value]])
    }

    function NewRow(item: T): Row<T> {
      PlainRow(rowFromItem(item), item)
    }

    function Inserted(rs: seq<Row<T>>, index: nat, item: T): seq<Row<T>> {
      InsertAt(rs, RowOf(rs, index), NewRow(item))
    }

    function Removed(rs: seq<Row<T>>, index: nat): seq<Row<T>>
      requires index < PlainCount(rs)
    {
      RowOfIs(rs, index);
      RemoveAt(rs, RowOf(rs, index))
    }

    /** Shows the vector's present items and connects to its signals. */
    constructor (vec: SignalVector<T>, columnCount: nat,
                 itemFromRow: (seq<Cell>, T) -> T, rowFromItem: T -> seq<Cell>)
      requires vec.Valid()
      requires forall x :: |rowFromItem(x)| == columnCount && itemFromRow(rowFromItem(x), x) == x
      modifies vec`subscriber
      ensures vector == vec && vec.subscriber == this
      ensures this.columnCount == columnCount && this.itemFromRow == itemFromRow && this.rowFromItem == rowFromItem
      ensures Synced() && |rows| == |vec.items|
    {
      vector := vec;
      this.columnCount := columnCount;
      this.itemFromRow := itemFromRow;
      this.rowFromItem := rowFromItem;
      rows := [];
      new;
      for i := 0 to |vec.items|
        invariant RowsValid(rows) && |rows| == PlainCount(rows)
        invariant Decoded(rows, itemFromRow) == vec.items[..i]
      {
        InsertedDecodes(rows, i, NewRow(vec.items[i]), itemFromRow);
        RowOfIs(rows, i);
        OnItemInserted(vec.items[i], i, null);
        assert InsertAt(vec.items[..i], i, vec.items[i]) == vec.items[..i + 1];
      }
      vec.subscriber := this;
    }

    /** The loop behind `RowOf`. */
    method GetModelIndexFromVectorIndex(vectorIndex: nat) returns (modelIndex: nat)
      ensures modelIndex == RowOf(rows, vectorIndex)
    {
      modelIndex := 0;
      var index := vectorIndex;
      for i := 0 to |rows|
        invariant modelIndex == i <= index
        invariant RowOf(rows, vectorIndex) == i + RowOf(rows[i..], index - i)
      {
        if rows[i].CustomRow? {
          index := index + 1;
        }
        if modelIndex == index {
          return;
        }
        modelIndex := modelIndex + 1;
      }
    }

    /** The loop behind `IndexOfRow`. */
    method GetVectorIndexFromModelIndex(modelIndex: int) returns (i: nat)
      ensures i == IndexOfRow(rows, modelIndex)
    {
      i := 0;
      var index := modelIndex;
      for r := 0 to |rows|
        invariant i == PlainCount(rows[..r])
        invariant index == modelIndex - (r - i)
        invariant 0 <= modelIndex < r ==> rows[modelIndex].CustomRow?
      {
        assert rows[..r + 1] == rows[..r] + [rows[r]];
        PlainCountAppend(rows[..r], [rows[r]]);
        if rows[r].CustomRow? {
          index := index - 1;
          continue;
        }
        if i == index {
          return;
        }
        i := i + 1;
      }
      assert rows[..|rows|] == rows;
    }

    method OnItemInserted(item: T, index: nat, caller: object?)
      requires Columns(item)
      modifies this`rows
      ensures rows == if caller == this then old(rows) else Inserted(old(rows), index, item)
    {
      if caller == this {
        return;
      }
      var row := GetModelIndexFromVectorIndex(index);
      rows := InsertAt(rows, row, NewRow(item));
    }

    method OnItemRemoved(index: nat, caller: object?)
      requires caller != this ==> index < PlainCount(rows)
      modifies this`rows
      ensures rows == if caller == this then old(rows) else Removed(old(rows), index)
    {
      if caller == this {
        return;
      }
      RowOfIs(rows, index);
      var row := GetModelIndexFromVectorIndex(index);
      rows := RemoveAt(rows, row);
    }

    // -------------------------------------------------------------------------------------
    // What callers do to the pair

    /** Inserting through the vector, as anyone holding it may. */
    method InsertItem(item: T, index: int) returns (at: nat)
      requires Synced() && (vector.IsSorted() || -1 <= index <= |vector.items|)
      modifies this, vector`items, vector`readOnly
      ensures Synced()
      ensures at <= |old(vector.items)| && vector.items == InsertAt(old(vector.items), at, item)
      ensures at == if vector.IsSorted() then vector.SortedPosition(old(vector.items), item)
                    else if index == -1 then |old(vector.items)| else index
      ensures rows == Inserted(old(rows), at, item)
    {
      hide Decoded, RowOf, PlainCount, StrictWeakOrder, SortedBy;
      at := vector.Insert(item, index, null);
      InsertedDecodes(old(rows), at, NewRow(item), itemFromRow);
    }

    method RemoveItem(index: nat)
      requires Synced() && index < |vector.items|
      modifies this, vector`items, vector`readOnly
      ensures Synced() && vector.items == RemoveAt(old(vector.items), index)
      ensures rows == Removed(old(rows), index)
    {
      vector.RemoveAt(index, null);
      RemovedDecodes(old(rows), index, itemFromRow);
    }

    method RemoveFirstMatching(matcher: T -> bool) returns (removed: bool)
      requires Synced()
      modifies this, vector`items, vector`readOnly
      ensures Synced()
      ensures var i := FirstMatch(old(vector.items), matcher);
              && removed == (i < |old(vector.items)|)
              && vector.items == (if removed then RemoveAt(old(vector.items), i) else old(vector.items))
    {
      removed := vector.RemoveFirstMatching(matcher, null);
      if removed {
        RemovedDecodes(old(rows), FirstMatch(old(vector.items), matcher), itemFromRow);
      }
    }

    /** Removing a row of the table: on a custom row the vector is asked for an item it does not have. */
    method RemoveRows(row: nat, count: int) returns (outcome: Outcome)
      requires Synced() && row < |rows|
      modifies this, vector`items, vector`readOnly
      ensures Synced()
      ensures outcome == if count != 1 then Refused else if old(rows)[row].CustomRow? then Failed else Done
      ensures rows == if outcome == Done then RemoveAt(old(rows), row) else old(rows)
      ensures vector.items == if outcome == Done then RemoveAt(old(vector.items), IndexOfRow(old(rows), row))
                              else old(vector.items)
    {
      if count != 1 {
        return Refused;
      }
      var index := GetVectorIndexFromModelIndex(row);
      if index >= |vector.items| {
        return Failed;
      }
      RowOfUnique(rows, row);
      RemoveItem(index);
      return Done;
    }

    /**
      Moving a row, which fails exactly on custom rows: they have no original. In an unsorted vector the destination is read in the table without the
      moved row, so the row ends up at `destinationChild` if a plain row is there or the table ends
      there, and at the very end of the table otherwise. A sorted vector puts it where it sorts.
     */
    method MoveRows(sourceRow: nat, count: int, destinationChild: int) returns (outcome: Outcome)
      requires Synced() && sourceRow < |rows|
      modifies this, vector`items, vector`readOnly
      ensures Synced()
      ensures outcome == if count != 1 then Refused else if old(rows)[sourceRow].CustomRow? then Failed else Done
      ensures outcome != Done ==> rows == old(rows) && vector.items == old(vector.items)
      ensures outcome == Done && vector.IsSorted() ==>
                var from := IndexOfRow(old(rows), sourceRow);
                var item, rest := old(vector.items)[from], RemoveAt(old(vector.items), from);
                vector.items == InsertAt(rest, vector.SortedPosition(rest, item), item)
      ensures outcome == Done && !vector.IsSorted() ==>
                var item := old(vector.items)[IndexOfRow(old(rows), sourceRow)];
                var rest := RemoveAt(old(rows), sourceRow);
                && vector.items == Moved(old(vector.items), IndexOfRow(old(rows), sourceRow),
                                         IndexOfRow(rest, destinationChild))
                && rows == InsertAt(rest, Landing(rest, destinationChild), NewRow(item))
    {
      if count != 1 {
        return Refused;
      }
      var index := GetVectorIndexFromModelIndex(sourceRow);
      if rows[sourceRow].CustomRow? {
        return Failed;
      }
      RowOfUnique(rows, sourceRow);
      DecodedAt(rows, sourceRow, itemFromRow);
      var item := itemFromRow(rows[sourceRow].items, rows[sourceRow].original);
      RemoveItem(index);
      var target := GetVectorIndexFromModelIndex(destinationChild);
      LandingIs(rows, destinationChild);
      var _ := InsertItem(item, target);
      return Done;
    }

    /**
      Dropping a row onto another one. The check of the indices refuses nothing, as no row has a
      vector index beyond the size; so a custom row gets as far as the move, which fails.
     */
    method DropMimeData(from: int, to: int) returns (outcome: Outcome)
      requires Synced() && 0 <= from < |rows|
      modifies this, vector`items, vector`readOnly
      ensures Synced()
      ensures outcome == if from == to then Refused else if old(rows)[from].CustomRow? then Failed else Done
      ensures outcome != Done ==> rows == old(rows) && vector.items == old(vector.items)
      ensures outcome == Done && !vector.IsSorted() ==>
                vector.items == Moved(old(vector.items), IndexOfRow(old(rows), from),
                                      IndexOfRow(RemoveAt(old(rows), from), to))
    {
      var vectorFrom := GetVectorIndexFromModelIndex(from);
      var vectorTo := GetVectorIndexFromModelIndex(to);
      if vectorFrom > |vector.items| || vectorTo > |vector.items| {
        return Refused;
      }
      if from == to {
        return Refused;
      }
      outcome := MoveRows(from, 1, to);
    }

    /**
      Editing one cell. On a plain row of an unsorted vector the edited row is read back into the
      same place of the vector; the row keeps its `original`. A sorted vector puts the edited item
      where it sorts while the row stays where it is, so the two stay in step exactly when all the
      items between the two places equal the edited item.
     */
    method SetData(row: int, column: int, value: string, role: int) returns (ok: bool)
      requires Synced()
      modifies this, vector`items, vector`readOnly
      ensures Valid()
      ensures ok == (0 <= row < |old(rows)| && 0 <= column < columnCount)
      ensures !ok ==> rows == old(rows)
      ensures ok ==> rows == old(rows)[row := Edited(old(rows)[row], column, value, role)]
      ensures !ok || old(rows)[row].CustomRow? ==> vector.items == old(vector.items) && Synced()
      ensures ok && !old(rows)[row].CustomRow? ==>
                var v, item := IndexOfRow(old(rows), row), ReadBack(rows[row]);
                var rest := RemoveAt(old(vector.items), v);
                var at := if vector.IsSorted() then vector.SortedPosition(rest, item) else v;
                && vector.items == InsertAt(rest, at, item)
                && (Synced() <==> forall k :: at <= k < v || v <= k < at ==> rest[k] == item)
    {
      if row < 0 || column < 0 || row >= |rows| || column >= columnCount {
        return false;
      }
      ghost var before := rows;
      var edited := Edited(rows[row], column, value, role);
      assert rows[row] in rows;
      rows := rows[row := edited];
      EditedDecodes(before, row, edited, itemFromRow);
      if !rows[row].CustomRow? {
        assert before[..row] == rows[..row];
        CommitRow(row);
      }
      return true;
    }

    /** The second half of an edit: the vector takes over what the edited row reads back as. */
    method CommitRow(row: nat)
      requires Valid() && row < |rows| && !rows[row].CustomRow?
      requires |vector.items| == PlainCount(rows)
      requires Decoded(rows, itemFromRow) == vector.items[IndexOfRow(rows, row) := ReadBack(rows[row])]
      modifies this, vector`items, vector`readOnly
      ensures Valid() && rows == old(rows)
      ensures var v, item := IndexOfRow(rows, row), ReadBack(rows[row]);
              var rest := RemoveAt(old(vector.items), v);
              var at := if vector.IsSorted() then vector.SortedPosition(rest, item) else v;
              && vector.items == InsertAt(rest, at, item)
              && (Synced() <==> forall k :: at <= k < v || v <= k < at ==> rest[k] == item)
    {
      var vecRow := GetVectorIndexFromModelIndex(row);
      if vecRow >= |vector.readOnly| {
        assert false;
      }
      ghost var items := vector.items;
      vector.RemoveAt(vecRow, this);
      var item := itemFromRow(rows[row].items, rows[row].original);
      var at := vector.Insert(item, vecRow, this);
      PutBack(items, vecRow, item);
      SameInsertion(RemoveAt(items, vecRow), at, vecRow, item);
    }

    method InsertCustomRow(items: seq<Cell>, index: nat)
      requires Synced() && index <= |rows| && |items| == columnCount
      modifies this`rows
      ensures Synced() && rows == InsertAt(old(rows), index, CustomRow(items))
    {
      PutRow(rows, index, CustomRow(items), itemFromRow);
      rows := InsertAt(rows, index, CustomRow(items));
    }

    method RemoveCustomRow(index: nat)
      requires Synced() && index < |rows| && rows[index].CustomRow?
      modifies this`rows
      ensures Synced() && rows == RemoveAt(old(rows), index)
    {
      var rest := RemoveAt(rows, index);
      assert InsertAt(rest, index, rows[index]) == rows;
      PutRow(rest, index, rows[index], itemFromRow);
      rows := rest;
    }
  }

  // ---------------------------------------------------------------------------------------
  // How edits of the rows show in the decoded items

  /** Where a row inserted for the vector index shown at `m` ends up. */
  function Landing<T>(rows: seq<Row<T>>, m: int): (r: nat)
    ensures r <= |rows|
  {
    if 0 <= m < |rows| && !rows[m].CustomRow? then m else |rows|
  }

  lemma LandingIs<T>(rows: seq<Row<T>>, m: int)
    ensures RowOf(rows, IndexOfRow(rows, m)) == Landing(rows, m)
  {
    ModelIndexRoundTrip(rows, m);
    RowOfIs(rows, PlainCount(rows));
  }

  lemma {:induction false} DecodedAppend<T>(s: seq<Row<T>>, t: seq<Row<T>>, f: (seq<Cell>, T) -> T)
    ensures Decoded(s + t, f) == Decoded(s, f) + Decoded(t, f)
  {
    if s == [] {
      assert s + t == t;
    } else {
      assert (s + t)[1..] == s[1..] + t;
      DecodedAppend(s[1..], t, f);
    }
  }

  /** Splitting a table at a plain row splits its items at that row's vector index. */
  lemma DecodedAt<T>(rows: seq<Row<T>>, r: nat, f: (seq<Cell>, T) -> T)
    requires r < |rows| && !rows[r].CustomRow?
    ensures var v := PlainCount(rows[..r]);
            && v < PlainCount(rows)
            && Decoded(rows, f)[v] == f(rows[r].items, rows[r].original)
            && Decoded(rows[..r], f) == Decoded(rows, f)[..v]
            && Decoded(rows[r + 1..], f) == Decoded(rows, f)[v + 1..]
  {
    var above, below := rows[..r], rows[r + 1..];
    SplitAround(rows, r);
    DecodedRow(rows[r], f);
    DecodedAppend([rows[r]], below, f);
    DecodedAppend(above, [rows[r]] + below, f);
    AroundElement(Decoded(above, f), f(rows[r].items, rows[r].original), Decoded(below, f));
    RowOfUnique(rows, r);
  }

  lemma DecodedRow<T>(row: Row<T>, f: (seq<Cell>, T) -> T)
    ensures Decoded([row], f) == if row.CustomRow? then [] else [f(row.items, row.original)]
    ensures PlainCount([row]) == if row.CustomRow? then 0 else 1
  {
  }

  /** What putting a row into a table at any place does to the items. */
  lemma PutRow<T>(rows: seq<Row<T>>, r: nat, row: Row<T>, f: (seq<Cell>, T) -> T)
    requires r <= |rows|
    ensures PlainCount(rows[..r]) <= PlainCount(rows)
    ensures PlainCount(InsertAt(rows, r, row)) == PlainCount(rows) + if row.CustomRow? then 0 else 1
    ensures Decoded(InsertAt(rows, r, row), f)
            == if row.CustomRow? then Decoded(rows, f)
               else InsertAt(Decoded(rows, f), PlainCount(rows[..r]), f(row.items, row.original))
  {
    hide Decoded, PlainCount, InsertAt;
    var above, below := rows[..r], rows[r..];
    assert rows == above + below;
    InsertAtSeam(above, below, row);
    PlainCountAppend(above, below);
    DecodedAppend(above, below, f);
    DecodedRow(row, f);
    PlainCountAppend(above, [row]);
    DecodedAppend(above, [row], f);
    PlainCountAppend(above + [row], below);
    DecodedAppend(above + [row], below, f);
    if row.CustomRow? {
      assert Decoded(above, f) + [] == Decoded(above, f);
    } else {
      InsertAtSeam(Decoded(above, f), Decoded(below, f), f(row.items, row.original));
    }
  }

  lemma InsertedDecodes<T>(rows: seq<Row<T>>, v: nat, row: Row<T>, f: (seq<Cell>, T) -> T)
    requires v <= PlainCount(rows) && row.PlainRow?
    ensures Decoded(InsertAt(rows, RowOf(rows, v), row), f)
            == InsertAt(Decoded(rows, f), v, f(row.items, row.original))
    ensures PlainCount(InsertAt(rows, RowOf(rows, v), row)) == PlainCount(rows) + 1
  {
    RowOfIs(rows, v);
    if RowOf(rows, v) == |rows| {
      assert rows[..|rows|] == rows;
    }
    PutRow(rows, RowOf(rows, v), row, f);
  }

  lemma RemovedDecodes<T>(rows: seq<Row<T>>, v: nat, f: (seq<Cell>, T) -> T)
    requires v < PlainCount(rows)
    ensures RowOf(rows, v) < |rows|
    ensures Decoded(RemoveAt(rows, RowOf(rows, v)), f) == RemoveAt(Decoded(rows, f), v)
    ensures PlainCount(RemoveAt(rows, RowOf(rows, v))) == PlainCount(rows) - 1
  {
    var r := RowOf(rows, v);
    RowOfIs(rows, v);
    DecodedAt(rows, r, f);
    DecodedAppend(rows[..r], rows[r + 1..], f);
  }

  lemma EditedDecodes<T>(rows: seq<Row<T>>, r: nat, row: Row<T>, f: (seq<Cell>, T) -> T)
    requires r < |rows| && row.CustomRow? == rows[r].CustomRow?
    ensures PlainCount(rows[r := row]) == PlainCount(rows)
    ensures row.CustomRow? ==> Decoded(rows[r := row], f) == Decoded(rows, f)
    ensures !row.CustomRow? ==>
              PlainCount(rows[..r]) < PlainCount(rows)
              && Decoded(rows[r := row], f)
                 == Decoded(rows, f)[PlainCount(rows[..r]) := f(row.items, row.original)]
  {
    hide Decoded, PlainCount, InsertAt, RemoveAt;
    var rest := RemoveAt(rows, r);
    PutBack(rows, r, rows[r]);
    PutBack(rows, r, row);
    assert rows[r := rows[r]] == rows;
    RemovedPrefix(rows, r);
    PutRow(rest, r, rows[r], f);
    PutRow(rest, r, row, f);
    if !row.CustomRow? {
      Overwrite(Decoded(rest, f), PlainCount(rows[..r]),
                f(rows[r].items, rows[r].original), f(row.items, row.original));
    }
  }

  lemma RemovedPrefix<T>(s: seq<T>, i: nat)
    requires i < |s|
    ensures RemoveAt(s, i)[..i] == s[..i]
  {
  }

  lemma Overwrite<T>(s: seq<T>, i: nat, x: T, y: T)
    requires i <= |s|
    ensures InsertAt(s, i, x)[i := y] == InsertAt(s, i, y)
  {
  }

  lemma PutBack<T>(s: seq<T>, i: nat, x: T)
    requires i < |s|
    ensures InsertAt(RemoveAt(s, i), i, x) == s[i := x]
  {
  }

  // ---------------------------------------------------------------------------------------
  // A sorted vector and its table out of step

  function Shorter(): (string, string) -> bool {
    (a: string, b: string) => |a| < |b|
  }

  function CellText(): (seq<Cell>, string) -> string {
    (items: seq<Cell>, original: string) => if |items| == 1 && 0 in items[0] then items[0][0] else original
  }

  function TextCell(): string -> seq<Cell> {
    (item: string) => [map[0 := item]]
  }

  function Showing(item: string): Row<string> {
    PlainRow([map[0 := item]], item)
  }

  /** A table of one column of texts sorted by length. */
  ghost predicate ShowsTexts(table: SignalVectorModel<string>)
    reads table, table.vector
  {
    && table.Synced() && table.columnCount == 1
    && table.vector.itemCompare == Some(Shorter())
    && table.itemFromRow == CellText() && table.rowFromItem == TextCell()
  }

  method TwoTexts() returns (table: SignalVectorModel<string>)
    ensures fresh(table) && fresh(table.vector) && ShowsTexts(table)
    ensures table.rows == [Showing("a"), Showing("bb")] && table.vector.items == ["a", "bb"]
  {
    var vector := new SignalVector<string>(Some(Shorter()));
    table := new SignalVectorModel<string>(vector, 1, CellText(), TextCell());
    AddText(table, "a");
    assert table.rows == [Showing("a")] && table.vector.items == ["a"];
    AddText(table, "bb");
    assert [Showing("a")] + [Showing("bb")] == [Showing("a"), Showing("bb")];
  }

  /** A text longer than all others comes last. */
  method AddText(table: SignalVectorModel<string>, text: string)
    requires ShowsTexts(table) && PlainCount(table.rows) == |table.rows|
    requires forall k :: 0 <= k < |table.vector.items| ==> |table.vector.items[k]| < |text|
    modifies table, table.vector`items, table.vector`readOnly
    ensures ShowsTexts(table) && PlainCount(table.rows) == |table.rows|
    ensures table.vector.items == old(table.vector.items) + [text]
    ensures table.rows == old(table.rows) + [Showing(text)]
  {
    hide Decoded, PlainCount, RowOf, FirstMatch;
    ghost var items, rows := table.vector.items, table.rows;
    ComesLast(items, text);
    RowOfIs(rows, |items|);
    var at := table.InsertItem(text, -1);
    InsertAtEnd(items, text);
    InsertAtEnd(rows, Showing(text));
    PlainCountAppend(rows, [Showing(text)]);
    DecodedRow(Showing(text), CellText());
    assert table.NewRow(text) == Showing(text);
  }

  lemma ComesLast(items: seq<string>, text: string)
    requires forall k :: 0 <= k < |items| ==> |items[k]| < |text|
    ensures var less := Shorter(); FirstMatch(items, (x: string) => !less(x, text)) == |items|
  {
  }

  /** The shorter one of two texts sorted by length is edited to be the longer one. */
  method EditedPastNeighbour() returns (table: SignalVectorModel<string>)
    ensures table.vector.items == ["bb", "ccc"] && Decoded(table.rows, table.itemFromRow) == ["ccc", "bb"]
    ensures table.Valid() && !table.Synced()
  {
    hide Decoded, IndexOfRow, FirstMatch, InsertAt, RemoveAt;
    table := TwoTexts();
    ghost var rows := table.rows;
    FirstOfTwo(rows);
    SecondOfTwo();
    var ok := table.SetData(0, 0, "ccc", 0);
    TwoRows(table.rows, table.itemFromRow);
  }

  lemma FirstOfTwo(rows: seq<Row<string>>)
    requires rows == [Showing("a"), Showing("bb")]
    ensures IndexOfRow(rows, 0) == 0
  {
    assert rows[..0] == [];
  }

  lemma SecondOfTwo()
    ensures RemoveAt(["a", "bb"], 0) == ["bb"] && InsertAt(["bb"], 1, "ccc") == ["bb", "ccc"]
    ensures var less := Shorter(); FirstMatch(["bb"], (x: string) => !less(x, "ccc")) == 1
  {
    assert ["bb"][1..] == [];
  }

  lemma TwoRows<T>(rows: seq<Row<T>>, f: (seq<Cell>, T) -> T)
    requires |rows| == 2 && rows[0].PlainRow? && rows[1].PlainRow?
    ensures Decoded(rows, f) == [f(rows[0].items, rows[0].original), f(rows[1].items, rows[1].original)]
  {
    assert rows[1..][0] == rows[1] && rows[1..][1..] == [];
  }


  // ---------------------------------------------------------------------------------------
  // A table without custom rows

  /** There, the indices of the vector are those of the table, and a moved row ends up where it is put. */
  lemma {:induction false} PlainTable<T>(rows: seq<Row<T>>)
    requires forall k :: 0 <= k < |rows| ==> rows[k].PlainRow?
    ensures PlainCount(rows) == |rows|
    ensures forall v: nat :: v <= |rows| ==> RowOf(rows, v) == v
    ensures forall m: int :: 0 <= m < |rows| ==> IndexOfRow(rows, m) == m && Landing(rows, m) == m
    ensures forall m: int :: m < 0 || m >= |rows| ==> IndexOfRow(rows, m) == |rows| && Landing(rows, m) == |rows|
  {
    AllPlain(rows);
    forall v: nat | v <= |rows|
      ensures RowOf(rows, v) == v
    {
      AllPlainRow(rows, v);
    }
    forall m: int | 0 <= m < |rows|
      ensures IndexOfRow(rows, m) == m
    {
      AllPlain(rows[..m]);
    }
  }

  lemma {:induction false} AllPlain<T>(rows: seq<Row<T>>)
    requires forall k :: 0 <= k < |rows| ==> rows[k].PlainRow?
    ensures PlainCount(rows) == |rows|
  {
    if rows != [] {
      AllPlain(rows[1..]);
    }
  }

  lemma {:induction false} AllPlainRow<T>(rows: seq<Row<T>>, v: nat)
    requires v <= |rows| && forall k :: 0 <= k < |rows| ==> rows[k].PlainRow?
    ensures RowOf(rows, v) == v
  {
    if v > 0 {
      AllPlainRow(rows[1..], v - 1);
    }
  }

  /** Moving an item leaves the others in their order around it. */
  lemma MovedSpelled<T>(s: seq<T>, from: nat, to: nat)
    requires from < |s| && to < |s|
    ensures Moved(s, from, to)[to] == s[from]
    ensures from <= to ==> Moved(s, from, to) == s[..from] + s[from + 1..to + 1] + [s[from]] + s[to + 1..]
    ensures to <= from ==> Moved(s, from, to) == s[..to] + [s[from]] + s[to..from] + s[from + 1..]
  {
  }
}
