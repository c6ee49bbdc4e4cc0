/** A container in which several indices share one value: three maps that must agree. */
module Multindex {

  /** What an index stands for: the indices that share the value, and the value. */
  datatype Cell<I, V> = Cell(indices: set<I>, value: V)

  type Cells<I, V> = map<I, Cell<I, V>>

  /** The cells are the parts of a partition: an index belongs to its own cell, and every index of
      a cell has that same cell. */
  ghost predicate Partition<I, V>(cells: Cells<I, V>) {
    (forall i :: i in cells ==> i in cells[i].indices)
    && (forall i, j :: i in cells && j in cells[i].indices ==> j in cells && cells[j] == cells[i])
  }

  // ----- the operations on partitions -----

  function Inserted<I, V>(cells: Cells<I, V>, index: I, value: V): (r: Cells<I, V>)
    requires index !in cells
  {
    cells[index := Cell({index}, value)]
  }

  /** One part of the partition is replaced by another one. */
  function Replaced<I, V>(cells: Cells<I, V>, part: set<I>, cell: Cell<I, V>): Cells<I, V> {
    (cells - part) + (map i | i in cell.indices :: cell)
  }

  /** Another index for an existing value. */
  function Bound<I, V>(cells: Cells<I, V>, existing: I, index: I): Cells<I, V>
    requires existing in cells
  {
    var cell := cells[existing];
    Replaced(cells, cell.indices, Cell(cell.indices + {index}, cell.value))
  }

  /** One index less; with the last one the value goes. */
  function Erased<I, V>(cells: Cells<I, V>, index: I): Cells<I, V>
    requires index in cells
  {
    var cell := cells[index];
    Replaced(cells, cell.indices, Cell(cell.indices - {index}, cell.value))
  }

  function Assigned<I, V>(cells: Cells<I, V>, index: I, value: V): Cells<I, V>
    requires index in cells
  {
    Replaced(cells, cells[index].indices, Cell(cells[index].indices, value))
  }

  /** All other indices of the value go. */
  function Uniquefied<I, V>(cells: Cells<I, V>, index: I): Cells<I, V>
    requires index in cells
  {
    Replaced(cells, cells[index].indices, Cell({index}, cells[index].value))
  }

  ghost predicate HasValue<I, V>(cells: Cells<I, V>, value: V) {
    exists i :: i in cells && cells[i].value == value
  }

  /** The value of every index. */
  function Unfolded<I, V>(cells: Cells<I, V>): map<I, V> {
    map i | i in cells :: cells[i].value
  }

  // ----- the three maps -----

  datatype Maps<I, V> = Maps(nextUid: nat, indexToUid: map<I, nat>, uidToValue: map<nat, V>, uidToIndices: map<nat, set<I>>)

  /** Every index is in the set of its uid. */
  ghost predicate IndicesListed<I, V>(m: Maps<I, V>) {
    forall i :: i in m.indexToUid ==> m.indexToUid[i] in m.uidToIndices && i in m.uidToIndices[m.indexToUid[i]]
  }

  /** Every index of a uid leads back to it. */
  ghost predicate Owned<I, V>(m: Maps<I, V>, u: nat) {
    u in m.uidToIndices && u < m.nextUid && m.uidToIndices[u] != {}
    && forall i :: i in m.uidToIndices[u] ==> i in m.indexToUid && m.indexToUid[i] == u
  }

  ghost predicate UidsOwned<I, V>(m: Maps<I, V>) {
    forall u :: u in m.uidToIndices ==> Owned(m, u)
  }

  ghost predicate Agree<I, V>(m: Maps<I, V>) {
    IndicesListed(m) && UidsOwned(m) && m.uidToValue.Keys == m.uidToIndices.Keys
  }

  ghost function CellOf<I, V>(m: Maps<I, V>, u: nat): Cell<I, V>
    requires u in m.uidToIndices && u in m.uidToValue
  {
    Cell(m.uidToIndices[u], m.uidToValue[u])
  }

  /** What the three maps say together. */
  ghost function View<I, V>(m: Maps<I, V>): (cells: Cells<I, V>)
    requires Agree(m)
  {
    map i | i in m.indexToUid :: CellOf(m, m.indexToUid[i])
  }

  lemma ViewIsPartition<I, V>(m: Maps<I, V>)
    requires Agree(m)
    ensures Partition(View(m))
  {}

  function Allocated<I, V>(m: Maps<I, V>, index: I, value: V): Maps<I, V> {
    Maps(m.nextUid + 1, m.indexToUid[index := m.nextUid], m.uidToValue[m.nextUid := value],
         m.uidToIndices[m.nextUid := {index}])
  }

  lemma AllocateAgrees<I, V>(m: Maps<I, V>, index: I, value: V)
    requires Agree(m) && index !in m.indexToUid
    ensures Agree(Allocated(m, index, value))
  {
    var n := Allocated(m, index, value);
    forall u | u in n.uidToIndices ensures Owned(n, u) {
      if u != m.nextUid { assert Owned(m, u); }
    }
    forall i | i in n.indexToUid ensures n.indexToUid[i] in n.uidToIndices && i in n.uidToIndices[n.indexToUid[i]] {
      if i != index { assert Owned(m, m.indexToUid[i]); }
    }
  }

  lemma AllocateView<I, V>(m: Maps<I, V>, index: I, value: V)
    requires Agree(m) && index !in m.indexToUid && Agree(Allocated(m, index, value))
    ensures View(Allocated(m, index, value)) == Inserted(View(m), index, value)
  {
    hide UidsOwned;
    var n := Allocated(m, index, value);
    assert View(n).Keys == n.indexToUid.Keys;
    forall i | i in n.indexToUid ensures View(n)[i] == Inserted(View(m), index, value)[i] {
      if i != index { NotNext(m, i); }
    }
  }

  lemma NotNext<I, V>(m: Maps<I, V>, i: I)
    requires Agree(m) && i in m.indexToUid
    ensures m.indexToUid[i] < m.nextUid
  {
    assert Owned(m, m.indexToUid[i]);
  }

  /** The maps with other indices and another value for one uid, or without it. */
  function Changed<I, V>(m: Maps<I, V>, u: nat, members: set<I>, value: V): Maps<I, V>
    requires u in m.uidToIndices
  {
    Maps(m.nextUid, (m.indexToUid - m.uidToIndices[u]) + (map i | i in members :: u),
         if members == {} then m.uidToValue - {u} else m.uidToValue[u := value],
         if members == {} then m.uidToIndices - {u} else m.uidToIndices[u := members])
  }

  lemma ChangeAgrees<I, V>(m: Maps<I, V>, u: nat, members: set<I>, value: V)
    requires Agree(m) && u in m.uidToIndices
    requires forall i :: i in members && i in m.indexToUid ==> m.indexToUid[i] == u
    ensures Agree(Changed(m, u, members, value))
  {
    var n := Changed(m, u, members, value);
    assert Owned(m, u);
    forall i | i in n.indexToUid ensures n.indexToUid[i] in n.uidToIndices && i in n.uidToIndices[n.indexToUid[i]] {
      if i !in members { assert Owned(m, m.indexToUid[i]); }
    }
    forall w | w in n.uidToIndices ensures Owned(n, w) {
      if w != u { assert Owned(m, w); }
    }
  }

  lemma ChangeViewAt<I, V>(m: Maps<I, V>, u: nat, members: set<I>, value: V, i: I)
    requires Agree(m) && u in m.uidToIndices && Agree(Changed(m, u, members, value))
    requires i in Changed(m, u, members, value).indexToUid
    ensures View(Changed(m, u, members, value))[i]
            == if i in members then Cell(members, value) else View(m)[i]
  {
    hide Agree;
    var n := Changed(m, u, members, value);
    if i in members {
      assert n.indexToUid[i] == u;
    } else {
      Lookup(m, i);
      OtherCell(m, u, i);
    }
  }

  lemma OtherCell<I, V>(m: Maps<I, V>, u: nat, i: I)
    requires Agree(m) && u in m.uidToIndices && i in m.indexToUid && i !in m.uidToIndices[u]
    ensures m.indexToUid[i] != u
  {}

  lemma ChangeView<I, V>(m: Maps<I, V>, u: nat, members: set<I>, value: V)
    requires Agree(m) && u in m.uidToIndices && Agree(Changed(m, u, members, value))
    ensures View(Changed(m, u, members, value)) == Replaced(View(m), m.uidToIndices[u], Cell(members, value))
  {
    hide Agree, CellOf;
    var n := Changed(m, u, members, value);
    var r := Replaced(View(m), m.uidToIndices[u], Cell(members, value));
    assert View(n).Keys == r.Keys;
    forall i | i in n.indexToUid ensures View(n)[i] == r[i] {
      ChangeViewAt(m, u, members, value, i);
    }
  }

  // ----- laws -----

  /** What every operation keeps. */
  lemma PartitionKept<I, V>(cells: Cells<I, V>, part: set<I>, cell: Cell<I, V>)
    requires Partition(cells)
    requires part == {} || (exists i :: i in part && i in cells && cells[i].indices == part)
    requires forall i :: i in cell.indices && i in cells ==> i in part
    ensures Partition(Replaced(cells, part, cell))
  {}

  /** Erasing a bound index undoes the binding. */
  lemma BindErase<I, V>(cells: Cells<I, V>, existing: I, index: I)
    requires Partition(cells) && existing in cells && index !in cells
    ensures index in Bound(cells, existing, index)
    ensures Erased(Bound(cells, existing, index), index) == cells
  {
    var part := cells[existing].indices;
    assert part + {index} - {index} == part;
    assert forall i :: i in part ==> i in cells && cells[i] == cells[existing];
  }

  /** A value assigned through one index is seen through exactly the indices that share it. */
  lemma AssignSeen<I, V>(cells: Cells<I, V>, index: I, value: V, other: I)
    requires Partition(cells) && index in cells && other in cells
    ensures other in Assigned(cells, index, value)
    ensures Unfolded(Assigned(cells, index, value))[other]
            == if other in cells[index].indices then value else Unfolded(cells)[other]
  {}

  /** A bound index shares the value and the cell of the existing one; everything else stays. */
  lemma BoundSeen<I, V>(cells: Cells<I, V>, existing: I, index: I, other: I)
    requires Partition(cells) && existing in cells && index !in cells
    ensures other in Bound(cells, existing, index) <==> other in cells || other == index
    ensures other in cells ==>
              Bound(cells, existing, index)[other]
              == if other in cells[existing].indices then Cell(cells[other].indices + {index}, cells[other].value) else cells[other]
    ensures Bound(cells, existing, index)[index] == Cell(cells[existing].indices + {index}, cells[existing].value)
  {}

  /** An erased index is gone, from its cell as well; all others keep their values. */
  lemma ErasedSeen<I, V>(cells: Cells<I, V>, index: I, other: I)
    requires Partition(cells) && index in cells
    ensures other in Erased(cells, index) <==> other in cells && other != index
    ensures other in cells && other != index ==>
              Erased(cells, index)[other]
              == if other in cells[index].indices then Cell(cells[other].indices - {index}, cells[other].value) else cells[other]
  {}

  /** The index that is made unique keeps its value alone; those that shared it are gone. */
  lemma UniquefiedSeen<I, V>(cells: Cells<I, V>, index: I, other: I)
    requires Partition(cells) && index in cells
    ensures other in Uniquefied(cells, index) <==> other == index || (other in cells && other !in cells[index].indices)
    ensures Uniquefied(cells, index)[index] == Cell({index}, cells[index].value)
    ensures other in cells && other !in cells[index].indices ==> Uniquefied(cells, index)[other] == cells[other]
  {}

  // ----- the container -----

  class Multindex<I(==), V(==, 0)> {
    var nextUid: nat
    var indexToUid: map<I, nat>
    var uidToValue: map<nat, V>
    var uidToIndices: map<nat, set<I>>

    ghost function Fields(): Maps<I, V>
      reads this
    {
      Maps(nextUid, indexToUid, uidToValue, uidToIndices)
    }

    ghost predicate Valid()
      reads this
    {
      Agree(Fields())
    }

    /** The partition of the indices, labelled with their values. */
    ghost function Contents(): (cells: Cells<I, V>)
      reads this
      requires Valid()
      ensures Partition(cells)
    {
      ViewIsPartition(Fields());
      View(Fields())
    }

    constructor ()
      ensures Valid() && Contents() == map[] && Fields() == Maps(0, map[], map[], map[])
    {
      nextUid, indexToUid, uidToValue, uidToIndices := 0, map[], map[], map[];
    }

    /** Nothing happens for an index that is there already. */
    method Insert(index: I, value: V) returns (ok: bool)
      requires Valid()
      modifies this
      ensures Valid() && ok == (index !in old(Contents()))
      ensures Contents() == if ok then Inserted(old(Contents()), index, value) else old(Contents())
      ensures Fields() == if ok then Allocated(old(Fields()), index, value) else old(Fields())
    {
      hide Agree;
      if index in indexToUid {
        return false;
      }
      AllocateAgrees(Fields(), index, value);
      AllocateView(Fields(), index, value);
      var uid := nextUid;
      nextUid := nextUid + 1;
      uidToValue := uidToValue[uid := value];
      indexToUid := indexToUid[index := uid];
      uidToIndices := uidToIndices[uid := {index}];
      assert Fields() == Allocated(old(Fields()), index, value);
      ok := true;
    }

    method Bind(existing: I, index: I) returns (ok: bool)
      requires Valid()
      modifies this
      ensures Valid() && ok == (existing in old(Contents()) && index !in old(Contents()))
      ensures Contents() == if ok then Bound(old(Contents()), existing, index) else old(Contents())
    {
      hide Agree;
      if index in indexToUid || existing !in indexToUid {
        return false;
      }
      ghost var m := Fields();
      Lookup(m, existing);
      var uid := indexToUid[existing];
      indexToUid := indexToUid[index := uid];
      uidToIndices := uidToIndices[uid := uidToIndices[uid] + {index}];
      ghost var members := m.uidToIndices[uid] + {index};
      assert Fields() == Changed(m, uid, members, m.uidToValue[uid]);
      ChangeAgrees(m, uid, members, m.uidToValue[uid]);
      ChangeView(m, uid, members, m.uidToValue[uid]);
      ok := true;
    }

    method Find(index: I) returns (found: bool, value: V)
      requires Valid()
      ensures found == (index in Contents()) && (found ==> value == Contents()[index].value)
    {
      if index !in indexToUid {
        value := *;
        return false, value;
      }
      return true, uidToValue[indexToUid[index]];
    }

    /** With its last index a value is removed. */
    method Erase(index: I) returns (ok: bool)
      requires Valid()
      modifies this
      ensures Valid() && ok == (index in old(Contents()))
      ensures Contents() == if ok then Erased(old(Contents()), index) else old(Contents())
    {
      hide Agree;
      if index !in indexToUid {
        return false;
      }
      ghost var m := Fields();
      Lookup(m, index);
      var uid := indexToUid[index];
      indexToUid := indexToUid - {index};
      uidToIndices := uidToIndices[uid := uidToIndices[uid] - {index}];
      if uidToIndices[uid] == {} {
        uidToIndices := uidToIndices - {uid};
        uidToValue := uidToValue - {uid};
      }
      ghost var members := m.uidToIndices[uid] - {index};
      assert Fields() == Changed(m, uid, members, m.uidToValue[uid]);
      ChangeAgrees(m, uid, members, m.uidToValue[uid]);
      ChangeView(m, uid, members, m.uidToValue[uid]);
      ok := true;
    }

    /** The reference that the subscript operator returns, assigned to; an unknown index is added. */
    method Assign(index: I, value: V)
      requires Valid()
      modifies this
      ensures Valid()
      ensures Contents() == if index in old(Contents()) then Assigned(old(Contents()), index, value)
                            else Inserted(old(Contents()), index, value)
    {
      hide Agree;
      if index in indexToUid {
        ghost var m := Fields();
        Lookup(m, index);
        var uid := indexToUid[index];
        uidToValue := uidToValue[uid := value];
        assert Fields() == Changed(m, uid, m.uidToIndices[uid], value);
        ChangeAgrees(m, uid, m.uidToIndices[uid], value);
        ChangeView(m, uid, m.uidToIndices[uid], value);
      } else {
        var ok := Insert(index, value);
      }
    }

    method Uniquefy(index: I) returns (ok: bool)
      requires Valid()
      modifies this
      ensures Valid() && ok == (index in old(Contents()))
      ensures Contents() == if ok then Uniquefied(old(Contents()), index) else old(Contents())
    {
      hide Agree;
      if index !in indexToUid {
        return false;
      }
      ghost var m := Fields();
      Lookup(m, index);
      var uid := indexToUid[index];
      EraseIndices(uidToIndices[uid] - {index});
      uidToIndices := uidToIndices[uid := {index}];
      assert Fields() == Changed(m, uid, {index}, m.uidToValue[uid]);
      ChangeAgrees(m, uid, {index}, m.uidToValue[uid]);
      ChangeView(m, uid, {index}, m.uidToValue[uid]);
      ok := true;
    }

    /** A loop over indices that drops each of them. */
    method EraseIndices(indices: set<I>)
      modifies this`indexToUid
      ensures indexToUid == old(indexToUid) - indices
    {
      var rest := indices;
      while rest != {}
        invariant rest <= indices && indexToUid == old(indexToUid) - (indices - rest)
        decreases |rest|
      {
        var i :| i in rest;
        indexToUid := indexToUid - {i};
        rest := rest - {i};
      }
    }

    /** The lowest uid with this value, if there is one. */
    method FindValue(value: V) returns (found: bool, uid: nat)
      requires Valid()
      ensures found ==> OldestWith(Fields(), value, uid)
      ensures !found ==> forall u :: u in uidToValue ==> uidToValue[u] != value
    {
      forall u | u in uidToValue ensures u < nextUid {
        OwnIndex(Fields(), u);
      }
      hide Agree;
      uid := 0;
      while uid < nextUid
        invariant uid <= nextUid
        invariant forall w :: w in uidToValue && w < uid ==> uidToValue[w] != value
      {
        if uid in uidToValue && uidToValue[uid] == value {
          return true, uid;
        }
        uid := uid + 1;
      }
      found := false;
    }

    /** The oldest of the values equal to `value` goes with all its indices. */
    method EraseValue(value: V) returns (ok: bool, ghost uid: nat)
      requires Valid()
      modifies this
      ensures Valid()
      ensures ok == HasValue(old(Contents()), value)
      ensures !ok ==> Contents() == old(Contents())
      ensures ok ==> OldestWith(old(Fields()), value, uid) && uid in old(uidToIndices)
                     && Contents() == old(Contents()) - old(uidToIndices)[uid]
    {
      hide Agree, View, CellOf, Replaced, HasValue;
      ghost var m := Fields();
      var u;
      ok, u := FindValue(value);
      uid := u;
      if !ok {
        NoneWith(m, value);
        return;
      }
      OwnIndex(m, u);
      SomeWith(m, value, u);
      EraseIndices(uidToIndices[u]);
      uidToIndices := uidToIndices - {u};
      uidToValue := uidToValue - {u};
      assert Fields() == Changed(m, u, {}, value);
      ChangeAgrees(m, u, {}, value);
      ChangeView(m, u, {}, value);
      DropReplaced(View(m), m.uidToIndices[u], value);
    }

    /** The value of `index` is looked up, and the oldest value equal to it is erased: `index` goes
        with it exactly when its own value is that oldest one. */
    method EraseValueByIndex(index: I) returns (ok: bool, ghost uid: nat)
      requires Valid()
      modifies this
      ensures Valid() && ok == (index in old(Contents()))
      ensures !ok ==> Contents() == old(Contents())
      ensures ok ==> OldestWith(old(Fields()), old(Contents())[index].value, uid) && uid in old(uidToIndices)
                     && Contents() == old(Contents()) - old(uidToIndices)[uid]
      ensures ok ==> (index !in Contents() <==> OldestWith(old(Fields()), old(Contents())[index].value, old(indexToUid)[index]))
    {
      hide Agree, CellOf;
      uid := 0;
      if index !in indexToUid {
        return false, uid;
      }
      ghost var m := Fields();
      Lookup(m, index);
      var value := uidToValue[indexToUid[index]];
      assert Contents()[index].value == value;
      ok, uid := EraseValue(value);
      OldestUnique(m, value, uid, m.indexToUid[index]);
      InSet(m, index, uid);
    }

    method Clear()
      modifies this
      ensures Valid() && Contents() == map[]
    {
      indexToUid, uidToValue, uidToIndices := map[], map[], map[];
      nextUid := 0;
    }

    method Unfold() returns (result: map<I, V>)
      requires Valid()
      ensures result == Unfolded(Contents())
    {
      result := map[];
      var rest := indexToUid.Keys;
      while rest != {}
        invariant rest <= indexToUid.Keys
        invariant result.Keys == indexToUid.Keys - rest
        invariant forall i :: i in result ==> result[i] == uidToValue[indexToUid[i]]
        decreases |rest|
      {
        var i :| i in rest;
        result := result[i := uidToValue[indexToUid[i]]];
        rest := rest - {i};
      }
    }
  }

  /** Two equal values: erasing by the index of the newer one erases the older one. */
  method OlderErased<I, V(0)>(older: I, newer: I, value: V) returns (c: Multindex<I, V>)
    requires older != newer
    ensures fresh(c) && c.Valid() && c.Contents() == map[newer := Cell({newer}, value)]
  {
    hide Agree, View, CellOf;
    c := new Multindex();
    var ok := c.Insert(older, value);
    ok := c.Insert(newer, value);
    ghost var m := c.Fields();
    assert m == Maps(2, map[older := 0, newer := 1], map[0 := value, 1 := value], map[0 := {older}, 1 := {newer}]);
    assert c.Contents()[newer].value == value;
    ghost var uid;
    ok, uid := c.EraseValueByIndex(newer);
    assert OldestWith(m, value, 0);
    OldestUnique(m, value, 0, uid);
  }

  lemma Lookup<I, V>(m: Maps<I, V>, i: I)
    requires Agree(m) && i in m.indexToUid
    ensures var u := m.indexToUid[i];
            u in m.uidToIndices && u in m.uidToValue && i in m.uidToIndices[u]
            && (forall j :: j in m.uidToIndices[u] ==> j in m.indexToUid && m.indexToUid[j] == u)
            && View(m)[i] == Cell(m.uidToIndices[u], m.uidToValue[u])
  {
    assert Owned(m, m.indexToUid[i]);
  }

  /** The lowest uid whose value equals `value`. */
  ghost predicate OldestWith<I, V>(m: Maps<I, V>, value: V, uid: nat) {
    uid in m.uidToValue && m.uidToValue[uid] == value
    && forall w :: w in m.uidToValue && m.uidToValue[w] == value ==> uid <= w
  }

  lemma OldestUnique<I, V>(m: Maps<I, V>, value: V, u: nat, w: nat)
    requires OldestWith(m, value, u)
    ensures OldestWith(m, value, w) <==> u == w
  {}

  lemma SomeWith<I, V>(m: Maps<I, V>, value: V, u: nat)
    requires Agree(m) && u in m.uidToValue && m.uidToValue[u] == value
    ensures HasValue(View(m), value)
  {
    OwnIndex(m, u);
    var i :| i in m.indexToUid && m.indexToUid[i] == u;
    assert i in View(m) && View(m)[i].value == value;
  }

  lemma NoneWith<I, V>(m: Maps<I, V>, value: V)
    requires Agree(m) && forall u :: u in m.uidToValue ==> m.uidToValue[u] != value
    ensures !HasValue(View(m), value)
  {
    forall i | i in View(m) ensures View(m)[i].value != value {
      Lookup(m, i);
    }
  }

  lemma OwnIndex<I, V>(m: Maps<I, V>, u: nat)
    requires Agree(m) && u in m.uidToValue
    ensures u < m.nextUid && u in m.uidToIndices && exists i :: i in m.indexToUid && m.indexToUid[i] == u
  {
    assert Owned(m, u);
    var i :| i in m.uidToIndices[u];
    assert i in m.indexToUid && m.indexToUid[i] == u;
  }

  lemma DropReplaced<I, V>(cells: Cells<I, V>, part: set<I>, value: V)
    ensures Replaced(cells, part, Cell({}, value)) == cells - part
  {}

  lemma InSet<I, V>(m: Maps<I, V>, i: I, u: nat)
    requires Agree(m) && i in m.indexToUid && u in m.uidToIndices
    ensures i in m.uidToIndices[u] <==> m.indexToUid[i] == u
  {
    Lookup(m, i);
    assert Owned(m, u);
  }
}
