/**
 Storage behind pvxs::Value. A pvxs::Value is a handle: copies of it share the storage they point to.

 All fields of one structure live in one top-level block, and a handle is a block and a path in it.
 The elements of an array of structures are blocks of their own; the array holds handles to them.
 */
module PvxsStore {
  import opened Results
  import opened AnyValues
  import opened PvxsData

  datatype Handle = NullHandle | At(top: nat, path: seq<nat>)

  datatype Cell =
    | ScalarCell(kind: Kind, data: Data)
    | ArrayCell(kind: Kind, items: seq<Data>)
    | StructCell(id: string, fields: seq<CellField>)
    | StructArrayCell(id: string, defs: seq<FieldDef>, elems: seq<Handle>)

  datatype CellField = CellField(name: string, cell: Cell)

  type Store = seq<Cell>

  // ---------------------------------------------------------------------------------------------
  // Paths inside a block
  // ---------------------------------------------------------------------------------------------

  function CellAt(c: Cell, path: seq<nat>): Option<Cell>
    decreases path
  {
    if path == [] then Some(c)
    else if c.StructCell? && path[0] < |c.fields| then CellAt(c.fields[path[0]].cell, path[1..])
    else None
  }

  function Put(c: Cell, path: seq<nat>, x: Cell): Cell
    requires CellAt(c, path).Some?
    decreases path
  {
    if path == [] then x
    else
      var f := c.fields[path[0]];
      c.(fields := c.fields[path[0] := f.(cell := Put(f.cell, path[1..], x))])
  }

  lemma {:induction false} PutThenAt(c: Cell, path: seq<nat>, x: Cell)
    requires CellAt(c, path).Some?
    ensures CellAt(Put(c, path, x), path) == Some(x)
    decreases path
  {
    if path != [] {
      PutThenAt(c.fields[path[0]].cell, path[1..], x);
    }
  }

  lemma {:induction false} PutTwice(c: Cell, path: seq<nat>, x: Cell, y: Cell)
    requires CellAt(c, path).Some? && CellAt(Put(c, path, x), path).Some?
    ensures Put(Put(c, path, x), path, y) == Put(c, path, y)
    decreases path
  {
    if path != [] {
      var i := path[0];
      var f := c.fields[i];
      var inner := Put(f.cell, path[1..], x);
      PutTwice(f.cell, path[1..], x, y);
      assert Put(c, path, x).fields[i].cell == inner;
      assert c.fields[i := f.(cell := inner)][i := f.(cell := Put(inner, path[1..], y))]
          == c.fields[i := f.(cell := Put(f.cell, path[1..], y))];
    }
  }

  lemma {:induction false} PutSame(c: Cell, path: seq<nat>)
    requires CellAt(c, path).Some?
    ensures Put(c, path, CellAt(c, path).value) == c
    decreases path
  {
    if path != [] {
      var f := c.fields[path[0]];
      PutSame(f.cell, path[1..]);
      assert c.fields[path[0] := f] == c.fields;
    }
  }

  /** A field of the structure at `path` is one step further. */
  lemma {:induction false} FieldStep(c: Cell, path: seq<nat>, i: nat)
    requires CellAt(c, path).Some? && CellAt(c, path).value.StructCell? && i < |CellAt(c, path).value.fields|
    ensures CellAt(c, path + [i]) == Some(CellAt(c, path).value.fields[i].cell)
    decreases path
  {
    if path == [] {
      assert [i][1..] == [];
    } else {
      assert (path + [i])[1..] == path[1..] + [i];
      FieldStep(c.fields[path[0]].cell, path[1..], i);
    }
  }

  /** Writing a field is writing the structure with that field replaced. */
  lemma {:induction false} PutField(c: Cell, path: seq<nat>, i: nat, x: Cell)
    requires CellAt(c, path).Some? && CellAt(c, path).value.StructCell? && i < |CellAt(c, path).value.fields|
    ensures CellAt(c, path + [i]).Some?
    ensures var s := CellAt(c, path).value;
      Put(c, path + [i], x) == Put(c, path, s.(fields := s.fields[i := s.fields[i].(cell := x)]))
    decreases path
  {
    FieldStep(c, path, i);
    if path == [] {
      assert [i][1..] == [];
    } else {
      assert (path + [i])[1..] == path[1..] + [i];
      PutField(c.fields[path[0]].cell, path[1..], i, x);
    }
  }

  // ---------------------------------------------------------------------------------------------
  // Handles
  // ---------------------------------------------------------------------------------------------

  function Lookup(store: Store, h: Handle): Option<Cell> {
    if h.At? && h.top < |store| then CellAt(store[h.top], h.path) else None
  }

  function PutAt(store: Store, h: Handle, x: Cell): Store
    requires Lookup(store, h).Some?
  {
    store[h.top := Put(store[h.top], h.path, x)]
  }

  function CodeAt(store: Store, h: Handle): TypeCode {
    match Lookup(store, h)
    case None => NullCode
    case Some(ScalarCell(k, _)) => Base(k)
    case Some(ArrayCell(k, _)) => ArrayOf(k)
    case Some(StructCell(_, _)) => StructCode
    case Some(StructArrayCell(_, _, _)) => StructACode
  }

  /** Position of the first field with this name, or the number of fields. */
  function FieldIndex(fields: seq<CellField>, name: string, i: nat): (k: nat)
    requires i <= |fields|
    ensures i <= k <= |fields|
    ensures forall j :: i <= j < k ==> fields[j].name != name
    ensures k < |fields| ==> fields[k].name == name
    decreases |fields| - i
  {
    if i == |fields| || fields[i].name == name then i else FieldIndex(fields, name, i + 1)
  }

  /** operator[] with a member name: the field's handle, or a null value. */
  function Child(store: Store, h: Handle, name: string): Handle {
    match Lookup(store, h)
    case Some(StructCell(_, fields)) =>
      var k := FieldIndex(fields, name, 0);
      if k < |fields| then At(h.top, h.path + [k]) else NullHandle
    case _ => NullHandle
  }

  // ---------------------------------------------------------------------------------------------
  // Creation
  // ---------------------------------------------------------------------------------------------

  /** TypeDef::create(). A member without a type cannot occur: appending one throws. */
  function Create(def: TypeDef): Cell
    requires !def.NoType?
  {
    match def
    case ScalarDef(k) => ScalarCell(k, DefaultOf(k))
    case ScalarArrayDef(k) => ArrayCell(k, [])
    case StructDef(id, fields) =>
      StructCell(id, seq(|fields|, i requires 0 <= i < |fields| =>
        CellField(fields[i].name, if fields[i].def.NoType? then ScalarCell(Kind.Bool, Number(0)) else Create(fields[i].def))))
    case StructArrayDef(id, fields) => StructArrayCell(id, fields, [])
  }

  /** The slot has the type, whatever it contains. */
  ghost predicate HasShape(c: Cell, def: TypeDef) {
    match def
    case NoType => false
    case ScalarDef(k) => c.ScalarCell? && c.kind == k
    case ScalarArrayDef(k) => c.ArrayCell? && c.kind == k
    case StructDef(id, defs) =>
      && c.StructCell? && c.id == id && |c.fields| == |defs|
      && forall i :: 0 <= i < |defs| ==> c.fields[i].name == defs[i].name && HasShape(c.fields[i].cell, defs[i].def)
    case StructArrayDef(id, defs) => c.StructArrayCell? && c.id == id && c.defs == defs
  }

  lemma {:induction false} CreatedHasShape(def: TypeDef)
    requires Complete(def)
    ensures HasShape(Create(def), def)
  {
    if def.StructDef? {
      forall i | 0 <= i < |def.fields| ensures HasShape(Create(def).fields[i].cell, def.fields[i].def) {
        CreatedHasShape(def.fields[i].def);
      }
    }
  }

  // ---------------------------------------------------------------------------------------------
  // Denotation
  // ---------------------------------------------------------------------------------------------

  /** Block handle into the part of the store from `lo` on. */
  predicate IsBlock(store: Store, lo: nat, h: Handle) {
    h.At? && h.path == [] && lo <= h.top < |store|
  }

  /** The cell denotes the tree, and reaches no block below `lo`. */
  ghost predicate Denotes(store: Store, lo: nat, c: Cell, tree: Tree)
    decreases tree
  {
    match tree
    case Leaf(k, d) => c == ScalarCell(k, d)
    case Leaves(k, ds) => c == ArrayCell(k, ds)
    case Node(id, fields) =>
      && c.StructCell? && c.id == id && |c.fields| == |fields|
      && forall i :: 0 <= i < |fields| ==>
        c.fields[i].name == fields[i].name && Denotes(store, lo, c.fields[i].cell, fields[i].tree)
    case Nodes(elems) =>
      && c.StructArrayCell? && |c.elems| == |elems|
      && forall i :: 0 <= i < |elems| ==>
        && IsBlock(store, lo, c.elems[i])
        && Denotes(store, c.elems[i].top + 1, store[c.elems[i].top], elems[i])
    case _ => false
  }

  /** A new slot denotes the default of its definition. */
  lemma {:induction false} CreatedDenotesDefault(store: Store, lo: nat, def: TypeDef)
    requires Complete(def)
    ensures Denotes(store, lo, Create(def), DefaultTree(def))
    decreases def
  {
    if def.StructDef? {
      forall i | 0 <= i < |def.fields|
        ensures Denotes(store, lo, Create(def).fields[i].cell, DefaultTree(def).fields[i].tree)
      {
        CreatedDenotesDefault(store, lo, def.fields[i].def);
      }
    }
  }

  /** Blocks below `lo` do not matter, and more blocks may be added. */
  lemma {:induction false} DenotesFrame(s: Store, s': Store, lo: nat, lo': nat, c: Cell, tree: Tree)
    requires Denotes(s, lo, c, tree)
    requires lo' <= lo && |s| <= |s'|
    requires forall j :: lo <= j < |s| ==> s'[j] == s[j]
    ensures Denotes(s', lo', c, tree)
    decreases tree
  {
    match tree
    case Leaf(_, _) =>
    case Leaves(_, _) =>
    case Node(_, fields) =>
      forall i | 0 <= i < |fields| ensures Denotes(s', lo', c.fields[i].cell, fields[i].tree) {
        DenotesFrame(s, s', lo, lo', c.fields[i].cell, fields[i].tree);
      }
    case Nodes(elems) =>
      forall i | 0 <= i < |elems| ensures Denotes(s', c.elems[i].top + 1, s'[c.elems[i].top], elems[i]) {
        DenotesFrame(s, s', c.elems[i].top + 1, c.elems[i].top + 1, s[c.elems[i].top], elems[i]);
      }
  }

  /** Reading a value in full. */
  function Snapshot(store: Store, lo: nat, c: Cell): Tree
    requires lo <= |store|
    decreases |store| - lo, c
  {
    match c
    case ScalarCell(k, d) => Leaf(k, d)
    case ArrayCell(k, ds) => Leaves(k, ds)
    case StructCell(id, fields) =>
      Node(id, seq(|fields|, i requires 0 <= i < |fields| => Field(fields[i].name, Snapshot(store, lo, fields[i].cell))))
    case StructArrayCell(_, _, elems) =>
      Nodes(seq(|elems|, i requires 0 <= i < |elems| =>
        if IsBlock(store, lo, elems[i]) then Snapshot(store, elems[i].top + 1, store[elems[i].top]) else Null))
  }

  function Read(store: Store, h: Handle): Tree {
    match Lookup(store, h)
    case None => Null
    case Some(c) => Snapshot(store, h.top + 1, c)
  }

  lemma {:induction false} SnapshotIsDenoted(store: Store, lo: nat, c: Cell, tree: Tree)
    requires lo <= |store| && Denotes(store, lo, c, tree)
    ensures Snapshot(store, lo, c) == tree
    decreases tree
  {
    match tree
    case Leaf(_, _) =>
    case Leaves(_, _) =>
    case Node(_, fields) =>
      forall i | 0 <= i < |fields| ensures Snapshot(store, lo, c.fields[i].cell) == fields[i].tree {
        SnapshotIsDenoted(store, lo, c.fields[i].cell, fields[i].tree);
      }
      assert Snapshot(store, lo, c).fields == fields;
    case Nodes(elems) =>
      forall i | 0 <= i < |elems| ensures Snapshot(store, lo, c).elems[i] == elems[i] {
        SnapshotIsDenoted(store, c.elems[i].top + 1, store[c.elems[i].top], elems[i]);
      }
      assert Snapshot(store, lo, c).elems == elems;
  }
}
