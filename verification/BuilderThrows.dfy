/** The value builder on a PVXS value of any type, not only of the value's own: exactly when it throws. */
module BuilderThrows {
  import opened Results
  import opened AnyValues
  import opened PvxsData
  import opened PvxsStore
  import opened Stacks
  import opened ValueBuilder

  /** The definition of the first member with this name; there is none for an unknown name. */
  function NamedDef(def: TypeDef, name: string, i: nat): TypeDef
    requires def.StructDef? ==> i <= |def.fields|
    decreases if def.StructDef? then |def.fields| - i else 0
  {
    if !def.StructDef? || i == |def.fields| then NoType
    else if def.fields[i].name == name then def.fields[i].def
    else NamedDef(def, name, i + 1)
  }

  /**
   The type can take the value: scalars and arrays of scalars need exactly their own type, structures may leave
   out members and order them in any way, and what is Empty goes everywhere.
   */
  ghost predicate Accepts(v: AnyValue, def: TypeDef)
    decreases v
  {
    match v
    case Empty => true
    case Scalar(code, _) => def == ScalarDef(KindOf(code))
    case Struct(_, ms) => forall i :: 0 <= i < |ms| ==> Accepts(ms[i].value, NamedDef(def, ms[i].name, 0))
    case Array(_, element, items) =>
      if def.ScalarArrayDef? then element.ScalarType? && KindOf(element.code) == def.kind
      else def.StructArrayDef? && forall i :: 0 <= i < |items| ==> Accepts(items[i], ElementDef(def))
  }

  /** The handle designates a slot of this type, or nothing. */
  ghost predicate HasSlot(store: Store, h: Handle, def: TypeDef) {
    if def.NoType? then Lookup(store, h).None?
    else Lookup(store, h).Some? && Complete(def) && HasShape(Lookup(store, h).value, def)
  }

  /** Nothing but the slot changed, and it keeps its type; without a slot nothing changed at all. */
  ghost predicate KeepsType(store: Store, store': Store, h: Handle, def: TypeDef) {
    HasSlot(store', h, def) && if def.NoType? then store' == store else OnlySlotChanged(store, store', h)
  }

  lemma {:induction false} WriteThrowsExactly(store: Store, h: Handle, v: AnyValue, def: TypeDef)
    requires WellFormed(v) && HasSlot(store, h, def)
    ensures Write(store, h, v).Ok? <==> Accepts(v, def)
    ensures Write(store, h, v).Ok? ==> KeepsType(store, Write(store, h, v).value, h, def)
    decreases v, 1
  {
    if !def.NoType? {
      PutSame(store[h.top], h.path);
    }
    match v
    case Empty =>
    case Scalar(code, data) =>
      if def == ScalarDef(KindOf(code)) {
        PutThenAt(store[h.top], h.path, ScalarCell(KindOf(code), data));
      }
    case Struct(_, ms) =>
      MembersThrowExactly(store, store, h, ms, 0, def);
    case Array(_, element, items) =>
      if def.ScalarArrayDef? {
        if element.ScalarType? && KindOf(element.code) == def.kind {
          PutThenAt(store[h.top], h.path, ArrayCell(def.kind, ItemData(items)));
        }
      } else {
        StructArrayThrowsExactly(store, h, v, def);
      }
  }

  lemma {:induction false} MembersThrowExactly(store0: Store, store: Store, h: Handle, ms: seq<Member>, i: nat, def: TypeDef)
    requires i <= |ms| && forall k :: 0 <= k < |ms| ==> WellFormed(ms[k].value)
    requires HasSlot(store0, h, def) && KeepsType(store0, store, h, def)
    ensures WriteMembers(store, h, ms, i).Ok? <==>
      forall k :: i <= k < |ms| ==> Accepts(ms[k].value, NamedDef(def, ms[k].name, 0))
    ensures WriteMembers(store, h, ms, i).Ok? ==> KeepsType(store0, WriteMembers(store, h, ms, i).value, h, def)
    decreases ms, |ms| - i
  {
    if i < |ms| {
      var child, childDef := Child(store, h, ms[i].name), NamedDef(def, ms[i].name, 0);
      NamedSlot(store, h, ms[i].name, def);
      WriteThrowsExactly(store, child, ms[i].value, childDef);
      if Write(store, child, ms[i].value).Ok? {
        var store' := Write(store, child, ms[i].value).value;
        if !childDef.NoType? {
          MemberKeepsType(store0, store, store', h, ms[i].name, def);
        }
        MembersThrowExactly(store0, store', h, ms, i + 1, def);
      }
    }
  }

  lemma {:induction false} NamedIsIndexed(fields: seq<CellField>, def: TypeDef, name: string, i: nat)
    requires def.StructDef? && i <= |fields| == |def.fields|
    requires forall k :: 0 <= k < |fields| ==> fields[k].name == def.fields[k].name
    ensures var k := FieldIndex(fields, name, i);
      NamedDef(def, name, i) == if k < |fields| then def.fields[k].def else NoType
    decreases |fields| - i
  {
    if i < |fields| && fields[i].name != name {
      NamedIsIndexed(fields, def, name, i + 1);
    }
  }

  /** The field handle of a member designates a slot of the member's type. */
  lemma {:induction false} NamedSlot(store: Store, h: Handle, name: string, def: TypeDef)
    requires HasSlot(store, h, def)
    ensures HasSlot(store, Child(store, h, name), NamedDef(def, name, 0))
  {
    if def.StructDef? {
      var c := Lookup(store, h).value;
      NamedIsIndexed(c.fields, def, name, 0);
      var k := FieldIndex(c.fields, name, 0);
      if k < |c.fields| {
        FieldStep(store[h.top], h.path, k);
        assert HasShape(c.fields[k].cell, def.fields[k].def) && Complete(def.fields[k].def);
      }
    }
  }

  lemma {:induction false} MemberKeepsType(
    store0: Store, store: Store, store': Store, h: Handle, name: string, def: TypeDef)
    requires HasSlot(store0, h, def) && KeepsType(store0, store, h, def)
    requires !NamedDef(def, name, 0).NoType?
    requires KeepsType(store, store', Child(store, h, name), NamedDef(def, name, 0))
    ensures KeepsType(store0, store', h, def)
  {
    var c := Lookup(store, h).value;
    NamedIsIndexed(c.fields, def, name, 0);
    var k := FieldIndex(c.fields, name, 0);
    var child := At(h.top, h.path + [k]);
    assert Child(store, h, name) == child;
    var x := Lookup(store', child).value;
    var c' := c.(fields := c.fields[k := c.fields[k].(cell := x)]);
    var b0, b := store0[h.top], store[h.top];
    PutField(b, h.path, k, x);
    assert store'[h.top] == Put(b, h.path, c');
    PutThenAt(b, h.path, c');
    PutTwice(b0, h.path, c, c');
    assert Lookup(store', h) == Some(c');
    FieldKeepsShape(c, c', k, def);
  }

  lemma {:induction false} FieldKeepsShape(c: Cell, c': Cell, k: nat, def: TypeDef)
    requires HasShape(c, def) && c.StructCell? && c'.StructCell? && def.StructDef? && k < |c.fields| == |c'.fields|
    requires c'.id == c.id && c'.fields[k].name == c.fields[k].name && HasShape(c'.fields[k].cell, def.fields[k].def)
    requires forall j :: 0 <= j < |c.fields| && j != k ==> c'.fields[j] == c.fields[j]
    ensures HasShape(c', def)
  {
    forall j | 0 <= j < |def.fields|
      ensures c'.fields[j].name == def.fields[j].name && HasShape(c'.fields[j].cell, def.fields[j].def)
    {
      assert c.fields[j].name == def.fields[j].name && HasShape(c.fields[j].cell, def.fields[j].def);
    }
  }

  /** The new elements of the array have their type. */
  ghost predicate NewBlocksHave(store0: Store, store: Store, n: nat, def: TypeDef) {
    && Complete(def) && |store0| + n <= |store| && store0 <= store
    && forall j :: |store0| <= j < |store0| + n ==> HasShape(store[j], def)
  }

  lemma {:induction false} ItemsThrowExactly(
    store0: Store, store: Store, slots: seq<Handle>, items: seq<AnyValue>, i: nat, def: TypeDef)
    requires i <= |items| == |slots| && slots == NewBlocks(store0, |slots|)
    requires forall k :: 0 <= k < |items| ==> WellFormed(items[k])
    requires NewBlocksHave(store0, store, |items|, def)
    ensures WriteItems(store, slots, items, i).Ok? <==> forall k :: i <= k < |items| ==> Accepts(items[k], def)
    ensures WriteItems(store, slots, items, i).Ok? ==>
      NewBlocksHave(store0, WriteItems(store, slots, items, i).value, |items|, def)
    decreases items, |items| - i
  {
    if i < |items| {
      var slot := At(|store0| + i, []);
      assert slots[i] == slot && Lookup(store, slot) == Some(store[slot.top]);
      WriteThrowsExactly(store, slot, items[i], def);
      if Write(store, slot, items[i]).Ok? {
        ItemsThrowExactly(store0, Write(store, slot, items[i]).value, slots, items, i + 1, def);
      }
    }
  }

  lemma {:induction false} StructArrayThrowsExactly(store: Store, h: Handle, v: AnyValue, def: TypeDef)
    requires v.Array? && WellFormed(v) && HasSlot(store, h, def) && !def.ScalarArrayDef?
    ensures Write(store, h, v).Ok? <==> Accepts(v, def)
    ensures Write(store, h, v).Ok? ==> KeepsType(store, Write(store, h, v).value, h, def)
    decreases v, 0
  {
    if def.StructArrayDef? {
      var n := |v.items|;
      var slots := NewBlocks(store, n);
      var extended := AllocMembers(store, h, n).value;
      CreatedHasShape(ElementDef(def));
      assert NewBlocksHave(store, extended, n, ElementDef(def));
      ItemsThrowExactly(store, extended, slots, v.items, 0, ElementDef(def));
      var filled := WriteItems(extended, slots, v.items, 0);
      if filled.Ok? {
        PutThenAt(store[h.top], h.path, Lookup(store, h).value.(elems := slots));
      }
    }
  }

  /**
   The builder throws if and only if the type cannot take the value, from any stack whose current node
   designates a slot of the type, or nothing. Otherwise the stack is restored and the slot keeps its type.
   */
  lemma {:induction false} VisitThrowsExactly(s: State, v: AnyValue, def: TypeDef)
    requires WellFormed(v)
    requires Current(s).Ok? && !Top(s.nodes).ScalarArrayNode? && HasSlot(s.store, Current(s).value, def)
    ensures var r := Run(s, ValueEvents(v));
      && (r.Ok? <==> Accepts(v, def))
      && (r.Ok? ==> r.value.nodes == s.nodes && KeepsType(s.store, r.value.store, Current(s).value, def))
  {
    MachineWrites(v, s);
    WriteThrowsExactly(s.store, Current(s).value, v, def);
  }
}
