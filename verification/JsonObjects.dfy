/**
 JSON objects as the code holds them: dictionaries that refer to dictionaries and are changed in place.

 A reference names a dictionary; the store says what each one holds now. `Doc(store, a, f)` says that
 the dictionary `a` is the object `f`: its nested dictionaries are the nested objects, none of them
 reached twice.
 */
module JsonObjects {
  import opened Wrappers
  import opened PropertyFold
  import opened JsonTemplate

  type Ref = nat

  datatype Slot = Leaf(json: Json) | Dict(ref: Ref)

  /** The entries of one dictionary, in insertion order. */
  datatype Slots = NoSlots | More(key: string, slot: Slot, rest: Slots)

  /** `next` and above are not in use. */
  datatype Store = Store(cells: map<Ref, Slots>, next: Ref)

  ghost predicate Sound(h: Store) {
    forall r :: r in h.cells ==> r < h.next
  }

  function GetSlot(s: Slots, key: string): Option<Slot> {
    match s
    case NoSlots => None
    case More(k, v, rest) => if k == key then Some(v) else GetSlot(rest, key)
  }

  function PutSlot(s: Slots, key: string, slot: Slot): Slots {
    match s
    case NoSlots => More(key, slot, NoSlots)
    case More(k, v, rest) => if k == key then More(k, slot, rest) else More(k, v, PutSlot(rest, key, slot))
  }

  // ------------------------------------------------------------ what a dictionary is

  /** The dictionaries below the entries `s` of the object `f`. */
  ghost function Foot(h: Store, s: Slots, f: Fields): set<Ref>
    decreases f
  {
    if s.More? && f.Field? then Own(h, s.slot, f.value) + Foot(h, s.rest, f.rest) else {}
  }

  ghost function Own(h: Store, slot: Slot, v: Json): set<Ref>
    decreases v
  {
    if v.Obj? && slot.Dict? && slot.ref in h.cells then {slot.ref} + Foot(h, h.cells[slot.ref], v.fields) else {}
  }

  ghost predicate Tree(h: Store, s: Slots, f: Fields)
    decreases f
  {
    match f
    case Empty => s.NoSlots?
    case Field(k, v, rest) =>
      && s.More? && s.key == k
      && IsValue(h, s.slot, v) && Tree(h, s.rest, rest)
      && Own(h, s.slot, v) !! Foot(h, s.rest, rest)
  }

  /** The slot holds the value `v`. */
  ghost predicate IsValue(h: Store, slot: Slot, v: Json)
    decreases v
  {
    match v
    case Obj(inner) =>
      && slot.Dict? && slot.ref in h.cells
      && Tree(h, h.cells[slot.ref], inner)
      && slot.ref !in Foot(h, h.cells[slot.ref], inner)
    case _ => slot == Leaf(v)
  }

  ghost predicate Doc(h: Store, a: Ref, f: Fields) {
    IsValue(h, Dict(a), Obj(f))
  }

  ghost function DocCells(h: Store, a: Ref, f: Fields): set<Ref> {
    Own(h, Dict(a), Obj(f))
  }

  /** The dictionaries `refs` hold in `g` what they hold in `h`. */
  ghost predicate SameOn(h: Store, g: Store, refs: set<Ref>) {
    forall r :: r in refs && r in h.cells ==> r in g.cells && g.cells[r] == h.cells[r]
  }

  lemma {:induction false} TreeFrame(h: Store, g: Store, s: Slots, f: Fields)
    requires Tree(h, s, f) && SameOn(h, g, Foot(h, s, f))
    ensures Tree(g, s, f) && Foot(g, s, f) == Foot(h, s, f)
    decreases f
  {
    if f.Field? {
      ValueFrame(h, g, s.slot, f.value);
      TreeFrame(h, g, s.rest, f.rest);
    }
  }

  /** A value is what it was as long as its own dictionaries are. */
  lemma ValueFrame(h: Store, g: Store, slot: Slot, v: Json)
    requires IsValue(h, slot, v) && SameOn(h, g, Own(h, slot, v))
    ensures IsValue(g, slot, v) && Own(g, slot, v) == Own(h, slot, v)
    decreases v
  {
    if v.Obj? {
      assert slot.ref in Own(h, slot, v);
      TreeFrame(h, g, h.cells[slot.ref], v.fields);
    }
  }

  /** A dictionary is one object at a time. */
  lemma DocIsOneObject(h: Store, a: Ref, f: Fields, g: Fields)
    requires Doc(h, a, f) && Doc(h, a, g)
    ensures f == g
  {
    TreeIsOne(h, h.cells[a], f, g);
  }

  lemma {:induction false} TreeIsOne(h: Store, s: Slots, f: Fields, g: Fields)
    requires Tree(h, s, f) && Tree(h, s, g)
    ensures f == g
    decreases f
  {
    if f.Field? {
      if f.value.Obj? {
        TreeIsOne(h, h.cells[s.slot.ref], f.value.fields, g.value.fields);
      }
      TreeIsOne(h, s.rest, f.rest, g.rest);
    }
  }

  lemma {:induction false} FootInUse(h: Store, s: Slots, f: Fields)
    ensures Foot(h, s, f) <= h.cells.Keys
    decreases f
  {
    if s.More? && f.Field? {
      OwnInUse(h, s.slot, f.value);
      FootInUse(h, s.rest, f.rest);
    }
  }

  lemma OwnInUse(h: Store, slot: Slot, v: Json)
    ensures Own(h, slot, v) <= h.cells.Keys
    decreases v
  {
    if v.Obj? && slot.Dict? && slot.ref in h.cells {
      FootInUse(h, h.cells[slot.ref], v.fields);
    }
  }

  // ------------------------------------------------------------------- one assignment

  /** The dictionaries below all entries but the one under `key`. */
  ghost function FootBut(h: Store, s: Slots, f: Fields, key: string): set<Ref> {
    if s.More? && f.Field? then
      if s.key == key then Foot(h, s.rest, f.rest)
      else Own(h, s.slot, f.value) + FootBut(h, s.rest, f.rest, key)
    else {}
  }

  /** The entry under a key holds the field's value, and shares nothing with the other entries. */
  lemma {:induction false} SlotOfField(h: Store, s: Slots, f: Fields, key: string)
    requires Tree(h, s, f)
    ensures FootBut(h, s, f, key) <= Foot(h, s, f)
    ensures GetSlot(s, key).Some? <==> Get(f, key).Some?
    ensures GetSlot(s, key).Some? ==>
              && IsValue(h, GetSlot(s, key).value, Get(f, key).value)
              && Own(h, GetSlot(s, key).value, Get(f, key).value) !! FootBut(h, s, f, key)
              && Own(h, GetSlot(s, key).value, Get(f, key).value) <= Foot(h, s, f)
    decreases f
  {
    if f.Field? && f.key != key {
      SlotOfField(h, s.rest, f.rest, key);
    }
  }

  /** Assigning a value of its own to a key, the other entries unchanged. */
  lemma {:induction false} PutHolds(h: Store, g: Store, s: Slots, f: Fields, key: string, slot: Slot, v: Json)
    requires Tree(h, s, f) && SameOn(h, g, FootBut(h, s, f, key))
    requires IsValue(g, slot, v) && Own(g, slot, v) !! FootBut(h, s, f, key)
    ensures Tree(g, PutSlot(s, key, slot), Put(f, key, v))
    ensures Foot(g, PutSlot(s, key, slot), Put(f, key, v)) == FootBut(h, s, f, key) + Own(g, slot, v)
    decreases f
  {
    if f.Field? {
      if f.key == key {
        TreeFrame(h, g, s.rest, f.rest);
      } else {
        SlotOfField(h, s.rest, f.rest, key);
        ValueFrame(h, g, s.slot, f.value);
        PutHolds(h, g, s.rest, f.rest, key, slot, v);
      }
    }
  }

  lemma {:induction false} PutSame(s: Slots, key: string)
    requires GetSlot(s, key).Some?
    ensures PutSlot(s, key, GetSlot(s, key).value) == s
    decreases s
  {
    if s.key != key {
      PutSame(s.rest, key);
    }
  }

  // -------------------------------------------------------------------- a nested write

  function Assign(h: Store, a: Ref, key: string, slot: Slot): Store
    requires a in h.cells
  {
    h.(cells := h.cells[a := PutSlot(h.cells[a], key, slot)])
  }

  function Fresh(h: Store): Store {
    Store(h.cells[h.next := NoSlots], h.next + 1)
  }

  function Follows(h: Store, a: Ref, key: string): bool
    requires a in h.cells
  {
    var v := GetSlot(h.cells[a], key);
    v.Some? && v.value.Dict?
  }

  /** One turn of the cursor: the store with a dictionary under `key`, and that dictionary. */
  function Descend(h: Store, a: Ref, key: string): (Store, Ref)
    requires a in h.cells
  {
    if Follows(h, a, key) then (h, GetSlot(h.cells[a], key).value.ref)
    else (Assign(Fresh(h), a, key, Dict(h.next)), h.next)
  }

  /** The cursor moved down the path, then the one assignment. */
  function WriteAt(h: Store, a: Ref, path: Path, slot: Slot): Store
    decreases |path|
  {
    if path == [] || a !in h.cells then h
    else if |path| == 1 then Assign(h, a, path[0], slot)
    else WriteAt(Descend(h, a, path[0]).0, Descend(h, a, path[0]).1, path[1..], slot)
  }

  /** What a write may touch: the document's own dictionaries and new ones. */
  ghost predicate Within(h: Store, g: Store, own: set<Ref>) {
    && Sound(g) && h.next <= g.next
    && (forall r :: r in h.cells && r !in own ==> r in g.cells && g.cells[r] == h.cells[r])
  }

  ghost predicate Grown(h: Store, now: set<Ref>, before: set<Ref>) {
    forall r :: r in now ==> r in before || r >= h.next
  }

  /** What the write of `slot`, holding `v`, at `path` makes of the document `f` at `a`. */
  ghost predicate WriteHolds(h: Store, a: Ref, f: Fields, path: Path, slot: Slot, v: Json) {
    var g := WriteAt(h, a, path, slot);
    && Doc(g, a, SetNested(f, path, v))
    && Within(h, g, DocCells(h, a, f))
    && Grown(h, DocCells(g, a, SetNested(f, path, v)), DocCells(h, a, f) + Own(h, slot, v))
  }

  ghost predicate Writable(h: Store, a: Ref, f: Fields, slot: Slot, v: Json) {
    Sound(h) && Doc(h, a, f) && IsValue(h, slot, v) && DocCells(h, a, f) !! Own(h, slot, v)
  }

  /** The in-place write is the write on values, whatever the shapes met on the way. */
  lemma {:induction false} WriteAtHolds(h: Store, a: Ref, f: Fields, path: Path, slot: Slot, v: Json)
    requires Writable(h, a, f, slot, v)
    ensures WriteHolds(h, a, f, path, slot, v)
    decreases |path|
  {
    if |path| == 1 {
      LastWrite(h, a, f, path, slot, v);
    } else if |path| > 1 {
      SlotOfField(h, h.cells[a], f, path[0]);
      var next := Descend(h, a, path[0]);
      var child := Child(f, path[0]);
      if Follows(h, a, path[0]) {
        WriteAtHolds(h, next.1, child, path[1..], slot, v);
        WriteInside(h, a, f, path, slot, v);
      } else {
        NewChild(h, a, f, path[0], slot, v);
        WriteAtHolds(next.0, next.1, child, path[1..], slot, v);
        WriteInNew(h, a, f, path, slot, v);
      }
    }
  }

  lemma LastWrite(h: Store, a: Ref, f: Fields, path: Path, slot: Slot, v: Json)
    requires Writable(h, a, f, slot, v) && |path| == 1
    ensures WriteHolds(h, a, f, path, slot, v)
  {
    var g := Assign(h, a, path[0], slot);
    SlotOfField(h, h.cells[a], f, path[0]);
    ValueFrame(h, g, slot, v);
    PutHolds(h, g, h.cells[a], f, path[0], slot, v);
  }

  lemma WriteInside(h: Store, a: Ref, f: Fields, path: Path, slot: Slot, v: Json)
    requires Writable(h, a, f, slot, v) && |path| > 1 && Follows(h, a, path[0])
    requires WriteHolds(h, Descend(h, a, path[0]).1, Child(f, path[0]), path[1..], slot, v)
    ensures WriteHolds(h, a, f, path, slot, v)
  {
    var s, key := h.cells[a], path[0];
    var r, child := Descend(h, a, key).1, Child(f, key);
    var g := WriteAt(h, r, path[1..], slot);
    SlotOfField(h, s, f, key);
    FootInUse(h, s, f);
    PutSame(s, key);
    PutHolds(h, g, s, f, key, Dict(r), Obj(SetNested(child, path[1..], v)));
  }

  lemma NewChild(h: Store, a: Ref, f: Fields, key: string, slot: Slot, v: Json)
    requires Writable(h, a, f, slot, v) && !Follows(h, a, key)
    ensures Child(f, key) == Empty
    ensures Writable(Descend(h, a, key).0, h.next, Empty, slot, v)
    ensures Own(Descend(h, a, key).0, slot, v) == Own(h, slot, v)
  {
    var g := Descend(h, a, key).0;
    SlotOfField(h, h.cells[a], f, key);
    OwnInUse(h, slot, v);
    ValueFrame(h, g, slot, v);
  }

  lemma WriteInNew(h: Store, a: Ref, f: Fields, path: Path, slot: Slot, v: Json)
    requires Writable(h, a, f, slot, v) && |path| > 1 && !Follows(h, a, path[0])
    requires Child(f, path[0]) == Empty
    requires Own(Descend(h, a, path[0]).0, slot, v) == Own(h, slot, v)
    requires WriteHolds(Descend(h, a, path[0]).0, h.next, Empty, path[1..], slot, v)
    ensures WriteHolds(h, a, f, path, slot, v)
  {
    var s, key := h.cells[a], path[0];
    var h1 := Descend(h, a, key).0;
    var g := WriteAt(h1, h.next, path[1..], slot);
    SlotOfField(h, s, f, key);
    FootInUse(h, s, f);
    PutHolds(h, g, s, f, key, Dict(h.next), Obj(SetNested(Empty, path[1..], v)));
  }

  lemma DescendKeepsWritable(h: Store, a: Ref, f: Fields, key: string, slot: Slot, v: Json)
    requires Writable(h, a, f, slot, v)
    ensures Writable(Descend(h, a, key).0, Descend(h, a, key).1, Child(f, key), slot, v)
  {
    if Follows(h, a, key) {
      SlotOfField(h, h.cells[a], f, key);
    } else {
      NewChild(h, a, f, key, slot, v);
    }
  }

  // --------------------------------------------------------------------------- in place

  class Objects {
    var store: Store

    constructor ()
      ensures Sound(store) && store.cells == map[]
    {
      store := Store(map[], 0);
    }

    /** `{}`. */
    method NewDict() returns (a: Ref)
      requires Sound(store)
      modifies this
      ensures Sound(store) && store == Fresh(old(store)) && a == old(store).next
      ensures Doc(store, a, Empty) && DocCells(store, a, Empty) == {a}
    {
      a := store.next;
      store := Fresh(store);
    }

    /**
     The cursor loop. `f` is the object at `target` and `v` the value in `slot`, sharing no dictionary
     with it. Afterwards the object at `target` is `f` with `v` at `path`, and every dictionary outside
     it is as before.
     */
    method SetNestedValue(target: Ref, path: Path, slot: Slot, ghost f: Fields, ghost v: Json)
      requires Writable(store, target, f, slot, v)
      modifies this
      ensures Doc(store, target, SetNested(f, path, v))
      ensures Within(old(store), store, DocCells(old(store), target, f))
      ensures Grown(old(store), DocCells(store, target, SetNested(f, path, v)),
                    DocCells(old(store), target, f) + Own(old(store), slot, v))
    {
      WriteAtHolds(store, target, f, path, slot, v);
      if path == [] {
        return;
      }
      var cursor := target;
      ghost var here := f;
      var last := |path| - 1;
      for i := 0 to last
        invariant Writable(store, cursor, here, slot, v)
        invariant WriteAt(old(store), target, path, slot) == WriteAt(store, cursor, path[i..], slot)
      {
        var next := GetSlot(store.cells[cursor], path[i]);
        assert path[i..][1..] == path[i + 1..] && path[i..][0] == path[i];
        DescendKeepsWritable(store, cursor, here, path[i], slot, v);
        here := Child(here, path[i]);
        if next.None? || !next.value.Dict? {
          var empty := store.next;
          store := Fresh(store);
          store := Assign(store, cursor, path[i], Dict(empty));
          cursor := empty;
        } else {
          cursor := next.value.ref;
        }
      }
      assert path[last..] == [path[last]];
      store := Assign(store, cursor, path[last], slot);
    }
  }
}
