/**
 JavaScript objects and arrays as the policy builder shares and changes them (libraryYaml.ts:187-215,
 271-373, 390-454): cells that refer to each other by address.

 - A scalar is a value, a list or a map a cell; `Holds` says that a reference holds a tree, `Owns` of which cells.
 - `Rewrites` says that one tree became another and nothing else changed, `Creates` that a tree is made of new cells.
 - `Heap` has the operations: literals, spreads, assignments, `delete`, and `structuredClone`.
 */
module JsHeap {
  import opened Json

  datatype Value = Prim(j: Json) | Ref(addr: nat)

  datatype Cell = List(items: seq<Value>) | Dict(fields: map<string, Value>)

  type Cells = map<nat, Cell>

  // ----- steps from a tree to its parts, and from a cell to what it refers to

  datatype Step = At(i: nat) | Key(k: string)

  predicate HasStep(j: Json, s: Step) {
    match s
    case At(i) => j.Arr? && i < |j.items|
    case Key(k) => j.Obj? && k in j.fields
  }

  /** The part at a step; what is not there reads as null. */
  function Part(j: Json, s: Step): (c: Json)
    ensures HasStep(j, s) ==> c < j
    ensures !HasStep(j, s) ==> c == Null
  {
    match s
    case At(i) => if j.Arr? && i < |j.items| then j.items[i] else Null
    case Key(k) => if j.Obj? && k in j.fields then j.fields[k] else Null
  }

  function Target(h: Cells, v: Value, s: Step): Value {
    if v.Prim? || v.addr !in h then Prim(Null)
    else match (h[v.addr], s)
      case (List(items), At(i)) => if i < |items| then items[i] else Prim(Null)
      case (Dict(fields), Key(k)) => if k in fields then fields[k] else Prim(Null)
      case _ => Prim(Null)
  }

  predicate Compound(j: Json) {
    j.Arr? || j.Obj?
  }

  predicate SameShape(c: Cell, j: Json) {
    match c
    case List(items) => j.Arr? && |items| == |j.items|
    case Dict(fields) => j.Obj? && fields.Keys == j.fields.Keys
  }

  /** The reference is to a cell of the tree's shape. */
  predicate Shaped(h: Cells, v: Value, j: Json) {
    v.Ref? && v.addr in h && SameShape(h[v.addr], j)
  }

  // ----- trees on the heap

  /** The cell at `a` is part of the tree that `v` refers to. */
  ghost predicate Owns(h: Cells, v: Value, j: Json, a: nat)
    decreases j
  {
    Compound(j) && Shaped(h, v, j) &&
      (v.addr == a || exists s :: HasStep(j, s) && Owns(h, Target(h, v, s), Part(j, s), a))
  }

  /** Parts reached by different steps have no cell in common, and none contains the cell they hang on. */
  ghost predicate PartsApart(h: Cells, v: Value, j: Json)
    requires v.Ref?
  {
    && (forall s :: HasStep(j, s) ==> !Owns(h, Target(h, v, s), Part(j, s), v.addr))
    && (forall s, t, a: nat :: HasStep(j, s) && HasStep(j, t) && s != t && Owns(h, Target(h, v, s), Part(j, s), a) ==>
          !Owns(h, Target(h, v, t), Part(j, t), a))
  }

  /** `v` refers to the tree `j`, none of whose parts share a cell. */
  ghost predicate Holds(h: Cells, v: Value, j: Json)
    decreases j
  {
    if Compound(j) then
      Shaped(h, v, j) && PartsApart(h, v, j) && forall s :: HasStep(j, s) ==> Holds(h, Target(h, v, s), Part(j, s))
    else v == Prim(j)
  }

  ghost predicate Kept(h: Cells, g: Cells, a: nat) {
    a in h && a in g && g[a] == h[a]
  }

  /** Nothing that was there has changed. */
  ghost predicate Extends(h: Cells, g: Cells) {
    forall a: nat :: a in h ==> Kept(h, g, a)
  }

  /**
   From `h` to `g` the tree `j` at `v` was made into the tree `k` at `w`, and that is all that happened: the
   cells of the new tree are cells of the old one or new, and every cell outside the old tree is as before.
   */
  ghost predicate Rewrites(h: Cells, g: Cells, v: Value, j: Json, w: Value, k: Json) {
    && h.Keys <= g.Keys
    && Holds(g, w, k)
    && (forall a: nat :: Owns(g, w, k, a) && a in h ==> Owns(h, v, j, a))
    && (forall a: nat :: a in h && !Owns(h, v, j, a) ==> Kept(h, g, a))
  }

  /** From `h` to `g` the tree `k` at `w` was made, out of new cells only. */
  ghost predicate Creates(h: Cells, g: Cells, w: Value, k: Json) {
    Rewrites(h, g, Prim(Null), Null, w, k)
  }

  lemma {:induction false} OwnedIsThere(h: Cells, v: Value, j: Json, a: nat)
    requires Owns(h, v, j, a)
    ensures a in h
    decreases j
  {
    if v.addr != a {
      var s :| HasStep(j, s) && Owns(h, Target(h, v, s), Part(j, s), a);
      OwnedIsThere(h, Target(h, v, s), Part(j, s), a);
    }
  }

  lemma HeldIsShaped(h: Cells, v: Value, j: Json)
    requires Holds(h, v, j)
    ensures Compound(j) ==> Shaped(h, v, j) && Owns(h, v, j, v.addr)
    ensures !Compound(j) ==> v == Prim(j) && forall a: nat :: !Owns(h, v, j, a)
  {
  }

  lemma PartHeld(h: Cells, v: Value, j: Json, s: Step)
    requires Holds(h, v, j)
    ensures Holds(h, Target(h, v, s), Part(j, s))
    ensures v.Ref? ==> !Owns(h, Target(h, v, s), Part(j, s), v.addr)
    ensures forall a: nat :: Owns(h, Target(h, v, s), Part(j, s), a) ==> a in h && Owns(h, v, j, a)
  {
    if HasStep(j, s) {
      forall a: nat | Owns(h, Target(h, v, s), Part(j, s), a) ensures Owns(h, v, j, a) && a in h {
        OwnedIsThere(h, Target(h, v, s), Part(j, s), a);
      }
    }
  }

  lemma PartsDiffer(h: Cells, v: Value, j: Json, s: Step, t: Step, a: nat)
    requires Holds(h, v, j) && s != t && Owns(h, Target(h, v, s), Part(j, s), a)
    ensures !Owns(h, Target(h, v, t), Part(j, t), a)
  {
  }

  lemma OwnedInPart(h: Cells, v: Value, j: Json, a: nat) returns (s: Step)
    requires Owns(h, v, j, a) && v.addr != a
    ensures HasStep(j, s) && Owns(h, Target(h, v, s), Part(j, s), a)
  {
    s :| HasStep(j, s) && Owns(h, Target(h, v, s), Part(j, s), a);
  }

  /** What a tree owns decides what it holds: cells elsewhere do not matter. */
  lemma {:induction false} Frame(h: Cells, g: Cells, v: Value, j: Json)
    requires Holds(h, v, j) && forall a: nat :: Owns(h, v, j, a) ==> Kept(h, g, a)
    ensures Holds(g, v, j) && forall a: nat :: Owns(g, v, j, a) <==> Owns(h, v, j, a)
    decreases j
  {
    if Compound(j) {
      assert Owns(h, v, j, v.addr);
      forall s | HasStep(j, s)
        ensures Holds(g, Target(g, v, s), Part(j, s))
        ensures forall a: nat :: Owns(g, Target(g, v, s), Part(j, s), a) <==> Owns(h, Target(h, v, s), Part(j, s), a)
      {
        PartHeld(h, v, j, s);
        Frame(h, g, Target(h, v, s), Part(j, s));
      }
    }
  }

  lemma FrameExtends(h: Cells, g: Cells, v: Value, j: Json)
    requires Holds(h, v, j) && Extends(h, g)
    ensures Holds(g, v, j) && forall a: nat :: Owns(g, v, j, a) <==> Owns(h, v, j, a)
  {
    hide Holds, Owns;
    forall a: nat | Owns(h, v, j, a) ensures Kept(h, g, a) {
      OwnedIsThere(h, v, j, a);
    }
    Frame(h, g, v, j);
  }

  // ----- rewriting

  lemma NothingRewritten(h: Cells, v: Value, j: Json)
    requires Holds(h, v, j)
    ensures Rewrites(h, h, v, j, v, j)
  {
  }

  lemma RewritesTwice(h: Cells, g: Cells, f: Cells, u: Value, i: Json, v: Value, j: Json, w: Value, k: Json)
    requires Rewrites(h, g, u, i, v, j) && Rewrites(g, f, v, j, w, k)
    ensures Rewrites(h, f, u, i, w, k)
  {
    hide Holds, Owns;
    forall a: nat | a in h && !Owns(h, u, i, a) ensures Kept(h, f, a) {
      assert Kept(h, g, a);
    }
  }

  predicate CanSet(j: Json, s: Step) {
    match s
    case At(i) => j.Arr? && i <= |j.items|
    case Key(k) => j.Obj?
  }

  /** Assignment to a key or an index, or `push` at the index past the last. */
  function WithPart(j: Json, s: Step, c: Json): Json
    requires CanSet(j, s)
  {
    match s
    case At(i) => Arr(if i < |j.items| then j.items[i := c] else j.items + [c])
    case Key(k) => Obj(j.fields[k := c])
  }

  function SetCell(c: Cell, s: Step, w: Value): Cell {
    match (c, s)
    case (List(items), At(i)) => if i < |items| then List(items[i := w]) else List(items + [w])
    case (Dict(fields), Key(k)) => Dict(fields[k := w])
    case _ => c
  }

  lemma SetParts(g: Cells, v: Value, cell: Cell, j: Json, s: Step, w: Value, c: Json)
    requires v.Ref? && SameShape(cell, j) && CanSet(j, s)
    ensures var f, k := g[v.addr := SetCell(cell, s, w)], WithPart(j, s, c);
            && Compound(k) && Shaped(f, v, k) && HasStep(k, s) && Target(f, v, s) == w && Part(k, s) == c
            && forall t :: t != s ==>
                 && (HasStep(k, t) <==> HasStep(j, t)) && Part(k, t) == Part(j, t)
                 && Target(f, v, t) == Target(map[v.addr := cell], v, t)
  {
  }

  /** What becomes of a part when the part at `s` is set. */
  lemma PartAfterSet(h: Cells, g: Cells, v: Value, j: Json, s: Step, w: Value, c: Json, t: Step)
    requires Holds(h, v, j) && CanSet(j, s) && Rewrites(h, g, Target(h, v, s), Part(j, s), w, c)
    ensures Shaped(h, v, j)
    ensures var f, k := g[v.addr := SetCell(h[v.addr], s, w)], WithPart(j, s, c);
            && Holds(f, Target(f, v, t), Part(k, t)) && !Owns(f, Target(f, v, t), Part(k, t), v.addr)
            && (forall a: nat :: t != s && Owns(f, Target(f, v, t), Part(k, t), a) ==>
                  Owns(h, Target(h, v, t), Part(j, t), a) && !Owns(f, Target(f, v, s), Part(k, s), a))
            && (forall a: nat :: Owns(f, Target(f, v, s), Part(k, s), a) && a in h ==>
                Owns(h, Target(h, v, s), Part(j, s), a))
  {
    hide Holds, Owns, WithPart, SetCell, SameShape, Target, Part;
    HeldIsShaped(h, v, j);
    var f, k := g[v.addr := SetCell(h[v.addr], s, w)], WithPart(j, s, c);
    SetParts(g, v, h[v.addr], j, s, w, c);
    PartHeld(h, v, j, s);
    forall a: nat | Owns(g, w, c, a) ensures Kept(g, f, a) {
      OwnedIsThere(g, w, c, a);
    }
    Frame(g, f, w, c);
    if t != s {
      TargetIsOfCell(h, v, t);
      var x, y := Target(h, v, t), Part(j, t);
      PartHeld(h, v, j, t);
      forall a: nat | Owns(h, x, y, a) ensures Kept(h, f, a) && !Owns(g, w, c, a) {
        PartsDiffer(h, v, j, t, s, a);
      }
      Frame(h, f, x, y);
    }
  }

  lemma TargetIsOfCell(h: Cells, v: Value, t: Step)
    requires v.Ref? && v.addr in h
    ensures Target(map[v.addr := h[v.addr]], v, t) == Target(h, v, t)
  {
  }

  lemma HoldsByParts(h: Cells, v: Value, j: Json)
    requires Compound(j) && Shaped(h, v, j) && PartsApart(h, v, j)
    requires forall s :: HasStep(j, s) ==> Holds(h, Target(h, v, s), Part(j, s))
    ensures Holds(h, v, j)
  {
  }

  /** Setting a part to what it was rewritten into rewrites the whole. */
  lemma SetRewrites(h: Cells, g: Cells, v: Value, j: Json, s: Step, w: Value, c: Json)
    requires Holds(h, v, j) && CanSet(j, s) && Rewrites(h, g, Target(h, v, s), Part(j, s), w, c)
    ensures Shaped(h, v, j) && Kept(h, g, v.addr)
    ensures Rewrites(h, g[v.addr := SetCell(g[v.addr], s, w)], v, j, v, WithPart(j, s, c))
  {
    hide Holds, Owns, WithPart, SetCell, SameShape, Target, Part, HasStep;
    HeldIsShaped(h, v, j);
    PartHeld(h, v, j, s);
    assert Kept(h, g, v.addr);
    var f, k := g[v.addr := SetCell(h[v.addr], s, w)], WithPart(j, s, c);
    SetParts(g, v, h[v.addr], j, s, w, c);
    forall t {:trigger HasStep(k, t)}
      ensures Holds(f, Target(f, v, t), Part(k, t)) && !Owns(f, Target(f, v, t), Part(k, t), v.addr)
    {
      PartAfterSet(h, g, v, j, s, w, c, t);
    }
    forall t, u, a: nat | HasStep(k, t) && HasStep(k, u) && t != u && Owns(f, Target(f, v, t), Part(k, t), a)
      ensures !Owns(f, Target(f, v, u), Part(k, u), a)
    {
      PartAfterSet(h, g, v, j, s, w, c, t);
      PartAfterSet(h, g, v, j, s, w, c, u);
      if t != s && u != s {
        if Owns(f, Target(f, v, u), Part(k, u), a) {
          PartsDiffer(h, v, j, t, u, a);
        }
      }
    }
    HoldsByParts(f, v, k);
    forall a: nat | Owns(f, v, k, a) && a in h ensures Owns(h, v, j, a) {
      if a != v.addr {
        var t := OwnedInPart(f, v, k, a);
        PartAfterSet(h, g, v, j, s, w, c, t);
        PartHeld(h, v, j, t);
      }
    }
    forall a: nat | a in h && !Owns(h, v, j, a) ensures Kept(h, f, a) {
      assert Kept(h, g, a);
    }
  }

  /** Rewriting a part where it is rewrites the whole. */
  lemma PartRewrites(h: Cells, g: Cells, v: Value, j: Json, s: Step, c: Json)
    requires Holds(h, v, j) && HasStep(j, s) && Rewrites(h, g, Target(h, v, s), Part(j, s), Target(h, v, s), c)
    ensures CanSet(j, s) && Rewrites(h, g, v, j, v, WithPart(j, s, c))
  {
    hide Holds, Owns, WithPart;
    HeldIsShaped(h, v, j);
    SetRewrites(h, g, v, j, s, Target(h, v, s), c);
    SetToItself(h, v, j, s);
    assert g[v.addr := h[v.addr]] == g;
  }

  lemma SetToItself(h: Cells, v: Value, j: Json, s: Step)
    requires Shaped(h, v, j) && HasStep(j, s)
    ensures SetCell(h[v.addr], s, Target(h, v, s)) == h[v.addr]
  {
  }

  /**
   A new cell with the same references, `{...x}` or `[...x]`, holds the same tree; it shares its parts with
   the old one.
   */
  lemma SpreadRewrites(h: Cells, v: Value, j: Json, a: nat)
    requires Holds(h, v, j) && Compound(j) && a !in h
    ensures Shaped(h, v, j) && Rewrites(h, h[a := h[v.addr]], v, j, Ref(a), j)
  {
    hide Holds, Owns;
    HeldIsShaped(h, v, j);
    var g, w := h[a := h[v.addr]], Ref(a);
    forall s ensures Target(g, w, s) == Target(h, v, s)
      && Holds(g, Target(g, w, s), Part(j, s)) && !Owns(g, Target(g, w, s), Part(j, s), a)
      && (forall b: nat :: Owns(g, Target(g, w, s), Part(j, s), b) <==> Owns(h, Target(h, v, s), Part(j, s), b))
    {
      PartHeld(h, v, j, s);
      FrameExtends(h, g, Target(h, v, s), Part(j, s));
    }
    forall s, t, b: nat | HasStep(j, s) && HasStep(j, t) && s != t && Owns(g, Target(g, w, s), Part(j, s), b)
      ensures !Owns(g, Target(g, w, t), Part(j, t), b)
    {
      PartsDiffer(h, v, j, s, t, b);
    }
    HoldsByParts(g, w, j);
    forall b: nat | Owns(g, w, j, b) && b in h ensures Owns(h, v, j, b) {
      var s := OwnedInPart(g, w, j, b);
      PartHeld(h, v, j, s);
    }
  }

  lemma RemoveRewrites(h: Cells, v: Value, m: map<string, Json>, k: string)
    requires Holds(h, v, Obj(m))
    ensures Shaped(h, v, Obj(m)) && Rewrites(h, h[v.addr := Dict(h[v.addr].fields - {k})], v, Obj(m), v, Obj(m - {k}))
  {
    hide Holds, Owns;
    var j, l := Obj(m), Obj(m - {k});
    HeldIsShaped(h, v, j);
    var g := h[v.addr := Dict(h[v.addr].fields - {k})];
    forall s | HasStep(l, s)
      ensures HasStep(j, s) && Part(l, s) == Part(j, s) && Target(g, v, s) == Target(h, v, s)
        && Holds(g, Target(g, v, s), Part(l, s)) && !Owns(g, Target(g, v, s), Part(l, s), v.addr)
        && (forall b: nat :: Owns(g, Target(g, v, s), Part(l, s), b) <==> Owns(h, Target(h, v, s), Part(j, s), b))
    {
      PartHeld(h, v, j, s);
      Frame(h, g, Target(h, v, s), Part(j, s));
    }
    forall s, t, b: nat | HasStep(l, s) && HasStep(l, t) && s != t && Owns(g, Target(g, v, s), Part(l, s), b)
      ensures !Owns(g, Target(g, v, t), Part(l, t), b)
    {
      PartsDiffer(h, v, j, s, t, b);
    }
    HoldsByParts(g, v, l);
    forall b: nat | Owns(g, v, l, b) && b in h ensures Owns(h, v, j, b) {
      if b != v.addr {
        var s := OwnedInPart(g, v, l, b);
        PartHeld(h, v, j, s);
      }
    }
  }

  /** An empty list or map in a new cell. */
  lemma EmptyCreated(h: Cells, a: nat, cell: Cell, j: Json)
    requires a !in h && ((cell == List([]) && j == Arr([])) || (cell == Dict(map[]) && j == Obj(map[])))
    ensures Creates(h, h[a := cell], Ref(a), j)
  {
    hide Holds, Owns;
    var g := h[a := cell];
    HoldsByParts(g, Ref(a), j);
    forall b: nat | Owns(g, Ref(a), j, b) ensures b == a {
      if b != a {
        var s := OwnedInPart(g, Ref(a), j, b);
        assert false;
      }
    }
    NullOwnsNothing(h);
  }

  lemma NullOwnsNothing(h: Cells)
    ensures Holds(h, Prim(Null), Null) && forall a: nat :: !Owns(h, Prim(Null), Null, a)
  {
  }

  // ----- rewriting on

  /** A part was rewritten where it is, further. */
  lemma Ascend(h: Cells, g: Cells, f: Cells, v: Value, i: Json, j: Json, s: Step, c: Json)
    requires Rewrites(h, g, v, i, v, j) && HasStep(j, s)
    requires Rewrites(g, f, Target(g, v, s), Part(j, s), Target(g, v, s), c)
    ensures CanSet(j, s) && Rewrites(h, f, v, i, v, WithPart(j, s, c))
    ensures v.Ref? && Kept(g, f, v.addr)
  {
    hide Holds, Owns, WithPart, Target, Part;
    HeldIsShaped(g, v, j);
    PartHeld(g, v, j, s);
    PartRewrites(g, f, v, j, s, c);
    RewritesTwice(h, g, f, v, i, v, j, v, WithPart(j, s, c));
  }

  /**
   When the copy of a root cell is rewritten below the root, the original becomes the same tree: a shallow
   copy is not enough to keep the original.
   */
  lemma ShallowCopyLeaks(h: Cells, v: Value, j: Json, a: nat, f: Cells, k: Json)
    requires Holds(h, v, j) && Compound(j) && a !in h
    requires Shaped(h, v, j) && Rewrites(h[a := h[v.addr]], f, Ref(a), j, Ref(a), k) && Kept(h[a := h[v.addr]], f, a)
    ensures Holds(f, v, k)
  {
    hide Owns, Holds;
    var g, w := h[a := h[v.addr]], Ref(a);
    SpreadRewrites(h, v, j, a);
    NotOwnedByCopy(h, v, j, a);
    HeldIsShaped(f, w, k);
    assert Kept(g, f, v.addr);
    forall s ensures Target(f, v, s) == Target(f, w, s) && Holds(f, Target(f, v, s), Part(k, s))
      && !Owns(f, Target(f, v, s), Part(k, s), v.addr)
    {
      PartHeld(f, w, k, s);
    }
    forall s, t, b: nat | HasStep(k, s) && HasStep(k, t) && s != t && Owns(f, Target(f, v, s), Part(k, s), b)
      ensures !Owns(f, Target(f, v, t), Part(k, t), b)
    {
      PartsDiffer(f, w, k, s, t, b);
    }
    HoldsByParts(f, v, k);
  }

  lemma NotOwnedByCopy(h: Cells, v: Value, j: Json, a: nat)
    requires Holds(h, v, j) && Compound(j) && a !in h && Shaped(h, v, j)
    ensures !Owns(h[a := h[v.addr]], Ref(a), j, v.addr)
  {
    hide Owns, Holds;
    var g, w := h[a := h[v.addr]], Ref(a);
    if Owns(g, w, j, v.addr) {
      var s := OwnedInPart(g, w, j, v.addr);
      PartHeld(h, v, j, s);
      FrameExtends(h, g, Target(h, v, s), Part(j, s));
    }
  }

  lemma RewrittenIsHeld(h: Cells, g: Cells, v: Value, j: Json, w: Value, k: Json)
    requires Rewrites(h, g, v, j, w, k)
    ensures Holds(g, w, k) && (Compound(k) ==> Shaped(g, w, k))
  {
    hide Holds, Owns;
    HeldIsShaped(g, w, k);
  }

  // ----- making lists and maps

  lemma OldKept(h: Cells, g: Cells, w: Value, k: Json)
    requires Creates(h, g, w, k)
    ensures Extends(h, g)
  {
    NullOwnsNothing(h);
  }

  /** A tree that was there is still there beside a new one, and they share nothing. */
  lemma HeldBeside(h: Cells, g: Cells, w: Value, k: Json, v: Value, j: Json)
    requires Creates(h, g, w, k) && Holds(h, v, j)
    ensures Holds(g, v, j)
    ensures forall a: nat :: (Owns(g, v, j, a) <==> Owns(h, v, j, a)) && !(Owns(g, v, j, a) && Owns(g, w, k, a))
  {
    hide Holds, Owns;
    OldKept(h, g, w, k);
    FrameExtends(h, g, v, j);
    NullOwnsNothing(h);
    forall a: nat | Owns(h, v, j, a) ensures !Owns(g, w, k, a) {
      OwnedIsThere(h, v, j, a);
    }
  }

  lemma CreatedInPlaceOf(h: Cells, g: Cells, v: Value, j: Json, w: Value, k: Json)
    requires Creates(h, g, w, k)
    ensures Rewrites(h, g, v, j, w, k)
  {
    hide Holds, Owns;
    NullOwnsNothing(h);
  }

  /** A new tree is one step larger with a new part. */
  lemma CreatesMore(h: Cells, g: Cells, f: Cells, v: Value, j: Json, s: Step, w: Value, c: Json)
    requires Creates(h, g, v, j) && CanSet(j, s) && Creates(g, f, w, c)
    ensures v.Ref? && v.addr in f && Creates(h, f[v.addr := SetCell(f[v.addr], s, w)], v, WithPart(j, s, c))
  {
    hide Holds, Owns, WithPart, SetCell, Target, Part, HasStep;
    CreatedInPlaceOf(g, f, Target(g, v, s), Part(j, s), w, c);
    SetRewrites(g, f, v, j, s, w, c);
    RewritesTwice(h, g, f[v.addr := SetCell(f[v.addr], s, w)], Prim(Null), Null, v, j, v, WithPart(j, s, c));
  }

  class Heap {
    var cells: Cells
    var next: nat

    ghost predicate Valid()
      reads this
    {
      forall a :: a in cells ==> a < next
    }

    constructor ()
      ensures Valid() && cells == map[]
    {
      cells, next := map[], 0;
    }

    method Alloc(cell: Cell) returns (v: Value)
      requires Valid()
      modifies this
      ensures Valid() && v.Ref? && v.addr !in old(cells) && cells == old(cells)[v.addr := cell]
    {
      v := Ref(next);
      cells, next := cells[next := cell], next + 1;
    }

    /** Assignment to a property or an element. */
    method Set(v: Value, s: Step, w: Value)
      requires Valid() && v.Ref? && v.addr in cells
      modifies this`cells
      ensures Valid() && cells == old(cells)[v.addr := SetCell(old(cells)[v.addr], s, w)]
    {
      cells := cells[v.addr := SetCell(cells[v.addr], s, w)];
    }

    /** Assignment of what was made out of the part that is assigned to. */
    method Assign(ghost before: Cells, v: Value, ghost j: Json, s: Step, w: Value, ghost c: Json)
      requires Valid() && Holds(before, v, j) && CanSet(j, s)
      requires Rewrites(before, cells, Target(before, v, s), Part(j, s), w, c)
      modifies this`cells
      ensures Valid() && Rewrites(before, cells, v, j, v, WithPart(j, s, c))
    {
      hide Holds, Owns, Rewrites, WithPart, SetCell;
      SetRewrites(before, cells, v, j, s, w, c);
      Set(v, s, w);
    }

    /** `delete` of a property. */
    method Remove(v: Value, ghost m: map<string, Json>, k: string)
      requires Valid() && Holds(cells, v, Obj(m))
      modifies this`cells
      ensures Valid() && Rewrites(old(cells), cells, v, Obj(m), v, Obj(m - {k}))
    {
      RemoveRewrites(cells, v, m, k);
      cells := cells[v.addr := Dict(cells[v.addr].fields - {k})];
    }

    /** Assignment of a literal. */
    method Put(v: Value, ghost j: Json, s: Step, literal: Json)
      requires Valid() && Holds(cells, v, j) && CanSet(j, s)
      modifies this
      ensures Valid() && Rewrites(old(cells), cells, v, j, v, WithPart(j, s, literal))
    {
      hide Holds, Owns, Rewrites, WithPart, SetCell;
      var w := New(literal);
      CreatedInPlaceOf(old(cells), cells, Target(old(cells), v, s), Part(j, s), w, literal);
      Assign(old(cells), v, j, s, w, literal);
    }

    /** `[...(v ?? []), ...literals]`: the elements themselves in a list of its own, and more after them. */
    method Extended(v: Value, ghost j: Json, literals: seq<Json>) returns (w: Value)
      requires Valid() && Holds(cells, v, j) && (j.Null? || j.Arr?)
      modifies this
      ensures Valid() && Rewrites(old(cells), cells, v, j, w, Arr(Items(j) + literals))
    {
      hide Holds, Owns, Rewrites, SetCell;
      HeldIsShaped(cells, v, j);
      if v == Prim(Null) {
        w := New(Arr([]));
        CreatedInPlaceOf(old(cells), cells, v, j, w, Arr([]));
      } else {
        w := Spread(v, j);
      }
      RewrittenIsHeld(old(cells), cells, v, j, w, Arr(Items(j)));
      var n := |cells[w.addr].items|;
      assert Items(j) + literals[..0] == Items(j);
      for i := 0 to |literals|
        invariant Valid() && Rewrites(old(cells), cells, v, j, w, Arr(Items(j) + literals[..i]))
      {
        ghost var before, so_far := cells, Arr(Items(j) + literals[..i]);
        RewrittenIsHeld(old(cells), cells, v, j, w, so_far);
        Put(w, so_far, At(n + i), literals[i]);
        assert WithPart(so_far, At(n + i), literals[i]) == Arr(Items(j) + literals[..i + 1]);
        RewritesTwice(old(cells), before, cells, v, j, w, so_far, w, Arr(Items(j) + literals[..i + 1]));
      }
      assert literals[..|literals|] == literals;
    }

    /** `{...v}` or `[...v]`: a cell of its own with the same references. */
    method Spread(v: Value, ghost j: Json) returns (w: Value)
      requires Valid() && Holds(cells, v, j) && Compound(j)
      modifies this
      ensures Valid() && Rewrites(old(cells), cells, v, j, w, j)
    {
      HeldIsShaped(cells, v, j);
      w := Alloc(cells[v.addr]);
      SpreadRewrites(old(cells), v, j, w.addr);
    }

    /** A literal: a cell of its own for every list and map in it. */
    method New(j: Json) returns (v: Value)
      requires Valid()
      modifies this
      ensures Valid() && Creates(old(cells), cells, v, j)
      decreases j
    {
      hide Holds, Owns, Rewrites, WithPart, SetCell;
      match j
      case Arr(items) =>
        v := Alloc(List([]));
        EmptyCreated(old(cells), v.addr, List([]), Arr([]));
        for i := 0 to |items|
          invariant Valid() && Creates(old(cells), cells, v, Arr(items[..i]))
        {
          ghost var before := cells;
          var w := New(items[i]);
          CreatesMore(old(cells), before, cells, v, Arr(items[..i]), At(i), w, items[i]);
          OneMoreItem(items, i);
          Set(v, At(i), w);
        }
        assert items[..|items|] == items;
      case Obj(fields) =>
        v := Alloc(Dict(map[]));
        EmptyCreated(old(cells), v.addr, Dict(map[]), Obj(map[]));
        var left := fields.Keys;
        EmptyFields(fields);
        while left != {}
          invariant left <= fields.Keys
          invariant Valid() && Creates(old(cells), cells, v, Obj(fields - left))
          decreases |left|
        {
          var k :| k in left;
          ghost var before := cells;
          var w := New(fields[k]);
          CreatesMore(old(cells), before, cells, v, Obj(fields - left), Key(k), w, fields[k]);
          OneMoreField(fields, left, k);
          left := left - {k};
          Set(v, Key(k), w);
        }
        assert fields - {} == fields;
      case _ =>
        v := Prim(j);
        PrimCreated(cells, j);
    }

    /** `structuredClone`: every list and map in the tree is copied into a cell of its own. */
    method Clone(v: Value, ghost j: Json) returns (w: Value)
      requires Valid() && Holds(cells, v, j)
      modifies this
      ensures Valid() && Creates(old(cells), cells, w, j)
      decreases j
    {
      hide Holds, Owns, Rewrites, WithPart, SetCell;
      HeldIsShaped(cells, v, j);
      if v.Prim? {
        PrimCreated(cells, j);
        return v;
      }
      match cells[v.addr]
      case List(items) =>
        w := Alloc(List([]));
        EmptyCreated(old(cells), w.addr, List([]), Arr([]));
        for i := 0 to |items|
          invariant Valid() && Creates(old(cells), cells, w, Arr(j.items[..i]))
        {
          HeldBeside(old(cells), cells, w, Arr(j.items[..i]), v, j);
          OldKept(old(cells), cells, w, Arr(j.items[..i]));
          PartHeld(cells, v, j, At(i));
          ghost var before := cells;
          var x := Clone(items[i], j.items[i]);
          CreatesMore(old(cells), before, cells, w, Arr(j.items[..i]), At(i), x, j.items[i]);
          OneMoreItem(j.items, i);
          Set(w, At(i), x);
        }
        assert j.items[..|items|] == j.items;
      case Dict(fields) =>
        w := Alloc(Dict(map[]));
        EmptyCreated(old(cells), w.addr, Dict(map[]), Obj(map[]));
        var left := fields.Keys;
        EmptyFields(j.fields);
        while left != {}
          invariant left <= fields.Keys
          invariant Valid() && Creates(old(cells), cells, w, Obj(j.fields - left))
          decreases |left|
        {
          var k :| k in left;
          HeldBeside(old(cells), cells, w, Obj(j.fields - left), v, j);
          OldKept(old(cells), cells, w, Obj(j.fields - left));
          PartHeld(cells, v, j, Key(k));
          ghost var before := cells;
          var x := Clone(fields[k], j.fields[k]);
          CreatesMore(old(cells), before, cells, w, Obj(j.fields - left), Key(k), x, j.fields[k]);
          OneMoreField(j.fields, left, k);
          left := left - {k};
          Set(w, Key(k), x);
        }
        assert j.fields - {} == j.fields;
    }
  }

  lemma OneMoreItem(items: seq<Json>, i: nat)
    requires i < |items|
    ensures WithPart(Arr(items[..i]), At(i), items[i]) == Arr(items[..i + 1])
  {
  }

  lemma EmptyFields(fields: map<string, Json>)
    ensures fields - fields.Keys == map[]
  {
  }

  lemma OneMoreField(fields: map<string, Json>, left: set<string>, k: string)
    requires k in left && left <= fields.Keys
    ensures WithPart(Obj(fields - left), Key(k), fields[k]) == Obj(fields - (left - {k}))
  {
    assert (fields - left)[k := fields[k]] == fields - (left - {k});
  }

  lemma PrimCreated(h: Cells, j: Json)
    requires !Compound(j)
    ensures Creates(h, h, Prim(j), j)
  {
    NullOwnsNothing(h);
  }

  // ----- many trees

  /** Each reference holds its tree, and no two of them share a cell. */
  ghost predicate HoldApart(h: Cells, vs: seq<Value>, js: seq<Json>) {
    && |vs| == |js|
    && (forall i :: 0 <= i < |vs| ==> Holds(h, vs[i], js[i]))
    && (forall i, k, a: nat :: 0 <= i < |vs| && 0 <= k < |vs| && i != k && Owns(h, vs[i], js[i], a) ==>
        !Owns(h, vs[k], js[k], a))
  }

  /** From `h` to `g` these trees were made, apart from each other and from all that was there, which is as before. */
  ghost predicate CreatesAll(h: Cells, g: Cells, vs: seq<Value>, js: seq<Json>) {
    && Extends(h, g)
    && HoldApart(g, vs, js)
    && (forall i, a: nat :: 0 <= i < |vs| && Owns(g, vs[i], js[i], a) ==> a !in h)
  }

  lemma NoneCreated(h: Cells)
    ensures CreatesAll(h, h, [], [])
  {
  }

  lemma OneCreated(h: Cells, g: Cells, w: Value, k: Json)
    requires Creates(h, g, w, k)
    ensures CreatesAll(h, g, [w], [k])
  {
    hide Holds, Owns;
    OldKept(h, g, w, k);
    NullOwnsNothing(h);
  }

  lemma CreatedSince(h: Cells, g: Cells, f: Cells, vs: seq<Value>, js: seq<Json>)
    requires Extends(h, g) && CreatesAll(g, f, vs, js)
    ensures CreatesAll(h, f, vs, js)
  {
    hide Holds, Owns;
    forall i, a: nat | 0 <= i < |vs| && Owns(f, vs[i], js[i], a) ensures a !in h {
      assert a !in g;
    }
    forall a: nat | a in h ensures Kept(h, f, a) {
      assert Kept(h, g, a);
    }
  }

  lemma CreatedTogether(h: Cells, g: Cells, f: Cells, vs: seq<Value>, js: seq<Json>, ws: seq<Value>, ks: seq<Json>)
    requires CreatesAll(h, g, vs, js) && CreatesAll(g, f, ws, ks)
    ensures CreatesAll(h, f, vs + ws, js + ks)
  {
    hide Holds, Owns;
    CreatedSince(h, g, f, ws, ks);
    forall i | 0 <= i < |vs|
      ensures Holds(f, vs[i], js[i]) && forall a: nat :: Owns(f, vs[i], js[i], a) <==> Owns(g, vs[i], js[i], a)
    {
      FrameExtends(g, f, vs[i], js[i]);
    }
    var us, ls := vs + ws, js + ks;
    forall i, k, a: nat | 0 <= i < |us| && 0 <= k < |us| && i != k && Owns(f, us[i], ls[i], a)
      ensures !Owns(f, us[k], ls[k], a)
    {
      OneSide(g, f, vs, js, ws, ks, i, a);
      if Owns(f, us[k], ls[k], a) {
        OneSide(g, f, vs, js, ws, ks, k, a);
      }
    }
  }

  lemma OneSide(g: Cells, f: Cells, vs: seq<Value>, js: seq<Json>, ws: seq<Value>, ks: seq<Json>, i: nat, a: nat)
    requires HoldApart(g, vs, js) && CreatesAll(g, f, ws, ks) && i < |vs| + |ws|
    requires Owns(f, (vs + ws)[i], (js + ks)[i], a)
    ensures i < |vs| ==> a in g && Owns(g, vs[i], js[i], a)
    ensures i >= |vs| ==> a !in g && Owns(f, ws[i - |vs|], ks[i - |vs|], a)
  {
    hide Holds, Owns;
    if i < |vs| {
      FrameExtends(g, f, vs[i], js[i]);
      OwnedIsThere(g, vs[i], js[i], a);
    }
  }

  /** Rewriting one of the trees leaves the others as they were, and apart. */
  lemma RewritesOne(h: Cells, g: Cells, vs: seq<Value>, js: seq<Json>, n: nat, k: Json)
    requires HoldApart(h, vs, js) && n < |vs| && Rewrites(h, g, vs[n], js[n], vs[n], k)
    ensures HoldApart(g, vs, js[n := k])
  {
    hide Holds, Owns;
    var ls := js[n := k];
    forall i | 0 <= i < |vs| && i != n
      ensures Holds(g, vs[i], js[i])
      ensures forall a: nat :: && (Owns(g, vs[i], js[i], a) <==> Owns(h, vs[i], js[i], a))
                               && !(Owns(g, vs[i], js[i], a) && Owns(g, vs[n], k, a))
    {
      forall a: nat | Owns(h, vs[i], js[i], a) ensures Kept(h, g, a) && !Owns(g, vs[n], k, a) {
        OwnedIsThere(h, vs[i], js[i], a);
      }
      Frame(h, g, vs[i], js[i]);
    }
  }
}
