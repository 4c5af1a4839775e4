/**
 The block store of the game and the rules that edit it, as pure
 functions over the store's contents.

 The store maps each occupied cell to the record kept on its mesh, the
 position and type of the block. Class Game.World holds one such map and
 changes it in place; the functions here are what its methods are proved
 against, and the lemmas state what the edit rules promise.
 */
module Blocks {
  import opened Options
  import opened Keys

  const WorldWidth: int := 16
  const WorldDepth: int := 16

  /** Texture indices of the palette used by the seeded terrain. */
  const Grass: int := 0
  const Dirt: int := 1

  /** The mouse buttons the edit handler reacts to. */
  const LeftButton: int := 0
  const RightButton: int := 2

  /** What a mesh records about itself: its cell and its block type. */
  datatype Block = Block(x: int, y: int, z: int, kind: int) {
    function Pos(): Coord {
      (x, y, z)
    }
  }

  /** The block dictionary, keyed by cell. */
  type Store = map<Coord, Block>

  /** Every record sits under the key of its own position. */
  predicate WellFormed(m: Store) {
    forall c :: c in m ==> m[c].Pos() == c
  }

  // ---------------------------------------------------------------------------
  // createBlock and removeBlock

  /** The store after createBlock(x, y, z, t): the cell is written whether or not it was occupied. */
  function WithBlock(m: Store, x: int, y: int, z: int, t: int): (r: Store)
    ensures (x, y, z) in r && r[(x, y, z)] == Block(x, y, z, t)
    ensures forall c :: c != (x, y, z) ==> (c in r <==> c in m)
    ensures forall c :: c != (x, y, z) && c in m ==> r[c] == m[c]
    ensures |r| == if (x, y, z) in m then |m| else |m| + 1
    ensures WellFormed(m) ==> WellFormed(r)
  {
    m[(x, y, z) := Block(x, y, z, t)]
  }

  /** The store after removeBlock(x, y, z): the entry is deleted only if present. */
  function WithoutBlock(m: Store, x: int, y: int, z: int): (r: Store)
    ensures (x, y, z) !in r
    ensures forall c :: c != (x, y, z) ==> (c in r <==> c in m)
    ensures forall c :: c in r ==> r[c] == m[c]
    ensures (x, y, z) !in m ==> r == m
    ensures |r| == if (x, y, z) in m then |m| - 1 else |m|
    ensures WellFormed(m) ==> WellFormed(r)
  {
    if (x, y, z) in m then m - {(x, y, z)} else m
  }

  /** Removing twice is removing once. */
  lemma RemoveIdempotent(m: Store, x: int, y: int, z: int)
    ensures WithoutBlock(WithoutBlock(m, x, y, z), x, y, z) == WithoutBlock(m, x, y, z)
  {
  }

  /** A second createBlock on the same cell replaces the first. */
  lemma CreateOverwrites(m: Store, x: int, y: int, z: int, t1: int, t2: int)
    ensures WithBlock(WithBlock(m, x, y, z, t1), x, y, z, t2) == WithBlock(m, x, y, z, t2)
  {
  }

  /** Creating and then removing a block leaves what removing alone leaves. */
  lemma CreateThenRemove(m: Store, x: int, y: int, z: int, t: int)
    ensures WithoutBlock(WithBlock(m, x, y, z, t), x, y, z) == WithoutBlock(m, x, y, z)
  {
  }

  // ---------------------------------------------------------------------------
  // generateFlatWorld

  /** The cells of the seeded slab: two layers over a WorldWidth by WorldDepth square. */
  predicate InSlab(c: Coord) {
    0 <= c.0 < WorldWidth && 0 <= c.1 < 2 && 0 <= c.2 < WorldDepth
  }

  /** Dirt on the bottom layer, grass on top. */
  function SlabBlock(c: Coord): (b: Block)
    ensures b.Pos() == c
    ensures b.kind == if c.1 == 0 then Dirt else Grass
  {
    Block(c.0, c.1, c.2, if c.1 == 0 then Dirt else Grass)
  }

  /** The cells (x, y, z) of one strip: 0 <= y < 2 and 0 <= z < d. */
  function StripCells(x: int, d: nat): set<Coord>
  {
    if d == 0 then {} else StripCells(x, d - 1) + {(x, 0, d - 1), (x, 1, d - 1)}
  }

  /** The cells (x, y, z) with 0 <= x < w, 0 <= y < 2 and 0 <= z < d, strip by strip. */
  function SlabCells(w: nat, d: nat): set<Coord>
  {
    if w == 0 then {} else SlabCells(w - 1, d) + StripCells(w - 1, d)
  }

  lemma {:induction false} InStrip(x: int, d: nat, c: Coord)
    ensures c in StripCells(x, d) <==> c.0 == x && 0 <= c.1 < 2 && 0 <= c.2 < d
  {
    if d > 0 {
      InStrip(x, d - 1, c);
    }
  }

  lemma {:induction false} InSlabCells(w: nat, d: nat, c: Coord)
    ensures c in SlabCells(w, d) <==> 0 <= c.0 < w && 0 <= c.1 < 2 && 0 <= c.2 < d
  {
    if w > 0 {
      InSlabCells(w - 1, d, c);
      InStrip(w - 1, d, c);
    }
  }

  lemma {:induction false} StripSize(x: int, d: nat)
    ensures |StripCells(x, d)| == 2 * d
  {
    if d > 0 {
      StripSize(x, d - 1);
      InStrip(x, d - 1, (x, 0, d - 1));
      InStrip(x, d - 1, (x, 1, d - 1));
    }
  }

  /** The strip at x = w lies beyond the slab of width w. */
  lemma StripOutsideSlab(w: nat, d: nat)
    ensures SlabCells(w, d) !! StripCells(w, d)
  {
    forall c | c in SlabCells(w, d)
      ensures c !in StripCells(w, d)
    {
      InSlabCells(w, d, c);
      InStrip(w, d, c);
    }
  }

  lemma DisjointUnionSize(a: set<Coord>, b: set<Coord>)
    requires a !! b
    ensures |a + b| == |a| + |b|
  {
  }

  /** w strips of 2 * d cells each, counted strip by strip. */
  function StripTotal(w: nat, d: nat): nat {
    if w == 0 then 0 else StripTotal(w - 1, d) + 2 * d
  }

  lemma {:induction false} StripTotalIsProduct(w: nat, d: nat)
    ensures StripTotal(w, d) == w * (2 * d)
  {
    if w > 0 {
      StripTotalIsProduct(w - 1, d);
      assert (w - 1) * (2 * d) + 2 * d == w * (2 * d);
    }
  }

  lemma {:induction false} SlabCount(w: nat, d: nat)
    ensures |SlabCells(w, d)| == StripTotal(w, d)
  {
    if w > 0 {
      var done, strip := SlabCells(w - 1, d), StripCells(w - 1, d);
      assert |SlabCells(w, d)| == |done| + |strip| by {
        StripOutsideSlab(w - 1, d);
        DisjointUnionSize(done, strip);
      }
      assert |done| == StripTotal(w - 1, d) by { SlabCount(w - 1, d); }
      assert |strip| == 2 * d by { StripSize(w - 1, d); }
    }
  }

  lemma SlabSize(w: nat, d: nat)
    ensures |SlabCells(w, d)| == w * (2 * d)
  {
    SlabCount(w, d);
    StripTotalIsProduct(w, d);
  }

  /** A store whose cells are exactly those of a w by d slab has w * d * 2 entries. */
  lemma {:induction false} SlabKeys(m: Store, w: nat, d: nat)
    requires forall c :: c in m <==> 0 <= c.0 < w && 0 <= c.1 < 2 && 0 <= c.2 < d
    ensures |m| == w * (2 * d)
  {
    forall c: Coord
      ensures c in m <==> c in SlabCells(w, d)
    {
      InSlabCells(w, d, c);
    }
    assert m.Keys == SlabCells(w, d);
    SlabSize(w, d);
  }

  /**
   What generateFlatWorld leaves in a store that was empty: dirt at y = 0 and
   grass at y = 1 over the whole square, nothing else, and so
   WorldWidth * WorldDepth * 2 = 512 entries.
   */
  ghost predicate IsFlatWorld(m: Store) {
    && (forall c :: c in m <==> InSlab(c))
    && (forall c :: c in m ==> m[c] == SlabBlock(c))
  }

  lemma FlatWorldSize(m: Store)
    requires IsFlatWorld(m)
    ensures |m| == WorldWidth * WorldDepth * 2 == 512
    ensures WellFormed(m)
    ensures forall c :: c in m && c.1 == 0 ==> m[c].kind == Dirt
    ensures forall c :: c in m && c.1 == 1 ==> m[c].kind == Grass
  {
    SlabKeys(m, WorldWidth, WorldDepth);
  }

  // ---------------------------------------------------------------------------
  // The mousedown handler

  /** The six axis-aligned unit face normals of a box. */
  datatype Normal = PosX | NegX | PosY | NegY | PosZ | NegZ

  /** hit + normal: the neighbouring cell across the face. */
  function Adjacent(c: Coord, n: Normal): (r: Coord)
    ensures r != c
    ensures (if r.0 > c.0 then r.0 - c.0 else c.0 - r.0) + (if r.1 > c.1 then r.1 - c.1 else c.1 - r.1)
          + (if r.2 > c.2 then r.2 - c.2 else c.2 - r.2) == 1
  {
    match n
    case PosX => (c.0 + 1, c.1, c.2)
    case NegX => (c.0 - 1, c.1, c.2)
    case PosY => (c.0, c.1 + 1, c.2)
    case NegY => (c.0, c.1 - 1, c.2)
    case PosZ => (c.0, c.1, c.2 + 1)
    case NegZ => (c.0, c.1, c.2 - 1)
  }

  /** The first intersection the ray cast reports: the struck block's position and the struck face. */
  datatype Hit = Hit(pos: Coord, normal: Normal)

  /** The store after a mousedown, given the ray cast's first hit (if any) and the button. */
  function MouseDownEffect(m: Store, hit: Option<Hit>, button: int, selected: int): (r: Store)
    ensures hit.Some? && button == LeftButton ==>
      hit.value.pos !in r &&
      forall c :: c != hit.value.pos ==> (c in r <==> c in m) && (c in r ==> r[c] == m[c])
    ensures hit.Some? && button == RightButton ==>
      var p := Adjacent(hit.value.pos, hit.value.normal);
      p in r && r[p] == Block(p.0, p.1, p.2, selected) &&
      forall c :: c != p ==> (c in r <==> c in m) && (c in r ==> r[c] == m[c])
    ensures hit.None? || (button != LeftButton && button != RightButton) ==> r == m
    ensures WellFormed(m) ==> WellFormed(r)
  {
    match hit
    case None => m
    case Some(h) =>
      if button == LeftButton then
        WithoutBlock(m, h.pos.0, h.pos.1, h.pos.2)
      else if button == RightButton then
        var p := Adjacent(h.pos, h.normal);
        WithBlock(m, p.0, p.1, p.2, selected)
      else
        m
  }

  /**
   Placing against a stored block never overlaps it: the struck block keeps its
   type and the store grows by one exactly when the neighbouring cell was empty.
   */
  lemma PlaceBesideHit(m: Store, h: Hit, selected: int)
    requires h.pos in m
    ensures var r := MouseDownEffect(m, Some(h), RightButton, selected);
      h.pos in r && r[h.pos] == m[h.pos] &&
      |r| == if Adjacent(h.pos, h.normal) in m then |m| else |m| + 1
  {
  }

  /** Breaking a stored block shrinks the store by exactly one. */
  lemma BreakRemovesOne(m: Store, h: Hit)
    requires h.pos in m
    ensures |MouseDownEffect(m, Some(h), LeftButton, 0)| == |m| - 1
  {
  }

  /**
   The ray cast reports a stored mesh, and the handler breaks the cell at that
   mesh's position. In a well-formed store that cell is the entry holding the
   mesh, so the struck record leaves the store and it shrinks by one.
   */
  lemma BreakStruckRecord(m: Store, b: Block, n: Normal, selected: int)
    requires WellFormed(m) && b in m.Values
    ensures var r := MouseDownEffect(m, Some(Hit(b.Pos(), n)), LeftButton, selected);
      b !in r.Values && |r| == |m| - 1
  {
    var c :| c in m && m[c] == b;
    assert c == b.Pos();
  }

}
