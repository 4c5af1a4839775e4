/**
 The script's global state and the handlers that change it.

 The block dictionary `blocks` and the palette choice `selectedBlock` are
 globals of the script; here they are the two fields of class World, and
 each function of the script that assigns them is a method. Every method
 states its new state through the functions of modules Blocks and
 Palette, whose lemmas carry the properties.
 */
module Game {
  import opened Options
  import opened Keys
  import opened Blocks
  import opened Palette

  /** The cells generateFlatWorld has written once its loops reach column x, row z. */
  predicate Written(c: Coord, x: int, z: int) {
    0 <= c.1 < 2 &&
    ((0 <= c.0 < x && 0 <= c.2 < WorldDepth) || (c.0 == x && 0 <= c.2 < z))
  }

  /** At cell c, the store holds what generateFlatWorld has written so far over `before`. */
  ghost predicate SeededAt(m: Store, before: Store, x: int, z: int, c: Coord) {
    && (c in m <==> c in before || Written(c, x, z))
    && (c in m ==> m[c] == if Written(c, x, z) then SlabBlock(c) else before[c])
  }

  ghost predicate SeededUpTo(m: Store, before: Store, x: int, z: int) {
    forall c :: SeededAt(m, before, x, z, c)
  }

  /** One pass of the inner loop: the dirt and grass blocks of column (x, z). */
  lemma ColumnStep(m: Store, before: Store, x: int, z: int)
    requires 0 <= z && SeededUpTo(m, before, x, z)
    ensures SeededUpTo(WithBlock(WithBlock(m, x, 0, z, Dirt), x, 1, z, Grass), before, x, z + 1)
  {
    var r := m[(x, 0, z) := Block(x, 0, z, Dirt)][(x, 1, z) := Block(x, 1, z, Grass)];
    var next := z + 1;
    forall c
      ensures SeededAt(r, before, x, next, c)
    {
      if c == (x, 0, z) || c == (x, 1, z) {
        assert Written(c, x, z + 1) && r[c] == SlabBlock(c);
      } else {
        assert SeededAt(m, before, x, z, c);
        assert Written(c, x, z + 1) == Written(c, x, z);
      }
    }
  }

  /** The end of a row of the inner loop is the start of the next one. */
  lemma RowStep(m: Store, before: Store, x: int)
    requires 0 <= x && SeededUpTo(m, before, x, WorldDepth)
    ensures SeededUpTo(m, before, x + 1, 0)
  {
    var next := x + 1;
    forall c
      ensures SeededAt(m, before, next, 0, c)
    {
      assert SeededAt(m, before, x, WorldDepth, c);
      assert Written(c, x, WorldDepth) == Written(c, x + 1, 0);
    }
  }

  class World {
    var blocks: Store
    var selectedBlock: int

    /**
     Every record sits under its own position. The mousedown handler relies on
     it when it takes the struck mesh's position as the cell to edit (see
     Blocks.BreakStruckRecord).
     */
    ghost predicate Valid()
      reads this
    {
      WellFormed(blocks)
    }

    /** Script start-up: an empty dictionary, palette entry 0, then the flat world. */
    constructor ()
      ensures Valid()
      ensures IsFlatWorld(blocks) && |blocks| == 512
      ensures selectedBlock == 0
    {
      blocks := map[];
      selectedBlock := 0;
      new;
      GenerateFlatWorld();
      FlatWorldSize(blocks);
    }

    /** createBlock: writes the cell, replacing whatever was there. */
    method CreateBlock(x: int, y: int, z: int, t: int)
      requires Valid()
      modifies this
      ensures Valid()
      ensures blocks == WithBlock(old(blocks), x, y, z, t)
      ensures selectedBlock == old(selectedBlock)
    {
      blocks := blocks[(x, y, z) := Block(x, y, z, t)];
    }

    /** removeBlock: deletes the cell's entry if there is one. */
    method RemoveBlock(x: int, y: int, z: int)
      requires Valid()
      modifies this
      ensures Valid()
      ensures blocks == WithoutBlock(old(blocks), x, y, z)
      ensures selectedBlock == old(selectedBlock)
    {
      var key := (x, y, z);
      if key in blocks {
        blocks := blocks - {key};
      }
    }

    /** generateFlatWorld: a dirt layer at y = 0 and a grass layer at y = 1 over the square. */
    method GenerateFlatWorld()
      requires Valid()
      modifies this
      ensures Valid()
      ensures forall c :: c in blocks <==> c in old(blocks) || InSlab(c)
      ensures forall c :: c in blocks ==> blocks[c] == if InSlab(c) then SlabBlock(c) else old(blocks)[c]
      ensures selectedBlock == old(selectedBlock)
    {
      for x := 0 to WorldWidth
        invariant Valid() && selectedBlock == old(selectedBlock)
        invariant SeededUpTo(blocks, old(blocks), x, 0)
      {
        for z := 0 to WorldDepth
          invariant Valid() && selectedBlock == old(selectedBlock)
          invariant SeededUpTo(blocks, old(blocks), x, z)
        {
          ghost var pre := blocks;
          CreateBlock(x, 0, z, Dirt);
          CreateBlock(x, 1, z, Grass);
          ColumnStep(pre, old(blocks), x, z);
        }
        RowStep(blocks, old(blocks), x);
      }
      forall c
        ensures c in blocks <==> c in old(blocks) || InSlab(c)
        ensures c in blocks ==> blocks[c] == if InSlab(c) then SlabBlock(c) else old(blocks)[c]
      {
        assert SeededAt(blocks, old(blocks), WorldWidth, 0, c);
        assert Written(c, WorldWidth, 0) == InSlab(c);
      }
    }

    /**
     The mousedown handler, given the first hit of the ray cast (None when the
     ray meets no block) and the button: 0 breaks the struck block, 2 places
     the selected type on the cell across the struck face.
     */
    method OnMouseDown(hit: Option<Hit>, button: int)
      requires Valid()
      modifies this
      ensures Valid()
      ensures blocks == MouseDownEffect(old(blocks), hit, button, old(selectedBlock))
      ensures selectedBlock == old(selectedBlock)
    {
      if hit.Some? {
        var pos := hit.value.pos;
        if button == LeftButton {
          RemoveBlock(pos.0, pos.1, pos.2);
        } else if button == RightButton {
          var target := Adjacent(pos, hit.value.normal);
          CreateBlock(target.0, target.1, target.2, selectedBlock);
        }
      }
    }

    /** A click on hotbar slot i selects palette entry i. */
    method OnSlotClick(i: nat)
      modifies this
      ensures selectedBlock == i
      ensures blocks == old(blocks)
    {
      selectedBlock := i;
    }

    /** The keydown handler: keys "1" to "9" select entries 0 to 8. */
    method OnKeyDown(key: string)
      modifies this
      ensures selectedBlock == KeySelection(key, old(selectedBlock))
      ensures blocks == old(blocks)
    {
      if IsSelectKey(key) {
        var i := LeadingNumber(key) - 1;
        selectedBlock := i;
      }
    }
  }

  /**
   A session from start-up: breaking a seeded grass block empties its cell,
   and placing on the dirt below it, across its top face, fills the cell
   again with the selected type.
   */
  method BreakAndReplace()
  {
    var w := new World();
    assert (3, 1, 4) in w.blocks && w.blocks[(3, 1, 4)].kind == Grass;
    w.OnMouseDown(Some(Hit((3, 1, 4), PosY)), LeftButton);
    assert (3, 1, 4) !in w.blocks;
    w.OnKeyDown("5");
    DigitKeySelects('5', 0);
    assert w.selectedBlock == 4;
    w.OnMouseDown(Some(Hit((3, 0, 4), PosY)), RightButton);
    assert w.blocks[(3, 1, 4)] == Block(3, 1, 4, 4);
    w.OnMouseDown(None, LeftButton);
    assert w.blocks[(3, 1, 4)] == Block(3, 1, 4, 4);
  }

}
