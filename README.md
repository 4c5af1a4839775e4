# Voxel editor block store

This project models the game logic of a small browser voxel editor written
as a single script (`main.js`). The script keeps a dictionary `blocks` of
the cubes in the world, keyed by the string `x,y,z`. At start-up it seeds
the dictionary with a flat world: a 16 by 16 square with dirt at y = 0 and
grass at y = 1. A mouse press breaks the block under the crosshair (left
button) or places the selected block type on the face it points at (right
button). Keys "1" to "9" and clicks on the hotbar slots change the selected
block type `selectedBlock`.

The model is in five files:

- `options.dfy`: module `Options`, an optional value.
- `keys.dfy`: module `Keys`. It models the dictionary key `${x},${y},${z}`
  and a decoder for it. It proves that the key is injective on integer
  triples, so the model can key its map by the triple itself.
- `blocks.dfy`: module `Blocks`. It holds the block record, the store as a
  map from cell to record, and the edit rules as functions of the store,
  with the lemmas about them. It also holds the cell set of the seeded slab
  and its size.
- `palette.dfy`: module `Palette`. It models the keydown guard, written in
  the source as a comparison of two strings (`e.key >= "1" && e.key <= "9"`),
  and `parseInt(e.key) - 1`.
- `game.dfy`: module `Game`. Class `World` has the script's two globals,
  `blocks` and `selectedBlock`, as fields, and one method per function or
  handler of the script that assigns them. `GenerateFlatWorld` keeps the
  script's two nested loops, with their invariants. `BreakAndReplace` is a
  short session that uses the contracts: start-up, break, key "5", place.

The ray cast is not modelled. Each mouse handler takes its result as a
parameter: no hit, or the struck block's position and the struck face's
normal, which is one of six axis directions.

## Model

| member | source | states |
|---|---|---|
| Keys.Key | main.js:65 | the key of a cell is at least five characters long and holds exactly two commas, the separators of the three numbers |
| Keys.KeyRoundTrip | main.js:65 | ParseKey recovers every cell from its key `${x},${y},${z}`, negative coordinates included |
| Keys.KeyInjective | main.js:65-69 | two cells have the same dictionary key exactly when they are the same cell, so createBlock and removeBlock address one entry per cell |
| Keys.IntRoundTrip | main.js:65 | an integer written with a minus sign and its decimal digits reads back as itself |
| Keys.NatRoundTrip | main.js:65 | the decimal digits of a natural number have that number as their value |
| Keys.IntToString | main.js:65 | the text of a coordinate is non-empty, has no comma, and starts with '-' exactly when the coordinate is negative |
| Blocks.WithBlock | main.js:59-66 | createBlock leaves the cell holding a record of its position and type whether it was occupied or not; every other cell is unchanged; the store grows by one exactly when the cell was empty; records stay under their own position |
| Blocks.WithoutBlock | main.js:68-75 | removeBlock leaves the cell empty and every other cell unchanged; an empty cell leaves the store as it was; the store shrinks by one exactly when the cell was occupied |
| Blocks.RemoveIdempotent | main.js:68-75 | removing a cell twice is removing it once |
| Blocks.CreateOverwrites | main.js:59-66 | a second createBlock on a cell replaces the first; nothing of the first survives |
| Blocks.CreateThenRemove | main.js:59-75 | createBlock followed by removeBlock on the same cell leaves what removeBlock alone leaves |
| Blocks.FlatWorldSize | main.js:77-86 | the seeded world has WORLD_WIDTH * WORLD_DEPTH * 2 = 512 blocks, each under its own position, dirt on the bottom layer and grass on top |
| Blocks.SlabKeys | main.js:78-81 | a store whose cells are exactly the two layers over a w by d square has w * d * 2 entries |
| Blocks.SlabSize | main.js:78-81 | the cells of the two layers over a w by d square number w * d * 2 |
| Blocks.Adjacent | main.js:102-103 | position + face normal is a different cell at distance one along one axis |
| Blocks.MouseDownEffect | main.js:92-107 | with a hit, button 0 empties the struck cell and button 2 writes the selected type on the cell across the struck face, each leaving every other cell unchanged; without a hit, or with any other button, the store is unchanged |
| Blocks.PlaceBesideHit | main.js:101-104 | placing against a stored block keeps that block, and the store grows by one exactly when the cell across the face was empty |
| Blocks.BreakRemovesOne | main.js:99-100 | breaking a stored block shrinks the store by exactly one |
| Blocks.BreakStruckRecord | main.js:94-100 | in a store whose records sit under their own positions, breaking at the struck mesh's position removes that very record, and the store shrinks by one |
| Palette.JsLess | main.js:121 | the string order is decided by the first characters whenever they differ, and nothing comes before the empty string |
| Palette.IsSelectKey | main.js:121 | the keydown guard admits exactly the keys that start with '1' to '8', and the key "9" |
| Palette.SelectKeyShape | main.js:121 | the two string comparisons `key >= "1"` and `key <= "9"` hold together exactly for the strings that start with '1' to '8', and the string "9" |
| Palette.LeadingDigits | main.js:122 | the part of the key parseInt reads is its maximal leading run of digits |
| Palette.LeadingNumber | main.js:122 | parseInt of a key starting with '1' to '9' is at least 1, and of a one-digit key is that digit's value |
| Palette.KeySelection | main.js:120-123 | a key that starts with '1' to '8', or is "9", selects parseInt(key) - 1; every other key keeps the selection |
| Palette.DigitKeySelects | main.js:120-123 | key "1" to "9" selects palette entry 0 to 8 |
| Palette.OtherKeyIgnored | main.js:121 | every other one-character key leaves the selection unchanged |
| Palette.SelectionNotNegative | main.js:121-123 | whatever key passes the guard, the new selection is not negative |
| Palette.NumberOfNonZeroLead | main.js:122 | a digit string that does not start with 0 has a value of at least 1 |
| Game.World.constructor | main.js:20-86 | at start-up the store is exactly the flat world of 512 blocks and entry 0 is selected |
| Game.World.CreateBlock | main.js:59-66 | the store becomes WithBlock of the old store; the selection is unchanged |
| Game.World.RemoveBlock | main.js:68-75 | the store becomes WithoutBlock of the old store; the selection is unchanged |
| Game.World.GenerateFlatWorld | main.js:77-84 | after the nested loops the store holds the slab's seeded block at every slab cell and its old entry at every other cell |
| Game.ColumnStep | main.js:79-82 | one pass of the inner loop extends the seeded region by the column (x, z) |
| Game.RowStep | main.js:78-79 | finishing row x of the inner loop is starting row x + 1 |
| Game.World.OnMouseDown | main.js:92-107 | the store becomes MouseDownEffect of the old store, the hit, the button and the selection; the selection is unchanged |
| Game.World.OnSlotClick | main.js:112-114 | a click on slot i selects entry i; the store is unchanged |
| Game.World.OnKeyDown | main.js:120-123 | the selection becomes KeySelection of the key and the old selection; the store is unchanged |

## Left out

- Rendering is not modelled: the three.js scene, camera, renderer, lights, texture loading and materials. Each block's mesh is reduced to the record kept in its `userData`.
- The ray cast (`raycaster.intersectObjects`) is not modelled. Its first hit is a parameter of the mouse handler. The normals are taken to be the six unit axis vectors of a box face.
- `scene.add` and `scene.remove` are not modelled. So the model does not show that a createBlock on an occupied cell leaves the old mesh visible in the scene, outside the dictionary.
- The dictionary entry is modelled as the mesh's position and type, not as the mesh itself. The test `if (block)` in removeBlock is read as "the key is present", since a mesh is always truthy.
- Pointer-lock controls, the `keys` table of pressed keys, and the animation loop with its movement physics are not modelled. They do not touch `blocks` or `selectedBlock`.
- The hotbar's CSS class changes are DOM effects and are not modelled, in either handler. So the model does not show that `document.querySelector` finds no slot when key "9" is pressed on a page with fewer than nine slots. In that case the script throws after `selectedBlock` has been assigned, and the model's new state is still right.
- The `contextmenu` handler only suppresses the browser menu and is not modelled.
- Blocks.WithBlock: coordinates are integers, not JavaScript doubles. All positions the script produces are integers: seeded, or an integer position plus a unit normal.
- Keys.IntToString: writes every integer in plain decimal. JavaScript switches to exponent notation from 1e21, and doubles lose integer precision above 2^53. Neither range is reachable by editing near the seeded world.
- Palette.LeadingNumber: models parseInt only on strings that start with a digit. The guard admits no others, so leading blanks, a sign, a "0x" prefix and NaN never arise.
- Palette.JsLess: compares Dafny characters, which are Unicode scalar values. JavaScript compares UTF-16 code units. The two orders can differ only between characters above U+D7FF. The guard compares only against "1" and "9", where both orders give the same outcome for every key.
- Keys: the store is keyed by the cell triple rather than by the key string. This is justified by Keys.KeyInjective.
- The number of hotbar slots is set by the page's HTML, which is not part of this model. OnSlotClick accepts any slot index.
- `BLOCK_SIZE` and `WORLD_HEIGHT` affect only the mesh geometry, or nothing, and are not modelled.
