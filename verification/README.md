# Patchwork tile helper — a verified model

The Patchwork helper is a small web app for the board game Patchwork. Players draw
the game's pieces (tiles) on a 5x5 grid. They record each piece's button income, button
cost and time cost, and then track which pieces are still available and which were
bought during the current game. A table of per-piece figures helps them decide what to
buy. This project models the app's logic in Dafny and proves its properties:

- `js_number.dfy` (module `JsNumber`): the JavaScript number handling the pages rely on.
  - `parseInt(s, 10)` is modelled on unbounded integers: leading white space, one
    optional sign, the longest run of decimal digits, and `None` for NaN.
  - The `v || d` fallback is modelled, and so is `String(n)` as the plain decimal
    rendering of an integer. Doubles are not: see "Left out".
- `shapes.dfy` (module `Shapes`): the cell ⇄ grid-child encoding `index = y * 5 + x`.
  - It also holds the drawing grid as a class over an array of 25 "active" flags, with
    `createGrid`, the click toggle, `loadShapeIntoGrid` and `getGridShape`.
  - It models what `renderShape` lights.
- `pieces.dfy` (module `Pieces`): the piece record and the list operations the pages use.
  - These are `filter` by id, `findIndex`, `splice` and the `find` + `Object.assign` edit.
  - It also models the form fields' `parseInt(value, 10) || 0`.
- `scoring.dfy` (module `Scoring`): `computeStats`, with the 53 time spaces of the board.
- `patchwork_client.dfy` (module `PatchworkClient`): the main page.
  - The state modelled as fields of class `TileLibrary` is the library, the purchases,
    the available list, `nextId` and the piece open in the editor.
  - Each event handler that changes these is a method of that class. The age input's
    `currentAge` is not a field: it is the age parameter of `ComputeStats` (see "Left
    out").
  - Every handler keeps this invariant: the available list is exactly the library pieces
    whose id was not bought, in library order.
- `tile_app.dfy` (module `TileApp`): the earlier single-list page, with create and
  purchase-by-removal over one list whose ids stay strictly increasing.
- `purchased_view.dfy` (module `PurchasedView`): the purchased-pieces page. It covers the
  `{ key, asc }` sort state, the key-based sort of the list, and Return, which drops a
  piece by id.
- `server_args.dfy` (module `ServerArgs`): the server's port and host.
  - These come from `PORT`/`HOST` and then from `--port`/`--host` command-line options.
  - The option loop is modelled as a method, proved against a left-to-right reading
    function.

Pieces are values in the model. The page shares one object between the library, the
available list and the purchases, and mutates it. The model instead replaces the first
entry carrying that id in each list. A missing colour is the empty string, which is just
as falsy as `undefined` to `!p.color` and `p.color || …`.

Array.prototype.sort with a comparator is modelled by an insertion sort. ECMAScript
(since the 2019 edition) requires that sort to be stable, and the insertion sort is
stable too. Sorting a list that is already in order therefore leaves it exactly as it was.

## Model

| member | source | states |
|---|---|---|
| JsNumber.ParseIntOpt | patchwork_server.js:32 | `parseInt` of a missing variable (`undefined`) is NaN |
| JsNumber.OrDefault | public/patchwork_client.js:17 | `v \|\| d` yields `v` for a non-zero number and `d` for NaN and for 0 |
| JsNumber.ParseInt | public/patchwork_client.js:227-229 | `parseInt(s, 10)` is NaN exactly when no decimal digit follows the leading white space and one optional sign; a negative result needs a leading `-` |
| JsNumber.IntToString | public/patchwork_client.js:43 | `String(n)` is non-empty, starts with `-` exactly when n is negative, and is otherwise decimal digits |
| JsNumber.ParseIntReadsIntToString | public/patchwork_client.js:43 | `parseInt` reads back the decimal rendering of every integer n as n, after any leading white space and before any non-digit tail |
| JsNumber.ParseIntOfIntToString | public/patchwork_client.js:43 | `parseInt` of the decimal rendering of n is n, for every integer n (see "Left out" for doubles) |
| JsNumber.NoDigitIsNaN | patchwork_server.js:38-39 | text without a decimal digit parses to NaN |
| JsNumber.StoredNumberRestored | public/patchwork_client.js:17 | a stored `nextId` of `n` reloads as `n`, except that 0 becomes the fallback 1 |
| Shapes.CellAt | public/patchwork_client.js:81-82 | grid child `i` stands for a cell whose index is `i`, and that cell is on the board when `i < 25` |
| Shapes.CellAtIndex | public/patchwork_client.js:69 | for an on-board cell, `y * 5 + x` is a child number below 25, and decoding it gives the cell back |
| Shapes.ShapeOf | public/app.js:41-51 | the read-off shape is row-major, has at most one cell per child, and holds exactly the cells of the active children |
| Shapes.GridShapeWellFormed | public/app.js:41-51 | a shape read off the 25-child grid has at most 25 cells, no repeats, all in bounds, in row-major order |
| Shapes.LoadAfterRead | public/patchwork_client.js:66-87 | loading a read-off shape lights exactly the children that were lit |
| Shapes.ReadAfterLoad | public/patchwork_client.js:66-87 | loading in-bounds cells and reading back gives the same set of cells, in row-major order |
| Shapes.ReadAfterLoadExact | public/patchwork_client.js:66-87 | an in-bounds row-major shape survives load + read unchanged |
| Shapes.RowMajorUnique | public/patchwork_client.js:77-87 | two row-major lists with the same cells are equal |
| Shapes.Loaded | public/patchwork_client.js:66-75 | 25 flags; every cell whose index `y * 5 + x` names a child lights that child, in bounds or not; an empty shape lights nothing |
| Shapes.Rendered | public/patchwork_client.js:95-101 | 25 flags; every in-bounds cell of the shape lights its child; an empty shape lights nothing |
| Shapes.RenderedAgreesWithLoaded | public/patchwork_client.js:95-101 | for in-bounds shapes, `renderShape`'s membership test and `loadShapeIntoGrid`'s index lighting agree |
| Shapes.RenderAfterRead | public/app.js:58-64 | the preview of a drawn shape lights exactly the drawn children |
| Shapes.LoadWrapsOutOfRangeColumn | public/patchwork_client.js:69-73 | a cell with `x = 7` lights child 7 (the next row) in the editor, while the preview shows nothing there |
| Shapes.DrawingGrid.constructor | public/patchwork_client.js:50-59 | a fresh grid has 25 inactive children |
| Shapes.DrawingGrid.Clear | public/patchwork_client.js:50-59 | every child becomes inactive |
| Shapes.DrawingGrid.Toggle | public/patchwork_client.js:56 | a click flips exactly the clicked child |
| Shapes.DrawingGrid.LoadShape | public/patchwork_client.js:66-75 | afterwards a child is active iff some cell's `y * 5 + x` equals its number, and indices naming no child are skipped |
| Shapes.DrawingGrid.GetShape | public/patchwork_client.js:77-87 | returns the cells of the active children in child order |
| Pieces.FormNumber | public/patchwork_client.js:227-229 | a form number is the parsed integer, or 0 when the text is not a number |
| Pieces.WithoutIds | public/patchwork_client.js:23 | `filter` by a set of ids, keeping the entries whose id is not in it; its properties are stated by `WithoutIdsKeepsOthers` |
| Pieces.RemoveId | public/purchased_client.js:115 | `filter(p => p.id !== id)`: a piece is in the result exactly when it is in the list and has another id |
| Pieces.RemoveAt | public/app.js:124 | `splice(k, 1)`: one entry fewer, the entry at k leaves the multiset once, earlier entries keep their place and later ones move up by one |
| Pieces.WithoutIdsKeepsOthers | public/patchwork_client.js:186-188 | the filter drops exactly the entries with those ids, and keeps every other entry as often as it occurred and in its order |
| Pieces.IndexOf | public/patchwork_client.js:158 | `findIndex` returns the first position holding the id, or -1 when no entry has it |
| Pieces.ReplaceFirst | public/patchwork_client.js:232-235 | only the first entry with the piece's id is overwritten; length and all other entries are unchanged |
| Pieces.ReplaceFirstAt | public/patchwork_client.js:223-226 | when the id is present, overwriting its first entry is an update at its `findIndex` position |
| Pieces.ReplaceFirstKeepsIds | public/patchwork_client.js:233-235 | mirroring an edit changes no id at any position |
| Pieces.WithoutIdsKeepsDistinct | public/patchwork_client.js:186 | filtering keeps ids distinct |
| Pieces.RemoveIdIsRemoveAt | public/app.js:121-124 | with distinct ids, `splice` at the `findIndex` position equals filtering the id out |
| Pieces.WithoutIdsReplaceFirst | public/patchwork_client.js:232-235 | filtering by ids commutes with overwriting the first entry of an id |
| Scoring.ComputeStats | public/patchwork_client.js:109-116 | area is the cell count and net points are buttons minus cost. `pointsPerCost` times cost is buttons, and is buttons itself when cost is 0. `pointsPerCostPerArea` times cost·area is buttons, and is 0 when cost or area is 0. `valid` holds iff age + time ≤ 53 |
| Scoring.ValidityOnlyExpires | public/app.js:77-78 | a piece that cannot be bought at some age cannot be bought at any later age |
| PatchworkClient.WithDefaultColor | public/patchwork_client.js:21 | a colourless piece gets `#4caf50`, only the colour can change, and a coloured piece is untouched |
| PatchworkClient.ApplyDefaultColor | public/patchwork_client.js:21-22 | every piece gets the default colour if it had none, ids are kept, and a list whose pieces are all coloured is returned unchanged (applying it twice is applying it once) |
| PatchworkClient.AvailableFrom | public/patchwork_client.js:23 | available is the library pieces whose id was not bought, in library order. Its ids are a subset of the library's and disjoint from the purchases |
| PatchworkClient.PurchaseKeepsStore | public/patchwork_client.js:157-166 | buying an available piece keeps the stored ids below `nextId` and the available list derived |
| PatchworkClient.PurchaseKeepsAvailableDerived | public/patchwork_client.js:157-166 | buying the available piece with an id and splicing it out gives the available list of the new purchases |
| PatchworkClient.DeleteKeepsAvailableDerived | public/patchwork_client.js:184-192 | the cascading delete commutes with deriving the available list |
| PatchworkClient.CreateKeepsAvailableDerived | public/patchwork_client.js:237-249 | a new piece whose id nobody bought joins the end of the available list |
| PatchworkClient.EditKeepsAvailableDerived | public/patchwork_client.js:223-235 | mirroring an edit into library and purchases commutes with deriving the available list |
| PatchworkClient.NothingBoughtAllAvailable | public/patchwork_client.js:260-265 | with no purchases, every library piece is available, in order |
| PatchworkClient.SameIdsSameStore | public/patchwork_client.js:21-22 | filling in colours keeps the set of ids and their distinctness |
| PatchworkClient.TileLibrary.Load | public/patchwork_client.js:17-24 | `nextId` is the stored number or 1, colours are defaulted, available is derived and nothing is being edited. Consistent stored data gives a valid page |
| PatchworkClient.TileLibrary.Purchase | public/patchwork_client.js:157-166 | the first available piece with the id is appended to the purchases and spliced out of the available list. An absent id changes nothing, the library is untouched and the invariant is kept |
| PatchworkClient.TileLibrary.Delete | public/patchwork_client.js:184-192 | every entry with the id leaves the library, the available list and the purchases, and the invariant is kept |
| PatchworkClient.TileLibrary.BeginEdit | public/patchwork_client.js:171-179 | the form now edits that id and no list changes |
| PatchworkClient.TileLibrary.StopEditing | public/patchwork_client.js:207-215 | the form edits no piece (Add Piece, and Cancel at 255-258) and no list changes |
| PatchworkClient.TileLibrary.Save | public/patchwork_client.js:217-253 | an empty shape changes nothing. Otherwise an edit overwrites the library entry's fields and mirrors it into the available and purchased lists, and a create appends a piece with the old `nextId` to library and available, with non-numeric fields read as 0. The invariant is kept |
| PatchworkClient.EditKeepsStore | public/patchwork_client.js:223-235 | an edit keeps library ids distinct and below `nextId`, and keeps the available list derived from library and purchases |
| PatchworkClient.TileLibrary.MirrorEdit | public/patchwork_client.js:223-235 | the edit branch: library entry replaced, `Object.assign` onto the same-id entries of available and purchases |
| PatchworkClient.CreateKeepsStore | public/patchwork_client.js:237-249 | pushing a piece with id `nextId` and incrementing `nextId` keeps the stored ids below `nextId` and the new piece available |
| PatchworkClient.TileLibrary.AddNew | public/patchwork_client.js:237-249 | the create branch: `nextId` increments and the piece is pushed onto library and available |
| PatchworkClient.TileLibrary.NewGame | public/patchwork_client.js:260-265 | the purchases become empty and available becomes a copy of the library |
| TileApp.IdsIncreasingAppendRemove | public/app.js:155-163 | appending a piece whose id exceeds all present ids, or splicing any entry out, keeps ids strictly increasing |
| TileApp.PurchaseRemovesThatId | public/app.js:120-127 | with increasing ids, the `findIndex` + `splice` removes exactly the entries with that id |
| TileApp.SaveKeepsConsistent | public/app.js:155-163 | pushing a piece with id `nextId` and incrementing `nextId` keeps ids increasing and below `nextId` |
| TileApp.PurchaseKeepsConsistent | public/app.js:120-127 | the `findIndex` + `splice` keeps ids increasing and removes exactly that id |
| TileApp.PieceList.constructor | public/app.js:17-18 | `nextId` is 1 and the list is empty |
| TileApp.PieceList.Save | public/app.js:149-166 | an empty shape changes nothing. Otherwise a piece with the old `nextId` and the form numbers is appended and `nextId` increments. Ids stay increasing and below `nextId` |
| TileApp.PieceList.Purchase | public/app.js:120-127 | the entry at the `findIndex` position is spliced out, and an absent id changes nothing. On a valid list this is exactly removing that id, and the invariant is kept |
| PurchasedView.Insert | public/purchased_client.js:76-80 | inserting adds exactly one copy of the piece |
| PurchasedView.InsertKeepsOrdered | public/purchased_client.js:76-80 | inserting into a list ordered by the comparator keeps it ordered |
| PurchasedView.SortValue | public/purchased_client.js:61-72 | the key `buttons` picks the buttons, `cost` the cost, `time` the time, and any other key gives 0 |
| PurchasedView.Before | public/purchased_client.js:76-80 | the comparator is not positive for `(a, b)`; pieces with equal sort values may stay in either order |
| PurchasedView.ComparatorConsistent | public/purchased_client.js:76-80 | the comparator is consistent: any two pieces compare one way or the other, the order is transitive, and descending is ascending reversed |
| PurchasedView.SortBy | public/purchased_client.js:76-80 | the sorted list is a permutation of the input, non-decreasing by the key's value when ascending and non-increasing otherwise |
| PurchasedView.SortedForDisplay | public/purchased_client.js:74-81 | with no key the list is unchanged; with a key it is a permutation ordered by that key |
| PurchasedView.SortOrderedIsIdentity | public/purchased_client.js:76-80 | sorting an already ordered list returns it unchanged |
| PurchasedView.UnknownKeyKeepsOrder | public/purchased_client.js:61-72 | a key other than buttons/cost/time sorts every piece as 0 and leaves the order as it was |
| PurchasedView.WithoutIdsKeepsOrdered | public/purchased_client.js:115 | filtering pieces out of an ordered list leaves it ordered |
| PurchasedView.PurchasedPage.constructor | public/purchased_client.js:15-21 | the stored list with no sort key and ascending order |
| PurchasedView.PurchasedPage.ClickHeader | public/purchased_client.js:26-35 | the same key flips the direction, and another key becomes the key, ascending. The list is then sorted by it: a permutation, in order |
| PurchasedView.PurchasedPage.Return | public/purchased_client.js:114-118 | every purchase with the id leaves the list, and the table is re-sorted. On a table already in order the others keep their order |
| ServerArgs.InitialConfig | patchwork_server.js:32-33 | the port is `PORT` when it parses to a non-zero number, otherwise 3000. The host is `HOST` when set and non-empty, otherwise "0.0.0.0" |
| ServerArgs.Segment | patchwork_server.js:44 | the text before the first `=`, which is `arg.split('=')[1]` of an `=` option |
| ServerArgs.Step | patchwork_server.js:35-50 | each pass of the loop advances 1 or 2 arguments and never past the end |
| ServerArgs.ParseArgs | patchwork_server.js:32-54 | the loop computes the left-to-right reading of the arguments, starting from the environment defaults |
| ServerArgs.ReadOption | patchwork_server.js:36-53 | one pass of the loop body does what the option at `i` asks for and advances past a consumed value |
| ServerArgs.ApplyOption | patchwork_server.js:36-53 | one pass changes the port only for a port option and the host only for a host option |
| ServerArgs.ParseFrom | patchwork_server.js:35-54 | the left-to-right reading: apply the option at the front, skip `Step` arguments, repeat; its properties are the lemmas that follow |
| ServerArgs.HostComesFromOptions | patchwork_server.js:48-53 | the final host is the one the environment gave or the value of some `--host` or `--host=` argument |
| ServerArgs.PassAt | patchwork_server.js:35-54 | the reading from position `i` is one option's effect followed by the reading from past it |
| ServerArgs.ParseFromAppend | patchwork_server.js:35-54 | reading `a + b` is reading `a` then `b`, unless `a` ends in a flag still waiting for its value |
| ServerArgs.LastPortWins | patchwork_server.js:37-42 | a final `--port n` overrides all earlier options and the environment |
| ServerArgs.LastHostWins | patchwork_server.js:48-50 | a final `--host h` with h non-empty sets the host to h |
| ServerArgs.LastHostTextWins | patchwork_server.js:51-52 | a final `--host=h` with no `=` in h sets the host to h |
| ServerArgs.HostTextPass | patchwork_server.js:51-52 | one pass over `--host=t` sets the host to the text of t before a second `=` and reads on from the next argument |
| ServerArgs.PortNeedsPortOption | patchwork_server.js:35-54 | without a port option the port stays as the environment set it |
| ServerArgs.HostNeedsHostOption | patchwork_server.js:35-54 | without a host option the host stays as the environment set it |
| ServerArgs.OtherArgumentsIgnored | patchwork_server.js:35-54 | arguments that are none of the four options change nothing |
| ServerArgs.TrailingFlagIgnored | patchwork_server.js:37-50 | a bare `--port` or `--host` as the last argument changes nothing |
| ServerArgs.FlagBeforeEmptyIgnored | patchwork_server.js:37-50 | a flag followed by an empty argument takes no value, and both are passed over |
| ServerArgs.PortFlagPass | patchwork_server.js:37-42 | one pass over `--port v` consumes v and takes the port from it unless it is NaN |
| ServerArgs.PortTextPass | patchwork_server.js:43-47 | one pass over `--port=t` takes the port from the text before a second `=` unless it is NaN |
| ServerArgs.NonNumericPortIgnored | patchwork_server.js:37-42 | `--port v` with a value that is not a number leaves the port unchanged, and v is consumed with its flag |
| ServerArgs.NonNumericPortTextIgnored | patchwork_server.js:43-47 | `--port=t` whose text is not a number leaves the port unchanged |
| ServerArgs.PortSwallowsNextOption | patchwork_server.js:37-42 | in `--port --host x` the host flag is consumed as the port's value, so nothing changes |
| ServerArgs.PortTextReadsNumber | patchwork_server.js:43-47 | `--port=` reads the number before a second `=` whatever follows |
| ServerArgs.PortTextEndsAtSecondEquals | patchwork_server.js:43-47 | `--port=80=90` sets the port to 80 |
| ServerArgs.EmptyHostOption | patchwork_server.js:51-52 | `--host=` sets the host to the empty string |
| ServerArgs.ZeroPortRefusedFromEnvironment | patchwork_server.js:32 | `PORT=0` is falsy, so the port falls back to 3000 |
| ServerArgs.ZeroPortFromCommandLine | patchwork_server.js:37-42 | `--port` with a text reading as 0 sets the port to 0, since only NaN is refused |
| ServerArgs.ZeroText | patchwork_server.js:38 | `parseInt("0", 10)` is 0 |

## Left out

- The DOM is not modelled: building rows and previews, CSS and the colour preview, `toFixed(2)` formatting, `alert`, `console.debug` and page navigation. Grid children are modelled only by their active flags and preview cells by their membership test.
- `localStorage` and `JSON.parse`/`JSON.stringify` are browser I/O. Stored values are parameters of the page-load constructors, and the writes (`saveLibrary`, `savePurchased`) are not modelled.
- `currentAge` (the page state set by the age input's handler, public/patchwork_client.js:200-204 and public/app.js:134-138) is not a field of `TileLibrary` or `PieceList`; the model passes the current age to `ComputeStats` as a parameter, so the handler itself, and the rows it re-renders, are not modelled.
- Scoring.ComputeStats: the age is an integer. The source's age comes from `parseInt` on the age input and can be NaN, which makes `valid` false; that case is not modelled.
- The Purchase button's `disabled = !stats.valid` gating is not modelled; `Purchase` methods accept any id, as the click handler itself does.
- JsNumber.ParseInt: integers are exact. Digit strings too long for a double (rounding, and `Infinity` past about 309 digits) are not modelled.
- JsNumber.IntToString: the model writes every integer in full, and `nextId` is an unbounded integer. In JavaScript, integer-valued numbers are exact only up to 2^53, where `nextId++` stops increasing and new pieces would reuse an id. From 1e21 on, `String(n)` uses exponent form (`"1e+21"`), which `parseInt` reads back as 1. The round trip `ParseIntOfIntToString`, `StoredNumberRestored` and the id invariants hold for the integers below these limits, not beyond them.
- Scoring.ComputeStats: the ratios are exact rationals rather than doubles.
- PurchasedView.SortBy: Array.prototype.sort's own algorithm is not modelled. The insertion sort stands in for it, and only its permutation, its order and, through stability, its identity on an already ordered list are relied on.
- Aliasing between lists is not modelled. Where the page mutates a piece object that two lists share (the library and available lists after the load filter, and a bought piece in library and purchases), the model overwrites the first same-id entry of each list. With distinct ids this has the same outcome.
- `patchwork_database.js` is not part of this model (an SQLite layer). `patchwork_server.js` outside the port, host and option loop (dotenv, Helmet, logging, static serving, listening) is not part of this model either.
