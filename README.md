# Five course labs, modelled and verified in Dafny

This project models the computational core of five independent Python labs:

- **lab0**: greyscale images as flat row-major pixel lists. It covers pixel
  addressing, edge-clamped reads, per-pixel maps, inversion, correlation with
  a kernel, and clipping into [0, 255] (`images.dfy`, `greyscale.dfy`).
- **lab1**: colour images and seam carving. It covers channel split and
  combine, colour filters built from greyscale ones, filter cascades,
  thresholding, the cumulative energy map, the minimum-energy seam, and seam
  removal (`colour.dfy`, `seam.dfy`). Its first helpers repeat lab0's text,
  so one `Images`/`Greyscale` model serves both.
- **lab2**: the co-star graph of a film database. It covers the actor lookup,
  "acted together", the neighbour map, the level-by-level search for actors
  with a given Bacon number (Kevin Bacon is id 4724), parent-chain path
  reconstruction, the actor-pair → film map, and the trivial branch of
  `actor_path` (`bacon.dfy`).
- **lab3**: the road graph. It covers building `Nodes`, `Edges` and `Dic` from
  way and node records, with the allowed highway types, default speed limits
  and one-way handling. Then the nearest-node snap, the highest speed between
  two nodes, and the best-first searches for the shortest route (by distance)
  and the fastest route (by time) (`roads.dfy`, `search.dfy`). The search by
  time is shown to return a fastest route when no distance is negative.
- **lab4**: N-dimensional Minesweeper. It covers nested boards with get and
  set, neighbourhoods and bounds, the list of all coordinates, a new game
  with bomb counts, `dig` with its recursive reveal and the
  ongoing/defeat/victory states, and rendering (`boards.dfy`, `coords.dfy`,
  `mines.dfy`).

`common.dfy` holds the shared `Option`/`Result` types and small sequence
helpers.

Code that fills lists in loops is modelled by methods with loops. Each such
method is proved equal to a specification function, and the properties are
proved about that function. A Python exception becomes the `Err` case of a
`Result`. The lab4 game dictionary, which `dig` updates in place, becomes the
class `Mines.Game`. Python's integers are unbounded, like Dafny's `int`.

## Model

| member | source | states |
|---|---|---|
| Images.PyIndex | lab0/lab.py:13-18 | a list index in [-n, n) names the element it counts to, from the end when negative |
| Images.GetPixelInside | lab0/lab.py:13-18 | inside the image, `get_pixel` reads list index x + width·y |
| Images.GetPixelRowAbove | lab1/lab.py:13-18 | reading row -1 wraps to the same column of the bottom row |
| Images.Clamp | lab0/lab.py:20-33 | the clamped value lies in [0, hi], equals the input when that is in range, and is the in-range value nearest to it |
| Images.GetPixelClamped | lab0/lab.py:20-33 | `get_pixel_outRange` reads the pixel at the coordinates clamped into the image, the nearest edge pixel |
| Images.SetPixel | lab0/lab.py:35-39 | `set_pixel` writes list index x + width·y (wrapped as Python does when negative) and nothing else |
| Images.SetThenGet | lab0/lab.py:35-39 | after setting (x, y) to c, reading (x, y) gives c and every other pixel keeps its value |
| Greyscale.MapPixelsAt | lab0/lab.py:41-59 | pixel (x, y) of the mapped image is `func` of pixel (x, y) of the original |
| Greyscale.ApplyPerPixel | lab0/lab.py:41-59 | the loops build a new image of the same height and width whose pixels are `func` of the original's |
| Greyscale.Inverted | lab0/lab.py:61-62 | every pixel c becomes 255 - c |
| Greyscale.InvertTwice | lab0/lab.py:61-62 | inverting twice gives back the original image |
| Greyscale.InvertExample | lab0/test.py:74-86 | [15, 75, 146, 195] inverts to [240, 180, 109, 60] |
| Greyscale.Correlated | lab0/lab.py:66-98 | the correlation keeps the height and width |
| Greyscale.CorrelatedAt | lab0/lab.py:66-98 | pixel (x, y) of the correlation, at list index x + width·y, is the sum over every kernel entry of kernel[i][z] times the clamped pixel at (x - k + z, y - k + i), k = len(kernel) // 2 |
| Greyscale.Correlate | lab0/lab.py:66-98 | the nested loops compute out(x, y) = Σ kernel[i][z] · clamped pixel (x - k + z, y - k + i), k = len(kernel) // 2 |
| Greyscale.KernelAt | lab0/lab.py:90-96 | the two inner loops sum kernel[i][z] times the clamped pixel at (x - k + z, y - k + i) over every kernel entry |
| Greyscale.CorrelateIdentity | lab0/test.py:106-127 | the 3×3 identity kernel leaves the image unchanged |
| Greyscale.CorrelateShift | lab0/test.py:129-152 | a 5×5 kernel with its single 1 at row 2, column 0 makes out(x, y) the clamped pixel at (x - 2, y) |
| Greyscale.CorrelateZero | lab0/lab.py:122-138 | correlating an all-zero image with any kernel, and clipping it, gives all zeros |
| Greyscale.Clip | lab0/lab.py:102-118 | the clipped value is in [0, 255]: negatives become 0, values above 255 become 255, in-range values are kept |
| Greyscale.ClipAllIdempotent | lab0/lab.py:102-118 | clipping twice is clipping once |
| Greyscale.RoundAndClip | lab0/lab.py:102-118 | the pixel array is rewritten in place to its clipped values |
| Boards.ShapedHas | lab4/lab.py:39-46 | on a board of shape dims, a coordinate reaches a cell through in-range list indices exactly when it is in bounds |
| Boards.ShapedPyHas | lab4/lab.py:39-55 | a coordinate with one component per axis reaches a cell exactly when every component is in [-d_i, d_i), and with a component outside that range `get_coordinate` raises IndexError; it reads, and `set_coordinate` writes, the cell at the coordinate with its negative components counted from the end |
| Boards.MakeBoard | lab4/lab.py:30-37 | the nested board has shape exactly dims and every cell holds the element |
| Boards.Set | lab4/lab.py:48-55 | after the update the cell holds the new value, every other cell keeps its value, and the shape is kept |
| Coords.InBounds | lab4/lab.py:82-89 | true exactly when 0 <= c_i < d_i on every axis |
| Coords.Neighbors | lab4/lab.py:65-80 | the recursion appends to the accumulator the in-bounds neighbours over the axes from `index` on |
| Coords.NeighborSquare | lab4/lab.py:57-63 | the list is the neighbourhood of the coordinate |
| Coords.NeighbourhoodMembers | lab4/lab.py:57-89 | the neighbourhood holds exactly the in-bounds coordinates within 1 on every axis, the cell itself included, with no repeats and at most 3^N entries |
| Coords.AllCoordsProps | lab4/lab.py:140-161 | the coordinate list holds exactly the in-bounds coordinates, in strictly increasing lexicographic order, with no repeats, and its length is the product of the dimensions |
| Coords.PossibleCoordinates | lab4/lab.py:140-161 | the loops build that coordinate list |
| Mines.Game.constructor | lab4/lab.py:6-28 | a new game is ongoing with an all-hidden mask; bomb cells hold a bomb and every other cell the number of bombs around it |
| Mines.Game.PlaceBomb | lab4/lab.py:22-27 | one pass of the bomb loop: afterwards the board holds, on every cell, the bomb or count for the bombs placed so far |
| Mines.ExpectedConsistent | lab4/lab.py:6-28 | on such a board no cell holding 0 has a bomb in its neighbourhood |
| Mines.BombInListIsCounted | lab4/lab.py:22-27 | a cell next to a listed bomb counts at least one bomb |
| Mines.HiddenAfterSet | lab4/lab.py:132 | revealing one hidden cell lowers the number of hidden cells by one |
| Mines.Game.RevealSquares | lab4/lab.py:126-138 | the cell is revealed, the mask only grows, the returned count is the number of cells that became visible, a non-zero cell reveals only itself, every newly revealed 0 cell has its whole neighbourhood revealed, starting from a safe cell no bomb is revealed, and the newly revealed cells, listed once each in reveal order from the dug cell, each lie in the neighbourhood of an earlier revealed cell that shows 0 |
| Mines.OrderAppend | lab4/lab.py:132-137 | the cells the dug cell reveals itself, followed by those its neighbour's dig reveals, are again a reveal order from the dug cell |
| Mines.Game.Dig | lab4/lab.py:91-124 | a finished game or a revealed cell returns 0 and changes nothing; a bomb reveals only that cell, returns 1 and sets defeat; a safe cell reveals as `reveal_squares` does (a non-zero cell only itself, otherwise spreading only through 0 cells and closing every revealed 0 cell's neighbourhood) and sets victory exactly when every safe cell is visible |
| Mines.Game.VictoryState | lab4/lab.py:163-177 | true exactly when every non-bomb cell is revealed |
| Mines.Game.RenderND | lab4/lab.py:432-473 | the rendering has the board's shape and each cell shows '_' when hidden without x-ray, ' ' for 0, and the cell's text otherwise |
| Mines.Render2D | lab4/lab.py:282-317 | rows × columns of the same cell texts |
| Mines.Render2DExample | lab4/lab.py:299-313 | the doctest board renders as [['_', '3', '1', '_'], ['_', '_', '1', '_']] |
| Mines.RenderAsciiLines | lab4/lab.py:319-344 | splitting the ASCII rendering at newlines gives back the rendered rows, each joined into one string |
| Mines.NatToStringRoundTrip | lab4/lab.py:315-316 | the decimal text of a count reads back as that count |
| Colour.CombineSplit | lab1/lab.py:261-289 | combining the three split channels reproduces the colour image |
| Colour.SplitCombine | lab1/lab.py:261-289 | splitting a combined image gives back the three channels |
| Colour.SplitColor | lab1/lab.py:261-274 | the loop builds the red, green and blue channel images |
| Colour.CombineImage | lab1/lab.py:276-289 | the loop builds the image whose pixel i is (red i, green i, blue i) |
| Colour.CombinedAt | lab1/lab.py:276-289 | pixel (x, y) of the combined image is the triple of the channels' pixels at (x, y) |
| Colour.ColorFilter | lab1/lab.py:237-247 | the colour filter combines the greyscale filter applied to each channel |
| Colour.ColourFilteredChannels | lab1/lab.py:237-247 | each channel of the filtered image is the greyscale filter of that channel |
| Colour.ColourFilteredIdentity | lab1/lab.py:237-247 | the identity filter leaves a colour image unchanged |
| Colour.FilterCascade | lab1/lab.py:303-315 | the cascade applies the filters left to right; an empty list is the identity |
| Colour.CascadeAppend | lab1/lab.py:303-315 | cascading fs then gs is the cascade of fs + gs |
| Colour.CascadeFirst | lab1/lab.py:303-315 | a cascade runs its first filter first |
| Colour.Threshold | lab1/lab.py:467-477 | values above `high` become 255, values below `low` become 0, the rest are kept |
| Colour.ThresholdIdempotent | lab1/lab.py:467-477 | for 0 <= low <= high <= 255, thresholding twice is thresholding once |
| Colour.ThresholdHelper | lab1/lab.py:467-477 | the loops build the thresholded image of the same dimensions |
| Colour.ThresholdColour | lab1/lab.py:459-465 | a colour image is thresholded channel by channel |
| Seam.Window | lab1/lab.py:396-415 | the columns read are x-1..x+1 cut to the row, always at least two wide, and (0, 2) for a one-column image |
| Seam.LeftmostMinCorrect | lab1/lab.py:400-415 | the scan with strict `<` from the sentinel finds the leftmost minimum of the window and its column |
| Seam.AdjacentMin | lab1/lab.py:389-416 | the result is the leftmost minimum, below the sentinel 256·height, of the window read in row y-1 |
| Seam.AdjacentPixels | lab1/lab.py:389-416 | the loop computes that leftmost minimum and its column |
| Seam.WindowInRowAbove | lab1/lab.py:389-416 | for y >= 1 and width >= 2 the values read are the window's slice of row y-1 |
| Seam.CumulativeEnergyMap | lab1/lab.py:367-387 | the loops fill the cumulative energy map of the same dimensions |
| Seam.CumulativeRecurrence | lab1/lab.py:367-387 | for y >= 1 each cell is its energy plus the minimum of the adjacent cells of the row above |
| Seam.CumulativeTopRow | lab1/lab.py:367-387 | row 0 (and a one-column image) equals the energy: the wrapped read meets a still-zero cell |
| Seam.CumulativeBelowSentinel | lab1/lab.py:367-387 | for energies in [0, 255] every cumulative value is non-negative and below the sentinel 256·height |
| Seam.ArgMinLeft | lab1/lab.py:426-428 | the bottom row's leftmost minimum: no value is smaller and every earlier one is larger |
| Seam.MinimumEnergySeam | lab1/lab.py:418-438 | one pixel index per row, top to bottom, each inside its row, ending at the bottom row's leftmost minimum |
| Seam.SeamIncreasing | lab1/lab.py:418-438 | the seam holds one index per row, in strictly increasing order, all inside the image |
| Seam.SeamConnected | lab1/lab.py:418-438 | consecutive seam columns differ by at most 1, and each is the leftmost minimum among the columns adjacent to the one below |
| Seam.ImageWithoutSeam | lab1/lab.py:440-457 | the new image is one column narrower and loses exactly the seam's pixels, the others keeping their order |
| Seam.KeepLength | lab1/lab.py:440-457 | removing an increasing list of valid indices drops exactly that many pixels |
| Seam.Carved | lab1/lab.py:322-338 | carving k seams keeps the height and narrows the image by k |
| Seam.SeamCarving | lab1/lab.py:322-338 | the loop removes one minimum-energy seam per step, k times |
| Bacon.GetActor | lab2/lab.py:14-18 | a found name maps to the id; the error is raised exactly when no name has that id |
| Bacon.ActedTogetherCoStars | lab2/lab.py:20-22 | two actors acted together exactly when each is the other's co-star; the relation is symmetric |
| Bacon.CoStarsSymmetric | lab2/lab.py:38-57 | b is a co-star of a exactly when a is a co-star of b |
| Bacon.CoStarsAreActors | lab2/lab.py:38-57 | co-stars are actors, and an actor appears in a record exactly when they have a co-star |
| Bacon.ListOf | lab2/lab.py:55-56 | `list(set)` lists every element once |
| Bacon.NeighborActors | lab2/lab.py:38-57 | the keys are exactly the actors of the records, and each list holds exactly that actor's co-stars, without repeats |
| Bacon.SeenIsWithin | lab2/lab.py:99-117 | the actors seen before level k + 1 are those within distance k of Bacon |
| Bacon.FrontierIsDistance | lab2/lab.py:99-117 | level k holds exactly the actors at shortest distance k from Bacon |
| Bacon.LevelsDisjoint | lab2/lab.py:99-117 | no actor is recorded at two levels |
| Bacon.EmptyFromThen | lab2/lab.py:99-117 | once a level is empty, every later level is empty |
| Bacon.BaconNumberIsDistance | lab2/lab.py:91-117 | when Bacon is in the data, the answer for n >= 0 is the set of actors at shortest distance n (for n = 1 apart from Bacon himself) |
| Bacon.ActorsWithBaconNumber | lab2/lab.py:91-117 | n = 0 gives {4724}; n = 1 gives Bacon's co-stars; otherwise the queue search gives level n, or {} when n is negative or past the last level; a missing Bacon raises KeyError for n != 0 |
| Bacon.PathHelper | lab2/lab.py:122-130 | the returned list starts at a root (parent None), ends at the child, and each element's parent is the element before it |
| Bacon.GetMovieName | lab2/lab.py:154-161 | the keys are exactly the records' actor pairs, and each pair maps to the film of the last record with that pair |
| Bacon.ActorPath | lab2/lab.py:182-204 | [start] exactly when the goal holds on start; otherwise KeyError when start has no co-star, else NameError |
| Bacon.ActorToActorPath | lab2/lab.py:132-133 | succeeds, with [a], exactly when the two actors are the same |
| Bacon.BaconPath | lab2/lab.py:119-120 | succeeds, with [4724], exactly when asked for Bacon |
| Roads.ParseHighway | lab3/lab.py:8-12 | reading a tag and writing it back gives the same tag |
| Roads.ParseHighwayAllowed | lab3/lab.py:8-12 | a tag is one of the named highway types exactly when it is in `ALLOWED_HIGHWAY_TYPES` |
| Roads.DefaultSpeedLimitMph | lab3/lab.py:14-28 | every allowed type has a positive default speed |
| Roads.WaySpeed | lab3/lab.py:49-54 | without `maxspeed_mph` the speed is the type's default, which is positive |
| Roads.ForwardMembers | lab3/lab.py:58-60 | the forward loop gives n exactly the edges (n[i+1], speed) for each pair with n[i] = n |
| Roads.ReversedMembers | lab3/lab.py:62-66 | the loop over the reversed list gives n exactly the edges (n[i], speed) for each pair with n[i+1] = n |
| Roads.WayEdgesMembers | lab3/lab.py:40-66 | an accepted way gives n an edge exactly for a forward pair, or for a reverse pair when the way is not one-way |
| Roads.EdgeMembership | lab3/lab.py:40-66 | an edge is in `Edges[n]` exactly when some accepted way gives it to n |
| Roads.TwoWayMirror | lab3/lab.py:62-66 | with no one-way roads, every edge n→m at speed s has a mirror m→n at speed s |
| Roads.EdgesStayReferenced | lab3/lab.py:40-66 | only nodes of accepted ways get edges, and every edge ends at such a node |
| Roads.LastLoc | lab3/lab.py:69-71 | a node's coordinates come from its last record, and are absent exactly when no record names it |
| Roads.Put | lab3/lab.py:72 | dict assignment keeps the key order valid, appends a new key, and keeps the place of an existing one |
| Roads.AppendPairs | lab3/lab.py:58-66 | the loop appends to each node's list its edges from consecutive pairs, and adds no key |
| Roads.AddWay | lab3/lab.py:42-66 | an accepted way adds its nodes with no coordinates yet, and appends its forward and, unless one-way, its reverse edges |
| Roads.BuildAuxiliaryStructures | lab3/lab.py:30-73 | `Nodes` and `Edges` have exactly the accepted ways' nodes as keys, each edge list is those ways' edges in order, coordinates come from each node's last record, and `Dic` maps each coordinate pair of such a record to the last node recorded there, its keys in the order of the first record with each (lab3/lab.py:69-72), the order `nearest` scans |
| Roads.BuildWellFormed | lab3/lab.py:30-73 | when every such node has a record, each node's coordinates are a key of `Dic`, `Dic` leads back to nodes, and every edge ends at a node |
| Search.FirstNearest | lab3/lab.py:82-86 | the chosen key is at minimal distance, and every earlier key is strictly farther |
| Search.Nearest | lab3/lab.py:75-87 | None exactly for an empty `Dic`, otherwise the id of the first nearest key |
| Search.NearestOfKey | lab3/lab.py:75-87 | a location that is a key, with every other key strictly farther, snaps to itself |
| Search.HighestSpeed | lab3/lab.py:193-206 | the result is non-negative, at least every speed of an edge to the child, and either 0 or one of those speeds |
| Search.GetHighestSpeed | lab3/lab.py:193-206 | KeyError exactly when the node has no edge list, otherwise that highest speed |
| Search.Insert | lab3/lab.py:140 | insertion keeps the agenda sorted and adds exactly the new entry |
| Search.SortByPriority | lab3/lab.py:140 | the sorted agenda is ordered by its key and is a permutation of the old one |
| Search.Expand | lab3/lab.py:127-139 | the loop over `Edges[id]` returns exactly one entry per road whose end is not expanded, in the order of the roads, or ZeroDivisionError at the first such road whose highest speed is 0 (by time) |
| Search.ExpandRoad | lab3/lab.py:128-138 | one pass of that loop: a road to an expanded node adds nothing, any other adds its entry or fails |
| Search.ChildrenSound | lab3/lab.py:127-139 | each entry extends the route by one road to a node not yet expanded; its cost is the parent's plus the road's length, or by time plus that length over `get_highest_speed` (lab3/lab.py:183-189); its key is cost plus distance to go, or the cost by time; a failure happens only by time and only when some road's speed is not positive |
| Search.FindPath | lab3/lab.py:104-141 | KeyError exactly when `Dic` is empty; a returned route starts at the node snapped from loc1, follows roads, and ends at the node snapped from loc2; equal snaps give the one-node route; no node is expanded twice; by time, with no negative distance, the route takes no longer than any walk between the snapped nodes |
| Search.Explore | lab3/lab.py:162-191 | the loop: a found route is a walk from `src` to `dst`, `src == dst` gives the one-node route, a failure is a division by zero by time on a road with no positive speed; by time, with no negative distance, the route found is a fastest walk from `src` to `dst` |
| Search.Advance | lab3/lab.py:176-190 | one expansion: fails exactly when the loop over the roads does; otherwise the new agenda is sorted by key, a permutation of the rest of the agenda plus the children, holds only walks from `src`, and keeps the time-search invariant with the expanded node settled at its route's cost |
| Search.FindShortPath | lab3/lab.py:104-141 | the search by distance raises only for an empty graph and returns a route along roads between the snapped nodes |
| Search.FindFastPath | lab3/lab.py:159-191 | the search by time returns a route along roads between the snapped nodes, and when no distance is negative that route takes no longer than any other walk between them; it can divide by zero only when some road's speed is not positive |
| Search.RoadTimeNonNegative | lab3/lab.py:188 | with no negative distance, a road's time (length over its highest speed limit) is not negative |
| Search.WalkTimeExtend | lab3/lab.py:184-189 | a route extended by one road is a walk whose time is the old time plus that road's, the cost the source gives the child |
| Search.Reached | lab3/lab.py:164-190 | while the invariant holds, every walk from `src` to a node not yet expanded takes at least the cost of some agenda entry |
| Search.FirstIsFastest | lab3/lab.py:167-190 | the entry popped from the agenda sorted by cost takes no longer than any walk to a node not yet expanded |
| Search.FoundFastest | lab3/lab.py:174-175 | the route returned at the target, not expanded before, is a fastest walk to it |
| Search.SkipExpanded | lab3/lab.py:170-171 | dropping an entry whose end was expanded keeps the invariant |
| Search.SettleBest | lab3/lab.py:177 | a node is expanded at a time that no walk to it beats |
| Search.ChildrenHas | lab3/lab.py:180-189 | when the loop over the roads does not fail, every road to a node not expanded yields its entry among the children |
| Search.ChildTimed | lab3/lab.py:183-189 | a child's route is a walk whose time is its cost, and its key is that cost |
| Search.OfferedChild | lab3/lab.py:180-189 | every road with a positive speed out of the expanded node to one not expanded is offered at the node's cost plus the road's time |
| Search.TimedAfter | lab3/lab.py:180-190 | after the expansion and the sort, every entry's route is a walk timed at its cost |
| Search.SettleNext | lab3/lab.py:176-190 | expanding the cheapest entry and sorting its children into the rest keeps the invariant, with that node settled at its cost |
| Search.SortedRest | lab3/lab.py:167 | popping the first entry of a sorted agenda leaves it sorted |

## Left out

- Image files, PIL and tkinter (loading, saving, showing images) are I/O and are not modelled.
- Floating-point arithmetic is left out: the box-blur weights, the Sobel magnitude in `edges`, the greyscale weights, and Python's rounding in `round_and_clip_image`. Pixels are integers, and `Greyscale.RoundAndClip` models only the clipping.
- The blur, sharpen and edge filters themselves (`blurred`, `box_blur`, `sharpened`, `edges`, `make_blur_filter`, `make_sharpen_filter`) are left out: they are floating-point. `Greyscale.CorrelateZero` states the blur-of-zeros property for any kernel.
- Seam.SeamCarving: the energy (greyscale conversion followed by `edges`) is floating-point, so it is a function parameter assumed to give integers in [0, 255] of the same shape.
- Seam.MinimumEnergySeam requires a width of at least 2. For a one-column image, `adjacent_pixels` reads column 1, which is the next row's first pixel, so the result has no meaning as a seam.
- Seam.MinimumEnergySeam requires a height of at least 1. For an empty map the source takes `min` of an empty last row and raises ValueError (lab1/lab.py:426); that error is not modelled.
- Seam.CumulativeEnergyMap requires non-negative energies. Row 0 equals the energy only because its wrapped read meets a zero, and energies from `edges` are clipped.
- Seam.ImageWithoutSeam: the integer 0 placeholder that `copy` puts into the new pixel list is modelled as the pixel (0, 0, 0).
- The greyscale helpers repeated at the top of lab1/lab.py are the same text as lab0's; the `Images` and `Greyscale` modules model both.
- lab4's `dump` printing and the `new_game_2d`, `dig_2d`, `new_game_nd` and `dig_nd` wrappers are left out. The wrappers only call `new_board` and `dig`, which `Mines.Game` models. `Mines.RenderAscii` models `render_ascii`.
- Mines.Game.constructor requires every bomb to be in bounds. A bomb past the end of an axis makes the source raise IndexError. A bomb with a negative component is placed at the wrapped cell, but the source counts it around the unwrapped coordinate; neither case is modelled. A bomb listed twice is counted twice around it, as in the source.
- Mines.Game.Dig requires an in-bounds coordinate. For a negative component the source reveals the wrapped cell but then digs the neighbours of the unwrapped coordinate, and a component past the end raises IndexError; neither is modelled. `Boards.ShapedPyHas` states what `get_coordinate` and `set_coordinate` do with such coordinates.
- lab2's pickle loaders (`actor_name_id`, `get_movies`, `movie_path`), `mapping` (it exists only inside a string literal) and `actors_connecting_films` are left out.
- Bacon.ActorPath: beyond the goal-at-start branch, `actor_path` always fails: with KeyError when the start has no co-star, otherwise with NameError at its call to `mapping`. The path search it was meant to do is not modelled.
- Bacon.GetActor: Python returns the first matching name in dictionary order; the model returns some matching name.
- Bacon.NeighborActors and Bacon.ListOf: the order of each `list(set)` is not modelled, only its elements and the absence of repeats.
- Bacon.PathHelper requires the parent chain from the child to reach a root; on a cycle the source loops forever.
- The `util` module is not part of this model (`read_osm_data`, `great_circle_distance`, `to_local_kml_url`). Records are given as sequences, and the distance is an arbitrary function parameter `dist`.
- Roads.BuildAuxiliaryStructures: a node referenced by a way but never given a record keeps the placeholder `0.0` in the source; the model uses `None`. `Roads.BuildWellFormed` and the searches assume every such node has a record.
- Search.FindShortPath: optimality is not claimed. The heuristic measures to the raw `loc2` rather than to the snapped target, so it need not be admissible. For neither search is it proved that `None` means no route exists.
- Search.FindFastPath and Search.FindPath: the fastest-route guarantee holds when `dist` never returns a negative value (`Search.NonNegative`), as the great-circle distance does not. Times are exact reals, not floats. A walk over a road whose highest speed limit is 0 has no finite time and is not among the walks compared.
- The debugging `print(count)` in `find_short_path` is output only and is left out. The element-by-element copy of a route before the new node is appended is modelled as sequence concatenation.
- Search.SortByPriority: Python's sort is stable, and the insertion sort places equal keys in their old order, but the model does not prove stability.
