# Error-diffusion halftoning, modelled in Dafny

This project models the core of a small halftoning library: error-diffusion scans
turn a grey or colour image into 0/1 bits. At each pixel the scan does three things:

- it quantises the working value: the bit is 1 when the value is at least 128;
- it takes the error, the value minus 0 or 255;
- it spreads the error over the neighbours that a kernel of weights covers.

The library has four scan orders (`Varredura`):

- `unidirecional`: a raster scan;
- `alternada`: a serpentine scan;
- `hilbert`: the scan along a Hilbert curve;
- `espiral`: a rectangular spiral, from the outside in.

The last two use a kernel rotated to the direction of each step (`err_dist_direcoes`).
Kernels are registered by name in a dictionary (`ERR_DIST`). There is also a single-file
three-channel raster implementation, `lib.py`.

The model is made of pure functions that define what each scan computes. The source's
loops are methods proved to compute those functions. The modules follow the source:

| module | file | models |
|---|---|---|
| `Grids` | grids.dfy | matrices, `Option`/`Result`, reversal, transposition, sums |
| `Direction` | direction.dfy | `Dir` and the four kernel orientations of lib/direcao.py |
| `Visits` | visits.dfy | a visit `(y, x, d)`; "each pixel exactly once" |
| `ScanOrders` | scan_orders.dfy | the raster and serpentine orders of lib/horizontal.py |
| `SpiralOrder` | spiral_order.dfy | the ring-by-ring order of lib/espiral.py |
| `HilbertCurve` | hilbert_curve.dfy | `hilbert_prox_ind`, `log2` and `direcao` of lib/hilbert.py |
| `HilbertOrder` | hilbert_order.dfy | `hilbert_indices` of lib/hilbert.py |
| `Diffusion` | diffusion.dfy | the pixel step (quantise and spread), and a run of steps along an order |
| `Engines` | engines.dfy | the four scan functions as loops |
| `Channels` | channels.dfy | the channels of an `H x W x 3` image |
| `Dispatch` | dispatch.dfy | `Varredura`, `meios_tons`, `meios_tons_colorida` of lib/__init__.py |
| `Kernels` | kernels.dfy | `distribuicao` and the six kernels of dists.py |
| `Legacy` | legacy.dfy | lib.py |

What a scan computes is stated once, as `Diffusion.Halftone(img, h, w, order, masks)`:
the result bits of running the pixel step along `order`. Each scan's loop is proved to
compute it along its own order. For an order that visits every pixel, the result does
not depend on what the uninitialised buffer `np.empty((H, W))` held.

The proved properties of the orders are these:

- The raster and serpentine orders visit every pixel exactly once, in row-major and
  boustrophedon order respectively.
- The Hilbert order visits every pixel exactly once, whatever the image's size. Each
  direction tag is the step from the previous visit. On a `2^k` square, consecutive
  visits are unit steps along the curve.
- The Hilbert curve itself is a bijection between positions and points of the square.
  It is continuous, starts at `(0, 0)` and ends at `(2^k - 1, 0)`.
- The spiral visits every pixel, and visits each exactly once **if and only if**
  `min(H, W)` is even, or `H == W`, or `H == W + 1`. Otherwise its innermost ring walks
  back over pixels it has already quantised. When `H == W + 1` and `W` is odd, the last
  ring is a column of two pixels, which has no left side, so nothing is walked twice. lib/espiral.py:3
  notes that the spiral "does not work correctly"; this condition says exactly when.

Where the library's documentation and its code disagree, the model follows the code:

- The docstring of `Varredura` (lib/__init__.py:28-30) says `alternada` alternates the
  direction of the error distribution. The code (lib/horizontal.py:85-91) only reverses
  the order in which the kernel's columns are added. It uses the same kernel, anchored
  at the same cell. `Diffusion.DifundeInvertido` proves that this gives the same buffer
  as the forward loop.

## Model

| member | source | states |
|---|---|---|
| Direction.FromValue | lib/direcao.py:29-32 | the direction with integer value `v` (0 to 3) has value `v` |
| Direction.ValueRoundTrip | lib/direcao.py:29-32 | taking a direction's value and converting it back gives the same direction |
| Direction.Rotate90 | lib/direcao.py:58 | `dist[::-1].T` is a `W x H` kernel whose cell `(i, j)` is `dist[H-1-j][i]`: a quarter turn |
| Direction.FlipThenTranspose | lib/direcao.py:58 | reversing the rows and then transposing gives, cell by cell, the quarter turn |
| Direction.Rotate180 | lib/direcao.py:60 | `dist[::-1, ::-1]` has the kernel's shape, and its cell `(i, j)` is `dist[H-1-i][W-1-j]` |
| Direction.Rotate270 | lib/direcao.py:62 | `dist[:, ::-1].T` is a `W x H` kernel whose cell `(i, j)` is `dist[j][W-1-i]` |
| Direction.ErrDistDirecoes | lib/direcao.py:39-65 | the tuple holds four kernels, indexed by the direction's value: direita the kernel itself, esquerda the half turn, cima the 270-degree turn, baixo the quarter turn |
| Direction.OrientationShapes | lib/direcao.py:56-65 | every orientation is rectangular; the horizontal directions keep the kernel's shape and the vertical ones swap its sides |
| Direction.Rotate180Involution | lib/direcao.py:60 | two half turns give back the kernel |
| Direction.CimaIsBaixoTurned | lib/direcao.py:58-62 | the cima kernel is the baixo kernel turned half round |
| Direction.TwoQuarterTurns | lib/direcao.py:58-60 | two quarter turns are the half turn, i.e. the esquerda kernel |
| Direction.OrientationsKeepEntries | lib/direcao.py:56-65 | every orientation holds the same multiset of weights as the kernel |
| Direction.OrientationsKeepTotal | lib/direcao.py:56-65 | every orientation has the kernel's total weight, so each scan direction spreads the same share of the error |
| ScanOrders.RowForward | lib/horizontal.py:20-21 | the row loop visits the `w` pixels of row `y` left to right, each tagged direita |
| ScanOrders.RowBackward | lib/horizontal.py:74-75 | the backward row loop visits the `w` pixels of row `y` right to left (`x = W - 1 - xm`) |
| ScanOrders.SerpentineRowCells | lib/horizontal.py:53-75 | a row scan, in either direction, visits exactly the pixels of its row |
| ScanOrders.RasterShape | lib/horizontal.py:20-21 | the raster order stays in the image, is tagged direita throughout, is row-major, and visits exactly the image's pixels |
| ScanOrders.RasterExactlyOnce | lib/horizontal.py:20-21 | the raster order visits each pixel exactly once, in row-major order, `H * W` visits |
| ScanOrders.SerpentineOrder | lib/horizontal.py:50-75 | the serpentine order goes row by row, even rows left to right and odd rows right to left |
| ScanOrders.SerpentineExactlyOnce | lib/horizontal.py:50-75 | the serpentine order, including the `break` after an odd last row, visits each pixel exactly once in boustrophedon order, `H * W` visits |
| SpiralOrder.RingsRange | lib/espiral.py:86 | ring `s` is among the `(1 + min(H, W)) // 2` rings exactly when it has a row and a column left |
| SpiralOrder.SidesOnRing | lib/espiral.py:88-106 | each of the four sides of ring `s` lies in the image at distance `s` from the border |
| SpiralOrder.RingOnLevel | lib/espiral.py:88-106 | every visit of ring `s` lies in the image at distance `s` from the border |
| SpiralOrder.SpiralInGrid | lib/espiral.py:86-106 | no visit of the spiral leaves the image |
| SpiralOrder.LevelRange | lib/espiral.py:86 | every pixel's distance to the border is the index of a ring the loop walks |
| SpiralOrder.PixelOnRing | lib/espiral.py:86-106 | every pixel is visited by the ring of its distance to the border |
| SpiralOrder.SpiralCovers | lib/espiral.py:86-106 | every pixel is visited at least once |
| SpiralOrder.SidesDistinct | lib/espiral.py:88-106 | no side of a ring visits a pixel twice |
| SpiralOrder.SidesApart | lib/espiral.py:88-106 | on a ring that is not a single row or column, no two sides share a pixel |
| SpiralOrder.RingDistinct | lib/espiral.py:88-106 | a ring that is not degenerate visits no pixel twice |
| SpiralOrder.RingRepeats | lib/espiral.py:98-106 | a degenerate ring (one row of at least two pixels, or one column of at least three) visits a pixel twice |
| SpiralOrder.DegenerateRing | lib/espiral.py:86-106 | the only degenerate ring is the innermost one of an image of a non-exact size |
| SpiralOrder.SpiralDistinct | lib/espiral.py:86-106 | for an exact size the spiral visits no pixel twice |
| SpiralOrder.SpiralRepeats | lib/espiral.py:86-106 | for any other size the spiral visits some pixel twice |
| SpiralOrder.SpiralExactlyOnce | lib/espiral.py:86-106 | the spiral visits each pixel exactly once if and only if `min(H, W)` is even or `H == W` or `H == W + 1` |
| SpiralOrder.SpiralLength | lib/espiral.py:86-106 | for an exact size the spiral makes `H * W` visits |
| SpiralOrder.RingDirections | lib/espiral.py:88-106 | direita visits lie on the top row, baixo on the right column below it, esquerda on the bottom row left of the corner, cima on the left column strictly between top and bottom |
| HilbertCurve.FromDigitsOfDigits | lib/hilbert.py:37-55 | the base-4 digits that the `% 4` / `// 4` steps peel off give the position back |
| HilbertCurve.DigitsOfFromDigits | lib/hilbert.py:37-55 | any digit string is the digit string of its number |
| HilbertCurve.Place | lib/hilbert.py:45-53 | each of the four cases moves a point of an `n`-square into quadrant `d` of the `2n`-square |
| HilbertCurve.Unplace | lib/hilbert.py:45-53 | every point of the `2n`-square is the image under `Place` of a point of the `n`-square, in its quadrant |
| HilbertCurve.UnplacePlace | lib/hilbert.py:45-53 | `Unplace` undoes `Place` |
| HilbertCurve.CurveQuadrants | lib/hilbert.py:42-55 | the order-`k+1` curve is the order-`k` curve placed in the quadrant of the top digit |
| HilbertCurve.WalkOfUnwalk | lib/hilbert.py:37-55 | every point of the square is reached by the digit string found for it |
| HilbertCurve.UnwalkOfWalk | lib/hilbert.py:37-55 | the digit string reaching a point is unique |
| HilbertCurve.IndexOfCurve | lib/hilbert.py:37-55 | the position of the point at position `idx` is `idx` |
| HilbertCurve.CurveOfIndex | lib/hilbert.py:37-55 | the point at the position of `p` is `p` |
| HilbertCurve.CurveIsBijection | lib/hilbert.py:37-55 | the `4^k` positions give distinct points, and every point of the `2^k` square is one of them |
| HilbertCurve.CurveEnds | lib/hilbert.py:37-55 | the curve starts at `(0, 0)` and ends at `(2^k - 1, 0)` |
| HilbertCurve.CurveIsContinuous | lib/hilbert.py:37-55 | consecutive positions give points one unit step apart |
| HilbertCurve.HilbertPoint | lib/hilbert.py:17-57 | the loop returns the point at position `idx` of the order `max(1, ordem)` curve, inside its square |
| HilbertCurve.NextLevel | lib/hilbert.py:43-53 | one pass of the loop moves a point of the `n`-square into the quadrant of the current digit of the `2n`-square, from where `Unplace` recovers it |
| HilbertCurve.FirstLevel | lib/hilbert.py:37-38 | the two bit tests give the point of the lowest digit on the order-1 curve |
| HilbertCurve.CeilLog2Bounds | lib/hilbert.py:87-112 | `2^log2(num) >= num` and `2^(log2(num) - 1) < num` |
| HilbertCurve.CeilLog2IsLeast | lib/hilbert.py:87-112 | no smaller power of two covers `num` |
| HilbertCurve.CeilLog2OfPow2 | lib/hilbert.py:87-112 | `log2(2^k) == k` |
| HilbertCurve.Log2 | lib/hilbert.py:104-112 | the halving loop computes the rounded-up logarithm, 0 for 0 |
| HilbertCurve.Direcao | lib/hilbert.py:77-84 | a change of column decides the direction: right iff the column grew, left iff it shrank; with the column unchanged, up iff the row shrank and down otherwise, including for no move |
| HilbertCurve.DirecaoOfMove | lib/hilbert.py:77-84 | a unit step in direction `d` is classified as `d` |
| HilbertCurve.MoveOfDirecao | lib/hilbert.py:77-84 | for two adjacent points, the classified direction is the unit step leading from the previous point to the current one |
| HilbertOrder.KeptIndicesAreInside | lib/hilbert.py:142-148 | the kept positions lie in the image, increase, and include every position whose point lies in the image |
| HilbertOrder.KeptIndicesPrefix | lib/hilbert.py:142-148 | the positions kept after `m` steps are a prefix of those kept after `n >= m` |
| HilbertOrder.TaggedAt | lib/hilbert.py:145-147 | row `t` is the kept point `(y, x)` with the direction of the step from the previous kept point |
| HilbertOrder.LastKeptIsPrevious | lib/hilbert.py:140-147 | the loop's `(ox, oy)` is always the last kept point, or `(0, 0)` before any |
| HilbertOrder.ScanRowsAreTagged | lib/hilbert.py:142-148 | the rows the loop writes are the kept points, tagged |
| HilbertOrder.ScanPosition | lib/hilbert.py:143-148 | one pass of the loop appends the row of an inside point and moves `(ox, oy)` to it, or does nothing |
| HilbertOrder.ScanLoop | lib/hilbert.py:140-148 | the loop writes the rows of the kept points among the first `n` positions |
| HilbertOrder.ScanCurve | lib/hilbert.py:136-148 | the loop over `N * N` positions writes the tagged kept points of the whole curve |
| HilbertOrder.CurveCoversImage | lib/hilbert.py:134-136 | `N = 2^log2(max(H, W))` is at least `H` and `W`, and `N * N = 4^logN` |
| HilbertOrder.PixelIsKept | lib/hilbert.py:142-148 | every pixel of the image is a kept point |
| HilbertOrder.KeptPointsDistinct | lib/hilbert.py:142-148 | the kept points lie in the image and are pairwise distinct |
| HilbertOrder.HilbertVisitsDistinct | lib/hilbert.py:142-148 | no pixel gets two rows, and every row lies in the image |
| HilbertOrder.HilbertVisitsCover | lib/hilbert.py:142-148 | every pixel gets a row |
| HilbertOrder.HilbertVisitsExactlyOnce | lib/hilbert.py:131-148 | each pixel gets exactly one row, so exactly the `H * W` rows of the buffer are written |
| HilbertOrder.SquareImageRows | lib/hilbert.py:142-148 | on a `2^k` square image, row `t` is the curve's point `t`, tagged with the step from point `t - 1` |
| HilbertOrder.SquareImageFollowsCurve | lib/hilbert.py:142-148 | on a `2^k` square image, each row is one unit step, in its tagged direction, from the row before it |
| HilbertOrder.HilbertIndices | lib/hilbert.py:114-150 | `hilbert_indices(H, W)` returns the tagged Hilbert order, which visits each pixel exactly once in `H * W` rows |
| Diffusion.SpreadOneMore | lib/horizontal.py:31-36 | spreading one more kernel cell adds `weight * err` to the one pixel under it, or changes nothing when that pixel is off the image |
| Diffusion.DiffuseTargets | lib/horizontal.py:31-36 | after spreading, a pixel under the kernel anchored at `(y - dH, x - dW)` has gained its weight times the error, and every other pixel is unchanged |
| Diffusion.Quantise | lib/horizontal.py:22-30 | the pixel's bit is 1 iff its working value is at least 128 and 0 iff below; no other bit changes; the error is the value minus 255 times the bit |
| Diffusion.Step | lib/horizontal.py:22-36 | the pixel step keeps the shapes, sets the bit as `Quantise` does, leaves every other bit alone, and spreads `value - 255 * bit` with the step's kernel |
| Diffusion.StepEffect | lib/horizontal.py:22-36 | a pixel step writes bit 1 iff the working value is at least 128, bit 0 iff it is below, leaves every other bit alone, and spreads `value - 255 * bit` |
| Diffusion.RunAppend | lib/horizontal.py:20-36 | running two orders in sequence is running their concatenation |
| Diffusion.RunBits | lib/horizontal.py:18-36 | after a run, every visited pixel holds 0 or 1 and every unvisited one holds what it started with |
| Diffusion.RunIgnoresStartBits | lib/horizontal.py:18-36 | the working values and the visited bits do not depend on what the result buffer held before |
| Diffusion.CoveringRunWritesEveryBit | lib/horizontal.py:18-36 | along an order that visits every pixel, the whole result is independent of the initial buffer and all 0/1 |
| Diffusion.CoveringRunIsHalftone | lib/horizontal.py:18-36 | such a run ends with the halftone of the image, all 0/1 |
| Diffusion.Difunde | lib/horizontal.py:31-36 | the nested `i`/`j` loop leaves the buffer that `DiffuseTargets` describes |
| Diffusion.DifundeInvertido | lib/horizontal.py:85-91 | the loop that takes the kernel's columns in reverse leaves the same buffer as the forward loop |
| Diffusion.AplicaEmPixel | lib/espiral.py:13-57 | `aplica_em_pixel` performs the pixel step |
| Diffusion.AplicaEmPixelInvertido | lib/horizontal.py:76-91 | the backward row's pixel code performs the same pixel step |
| Engines.ForwardRow | lib/horizontal.py:53-68 | the forward row loop runs the pixel step along the row, left to right |
| Engines.BackwardRow | lib/horizontal.py:74-91 | the backward row loop runs the pixel step along the row, right to left |
| Engines.WalkRaster | lib/horizontal.py:20-36 | the `y`/`x` loops run the pixel step along the raster order |
| Engines.VarreduraUnidirecional | lib/horizontal.py:10-37 | the result is the halftone along the raster order with the centred kernel, whatever `np.empty` held, all 0/1 |
| Engines.SerpentinePair | lib/horizontal.py:51-91 | one pass of the `ym` loop runs row `2ym` forward and, unless it was the last, row `2ym + 1` backward |
| Engines.WalkSerpentine | lib/horizontal.py:50-91 | the `ym` loop, with its `break`, runs the pixel step along the serpentine order |
| Engines.VarreduraAlternada | lib/horizontal.py:40-92 | the result is the halftone along the serpentine order with the centred kernel in both directions, all 0/1 |
| Engines.ApplyAlong | lib/hilbert.py:188-208 | the loop over the rows of `idx` runs the pixel step along them, each with the kernel of its direction |
| Engines.VarreduraHilbert | lib/hilbert.py:156-209 | with `idx` given, the result is the run along it; with `idx` omitted (or the Hilbert order), it is the halftone along the Hilbert order, all 0/1 |
| Engines.TopSide | lib/espiral.py:88-91 | the top-row loop runs the pixel step along the ring's top row, tagged direita |
| Engines.RightSide | lib/espiral.py:93-96 | the right-column loop runs the pixel step down the ring's right column |
| Engines.BottomSide | lib/espiral.py:98-101 | the bottom-row loop, visiting `x - 1`, runs the pixel step along the ring's bottom row, leftwards |
| Engines.LeftSide | lib/espiral.py:103-106 | the left-column loop, visiting `y - 1`, runs the pixel step up the ring's left column |
| Engines.WalkRing | lib/espiral.py:87-106 | one pass of the `s` loop runs the pixel step along ring `s` |
| Engines.WalkRings | lib/espiral.py:86-106 | the `s` loop runs the pixel step along the whole spiral |
| Engines.VarreduraEspiral | lib/espiral.py:60-108 | the spiral covers the image, and the result is the halftone along it with the directed kernels, whatever `np.empty` held, all 0/1 |
| Channels.SetThenChannel | lib/__init__.py:126-138 | writing a plane into one channel and reading a channel back gives the plane for that channel and the old values for the others |
| Channels.ChannelsDetermine | lib/__init__.py:124-138 | a colour image is determined by its three channels |
| Dispatch.FromValue | lib/__init__.py:36-39 | `Varredura(n)` exists exactly for `n < 4` |
| Dispatch.ValueRoundTrip | lib/__init__.py:36-39 | a member converted to its value and back is the same member, and a value converted to a member and back is the same value |
| Dispatch.NamesDistinct | lib/__init__.py:54-58 | two members print the same name exactly when they are the same member |
| Dispatch.Order | lib/__init__.py:45-52 | every strategy's order stays in the image and visits every pixel |
| Dispatch.OrderExactlyOnce | lib/__init__.py:45-52 | a strategy visits each pixel exactly once iff it is not the spiral or the size is exact; then it makes `H * W` visits |
| Dispatch.Call | lib/__init__.py:41-52 | calling a strategy computes the halftone along its order with its kernels, all 0/1 |
| Dispatch.Branch | lib/__init__.py:129-136 | values 0 to 3 select their own engine, and every value from 3 up selects the spiral |
| Dispatch.ColourChannel | lib/__init__.py:126-136 | one channel's branch computes what the selected strategy computes on that plane |
| Dispatch.WriteChannel | lib/__init__.py:138 | `res[..., ch] = ans` sets channel `ch` to `ans` and leaves the other channels alone |
| Dispatch.MeiosTonsColorida | lib/__init__.py:92-139 | every channel of the result is what the selected strategy computes on that channel |
| Dispatch.MeiosTons | lib/__init__.py:64-89 | the default argument (the class `Varredura` itself) or a bare name such as `'alternada'` fails: at `.value` for a colour image, at the call for a grey one. A member gives a colour result for a colour image and a grey one for a grey image, per channel what the strategy computes |
| Kernels.Split | dists.py:43 | `str.split` yields at least one piece |
| Kernels.SplitPiecesClean | dists.py:43 | no piece contains the separator |
| Kernels.SplitCount | dists.py:43 | there is one piece more than there are separators |
| Kernels.SplitJoin | dists.py:43 | joining the pieces with the separator gives back the string |
| Kernels.JoinSplit | dists.py:43 | splitting a join of separator-free pieces gives back the pieces |
| Kernels.PlainName | dists.py:42-44 | a name without `_` registers only itself |
| Kernels.Normalise | dists.py:38 | the normalised matrix has the shape of the data, and each weight times `total` gives the integer it came from |
| Kernels.NormalisedSumsToOne | dists.py:35-38 | when `total` is the matrix's sum and not 0, the weights `x / total` sum to 1 |
| Kernels.Bind | dists.py:42-44 | after registering, the keys are the old ones plus the names, the names map to the kernel, and other keys keep their kernel |
| Kernels.Distribuicao | dists.py:19-44 | ragged data raise; a wrong `total` fails the assertion; a zero `total` with some weight divides by zero. Otherwise the full name and each piece map to the normalised kernel, other keys are untouched, and the weights sum to 1 |
| Kernels.Load | dists.py:14-83 | a load that succeeds binds every registered name to a kernel and keeps every other key |
| Kernels.LoadAccepted | dists.py:50-83 | registrations that pass their checks load without error |
| Kernels.Spelling | dists.py:50-83 | the names are the strings `'FLOYD_STEINBERG'`, `'STEVENSON_ARCE'` and `'JARVIS_JUDICE_NINKE'` |
| Kernels.NamesTwo | dists.py:42-44 | a two-piece name registers itself and its two pieces, three keys |
| Kernels.NamesThree | dists.py:42-44 | a three-piece name registers itself and its three pieces, four keys |
| Kernels.FloydSteinbergNames | dists.py:50 | `'FLOYD_STEINBERG'` registers itself, `'FLOYD'` and `'STEINBERG'`, and not `'NONE'` |
| Kernels.StevensonArceNames | dists.py:55 | `'STEVENSON_ARCE'` registers itself, `'STEVENSON'` and `'ARCE'`, and not `'NONE'` |
| Kernels.JarvisJudiceNinkeNames | dists.py:79 | `'JARVIS_JUDICE_NINKE'` registers itself and its three pieces, and not `'NONE'` |
| Kernels.PlainNames | dists.py:62-77 | `'BURKES'`, `'SIERRA'` and `'STUCKI'` register only themselves |
| Kernels.FloydSteinbergAccepted | dists.py:50-53 | the Floyd-Steinberg weights sum to the declared 16 |
| Kernels.StevensonArceAccepted | dists.py:55-60 | the Stevenson-Arce weights sum to the declared 200 |
| Kernels.BurkesAccepted | dists.py:62-65 | the Burkes weights sum to the declared 32 |
| Kernels.SierraAccepted | dists.py:67-71 | the Sierra weights sum to the declared 32 |
| Kernels.StuckiAccepted | dists.py:73-77 | the Stucki weights sum to the declared 42 |
| Kernels.JarvisJudiceNinkeAccepted | dists.py:79-83 | the Jarvis-Judice-Ninke weights sum to the declared 48 |
| Kernels.ShippedAccepted | dists.py:50-83 | all six registrations pass their checks |
| Kernels.NoneUnbound | dists.py:14-16 | no registration rebinds `'NONE'` |
| Kernels.LoadKeeps | dists.py:42-44 | a successful load adds exactly the registered names and keeps any other key's value |
| Kernels.ShippedLoad | dists.py:14-83 | importing the module succeeds; the keys are `'NONE'` plus every full name and piece, and `'NONE'` still maps to no kernel |
| Legacy.LegacyPixel | lib.py:24-38 | on a pixel whose bit is still 0, the code that only ever writes 1 performs the pixel step |
| Legacy.LegacyRow | lib.py:23-38 | the `y` loop runs the pixel step along a row that is still all 0 |
| Legacy.UnscannedRowIsZero | lib.py:19-38 | rows the scan has not reached still hold the zeros of `np.zeros` |
| Legacy.LegacyChannel | lib.py:22-38 | one channel comes out as the raster halftone of that channel, all 0/1 |
| Legacy.VarreduraUnidirecional | lib.py:11-39 | each of the three channels of the result is the raster halftone of that channel alone, all 0/1 |
| Legacy.ChannelWrite | lib.py:24-38 | writing the scanned plane of channel `c` back sets that channel and leaves the other two as they were, as the loops index `c` only |
| Legacy.ChannelBits | lib.py:19-39 | every cell of the result is 0 or 1 |
| Legacy.MeiosTons | lib.py:43-47 | `'unidirecional'` gives the three-channel raster halftone, and any other strategy name raises `ValueError` |

## Left out

- Image I/O, the command line and the comparison tool (inout.py, main.py, check.py) are not modelled. They are file and terminal I/O around the core.
- The numba shim lib/nb.py is not modelled. It only decides whether functions are compiled, which does not change what they compute.
- `deslocamento` is not part of this model. It is imported from lib/direcao.py, but that file does not define it. The Hilbert and spiral engines take it as a parameter `offset` (direction and kernel shape to anchor). Every result is stated for any such function.
- `float32` arithmetic, `fastmath` and the `float32` conversion of the kernels (dists.py:39) are not modelled. Working values and weights are exact reals, so rounding is left out.
- The `uint8` input and output types are not modelled. `img.astype(np.float32)` is taken as the image's working values, and bits are integers proved to be 0 or 1.
- `prange` runs the three channels in parallel. The model runs them one after the other, which gives the same result because each channel touches only its own plane.
- The contents of `np.empty` buffers are an arbitrary argument `res0` of the right shape. For the result buffer, the orders that cover the image are proved to overwrite every cell.
- The 64-bit overflow of `np.sum` over large integer weights is not modelled; the sums are unbounded integers.
- `np.asarray` on ragged kernel data is modelled as the error `Ragged`. That is numpy's `ValueError`, raised by `np.sum` in the assertion at dists.py:35.
- HilbertCurve.HilbertPoint: does not model the `uint32` wrap-around of the compiled signature. Positions and coordinates are unbounded naturals. They agree with the compiled code as long as the `N * N` positions stay below 2^32.
- HilbertOrder.HilbertIndices: the `uint32` rows are plain naturals, for the same reason.
- Engines.VarreduraHilbert: a caller-supplied `idx` is required to lie in the image, and its directions are 0 to 3, since a visit's direction is a `Dir`. The source would index out of bounds otherwise: at `img[y, x]` for a point outside the image, and at `dists[d]` (lib/hilbert.py:200) for a direction of 4 or more, after `res[y, x]` has already been written. For such an `idx`, the contract states the run along it, not a halftone: `idx` need not cover the image.
- Kernels.Load: states only that each registered name maps to some kernel. Which kernel each name maps to is stated per registration by `Kernels.Distribuicao`.
- Dispatch.MeiosTons: arguments that are not members but duck-type as one are not modelled: a callable taking `(img, dist)`, such as `varredura_unidirecional`, works for a grey image, and any object with an integer `.value` works for a colour one. A failing argument is one error per image kind. Which Python exception it raises is not modelled, because that depends on the argument and on the Python version.
- Dispatch.MeiosTonsColorida: requires `varredura < 256`, the `uint8` of its compiled signature, instead of modelling the truncation of larger values.
