# Verification of Hipacc's back ends against the DSL semantics

Hipacc gives one simple meaning to a 2-D image kernel (the DSL headers) and compiles it to several
fast forms: a streaming filter for FPGAs, tiled GPU kernels with a shared-memory cache, parallel
reductions, unrolled lambdas. This project models those forms in Dafny and proves that each one
computes what the simple form means, and, where it does not, exactly when. Check everything with
`dafny verify dfyconfig.toml`.

## The modules

| file | content |
|---|---|
| Borders.dfy | border handling: DSL index functions, statements emitted into GPU kernels, window remap of the stream filters, and when they agree |
| Streams.dfy | FIFO pixel streams and raster order |
| SlidingWindow.dfy | line buffer and shifting window (arrays, updated in place), with the invariant that says which cells are trusted |
| StreamFilter.dfy | `process`: one pixel per loop position in, one filtered pixel out |
| Resample.dfy | `downsample` and `upsample` |
| Launch.dfy | launch arithmetic: grid and region bounds |
| Dispatch.dfy | the generated chain of gotos, the ten code variants and their iteration-space checks |
| Staging.dfy | staging of an image tile with halo into shared memory, and which cells a read finds |
| TiledReads.dfy | what tiled kernels read, for every window shape, compared with full border handling and with the DSL |
| Folds.dfy | folds of an associative and commutative operation over sets and sequences |
| Words.dfy | 32-bit words: `nextPow2`, and the numbers words stand for |
| Reductions.dfy, ApplyReduction.dfy | the two-stage tree reduction of an image or a region of it, and its launch sizes |
| KernelReduce.dfy | the DSL's global reduction, and its agreement with the GPU's |
| ThreadFence.dfy | the single-pass reduction in which the last block to finish folds the partial results: a state machine over interleaved steps |
| Strips.dfy, TwoStrips.dfy | distributing rows with halos over parallel strips and collecting them |
| Packing.dfy | packing host memory into stream words and back |
| Domains.dfy | iterators and the DSL's `reduce` and `convolve` |
| Unroll.dfy | unrolled lambdas as a function on syntax trees, with the meaning of both languages |
| NestedFolds.dfy | where unrolled code and the DSL part: one domain nested in itself, a mask read at an outer domain |
| Convolutions.dfy | the textbook convolution as arithmetic on pixels, for the DSL and the emitted code |
| Translator.dfy | the translator that emits them, working in place on its stacks |
| Pyramids.dfy | recursive pyramid traversal over two global stacks |
| Neutral.dfy | removal of neutral operands |

Images are sequences of rows of any type. Filters, lambdas and reduction operations are arbitrary
functions. Arithmetic on indices is over the mathematical integers; where a width matters it is
written out (`nextPow2` on 32-bit words, the `int` loop count of a pyramid recursion). Pixels,
operations and memory behind a buffer are parameters.

## What the code does not do

These were found while proving; each has its exact condition in the model.

* `getNewCoords` realises border padding if and only if the image is at least as wide as the window
  less one pixel and the padding is not constant; in a narrower image its left branch shadows the
  right one.
* `process` runs over its template bounds: for a smaller image it emits an image of the template's
  size. With CLAMP padding the remap tolerates half a kernel less than the template; otherwise, and
  beyond that, it leaves the window.
* `downsample` says it keeps every factor-th pixel "starting with the first". It does so exactly when
  half the kernel has the same remainder modulo the factor and modulo 2; factor 3 with a 5x5 kernel
  drops the first pixel.
* The emitted MIRROR statements and the DSL's `mirror` agree only up to one extent outside the image;
  the DSL's `repeat` moves by `lower + upper` instead of by the extent.
* A MIRROR window read more than one extent below the accessor, or two above it, selects a pixel
  outside: a 7x1 filter reads pixel 2 of an image two pixels wide.
* A row filter whose blocks do not tile the height computes border pixels of its bottom blocks
  without border handling in x, because BH_B comes before BH_L and BH_R in the chain. A column filter on an
  iteration space with an x offset computes pixels left of that space in BH_NO.
* `distributeN` gives a strip its halo only when a strip is at least two aprons wide. `distribute2`
  cuts at half the template width, `collect2` at half the actual one: together they give back an
  image if and only if both halves are equal and hold an apron.
* A first-stage reduction reads beyond the image unless the width leaves no thread of the last group
  idle, and outside a region unless each thread has one of its two columns inside it; the second stage and the thread-fence kernel read beyond the partial results when there are
  fewer of them than threads.
* Folds unrolled with MIN or MAX start from the smallest or largest value of the type, taken the wrong
  way round: the result is the DSL's only if that value occurs. The DSL evaluates a lambda once even
  over an empty domain.
* In nested reductions over one domain the translator reads the outer position, the DSL the inner
  one: a sum of products over two pixels 1 and 2 gives 1*1 + 2*2 instead of 1*2 + 1*2. `mask(dom)` always
  reads at the innermost position.
* The clones of a lambda's locals are forgotten after every unrolled position, those of enclosing
  lambdas too. A local read after that has its initialiser cloned again: where that contains a
  reduction, all its statements are emitted a second time, for nothing.

## Model

| member | source | states |
|---|---|---|
| Borders.EmittedRepeatUpper | lib/AST/BorderHandling.cpp:61-70 | the emitted upper REPEAT loop terminates from any start, below the bound and on the same residue |
| Borders.EmittedRepeatLower | lib/AST/BorderHandling.cpp:71-80 | the same for the lower loop |
| Borders.RepeatWraps | lib/AST/BorderHandling.cpp:60-80 | with both sides handled, any index lands inside the accessor and stays congruent modulo its extent |
| Borders.UncrossedSideIsRedundant | lib/AST/BorderHandling.cpp:330-349 | leaving out the handling of a side changes nothing if and only if the index does not cross that side, before or, in MIRROR, after the reflection at the upper one; for every index and mode |
| Borders.LandsInsideIff | lib/AST/BorderHandling.cpp:40-110 | with both sides handled the index lands inside the accessor, except exactly under MIRROR more than one extent below or two above |
| Borders.ClampAndMirrorAgreeWithDsl | dsl/image.hpp:219-231 | emitted CLAMP selects the DSL's pixel always, emitted MIRROR exactly up to one extent outside |
| Borders.RepeatAgreesWithDsl | dsl/image.hpp:222-226 | exactly when emitted REPEAT selects the DSL's pixel; always for lower bound 0 and less than one extent outside |
| Borders.EmittedSelectsIff | lib/AST/BorderHandling.cpp:40-110 | the emitted statements select what the mode is named for: the nearest position, the reflection at the edge, or the one congruent modulo the extent; for MIRROR if and only if the index is at most one extent outside |
| Borders.DslSelectsIff | dsl/image.hpp:219-231 | so does the DSL, except that its repeat does if and only if it agrees with the emitted loops |
| Borders.SelectedIsUnique | dsl/image.hpp:219-231 | each mode names one position for an index, which inside is the index itself |
| Borders.PadLaws | runtime/hipacc_vivado_filter.hpp:75-127 | on every axis: nothing changes inside; CLAMP takes the nearest pixel, MIRROR reflects between the border pixel and its copy, MIRROR_101 at the border pixel, CONST none |
| Borders.RemapSelectsPadded | runtime/hipacc_vivado_filter.hpp:75-127 | at every output position the remapped window slot holds the image pixel that padding selects, by the laws above |
| Borders.RemapIsIdempotent | runtime/hipacc_vivado_filter.hpp:3716-3721 | the remap names a window slot and is a fixed point there, so the pass in Y may run in place |
| Borders.RemapIsFaithfulIff | runtime/hipacc_vivado_filter.hpp:75-127 | the remap realises padding everywhere if and only if the image spans the window less one pixel and padding is not constant |
| Borders.RemapStaysInsideIff | runtime/hipacc_vivado_filter.hpp:3659-3721 | while the loops run over the template width, the remap stays inside the window if and only if the image has that width (up to half a kernel less when clamping) |
| SlidingWindow.Window.PushColumn | runtime/hipacc_vivado_filter.hpp:3683-3703 | one column of the line buffer moves up and into the window, the new pixel enters below, nothing else changes |
| SlidingWindow.Window.RemapX | runtime/hipacc_vivado_filter.hpp:3708-3714 | each window row receives the cells the remap names, out of place |
| SlidingWindow.Window.RemapY | runtime/hipacc_vivado_filter.hpp:3715-3721 | the in-place pass over rows equals an out-of-place one |
| SlidingWindow.Window.Absorb | runtime/hipacc_vivado_filter.hpp:3674-3703 | step invariant: before (row, col) line buffer i holds image row row-(KY-2)+i left of col and one row less from col on, wherever that row exists, and the window ends at the position just taken in |
| SlidingWindow.Window.Present | runtime/hipacc_vivado_filter.hpp:3708-3721 | at the output positions of the image, the remapped window is the padded neighbourhood of the pixel half a kernel behind |
| SlidingWindow.NeighbourhoodIff | runtime/hipacc_vivado_filter.hpp:3708-3721 | the padded neighbourhood of (x, y) is the one window whose cell [i][j] is the padded pixel at (x - KX/2 + j, y - KY/2 + i) |
| SlidingWindow.Window.Step | runtime/hipacc_vivado_filter.hpp:3664-3721 | a whole step keeps the trust invariant and shows that neighbourhood |
| StreamFilter.ProcessPixel | runtime/hipacc_vivado_filter.hpp:3660-3731 | one loop position reads at most one pixel; it emits one exactly where the output guard passes, which inside the image is the filter on the padded neighbourhood |
| StreamFilter.Process | runtime/hipacc_vivado_filter.hpp:3631-3733 | streaming refinement, for every image on which the remap stays inside the window: whatever the buffers held, exactly width*height pixels are consumed, and an image of the template's size is emitted in raster order that shows the filtered image at its top left; at full template size it is the filtered image |
| StreamFilter.OutputAt | runtime/hipacc_vivado_filter.hpp:3708-3730 | output y*width + x is the filter on the window whose cell [i][j] is the padded pixel at (x - KX/2 + j, y - KY/2 + i) |
| StreamFilter.OutputCountIff | runtime/hipacc_vivado_filter.hpp:3659-3660 | the output guard passes at maxWidth*maxHeight loop positions, which are as many as the image has pixels if and only if it has the template's size |
| StreamFilter.SmallImageGrows | runtime/hipacc_vivado_filter.hpp:3659-3729 | a 2x2 image in a 3x3 template: four pixels in, nine out |
| Resample.Downsample | runtime/hipacc_vivado_filter.hpp:3970-4077 | consumes the image and emits the pixels of the filtered image that the guard keeps |
| Resample.DownsampleByTwo | runtime/hipacc_vivado_filter.hpp:3997-4074 | with factor 2 that is the filter followed by keeping even coordinates, ceil(W/2)*ceil(H/2) pixels |
| Resample.DownsampleStartsWithFirstIff | runtime/hipacc_vivado_filter.hpp:4070-4073 | the guard keeps the multiples of the factor if and only if the group delay has one remainder modulo factor and 2 |
| Resample.DownsampleByThreeIsDisplaced | runtime/hipacc_vivado_filter.hpp:4070-4073 | a concrete kernel and factor for which it does not |
| Resample.Upsample | runtime/hipacc_vivado_filter.hpp:4080-4187 | equals the window filter on the zero-stuffed image and consumes floor(W/f)*floor(H/f) pixels |
| Resample.DemandedIsSmall | runtime/hipacc_vivado_filter.hpp:4118-4124 | the positions at which input is demanded are those of the small image, in its own raster order |
| Resample.StuffedAt | runtime/hipacc_vivado_filter.hpp:4118-4124 | pixel (j, i) of the small image stands at the last column and row of its factor x factor cell, all else is zero |
| Resample.UpsampledAt | runtime/hipacc_vivado_filter.hpp:4160-4187 | output y*width + x is the filter on the neighbourhood of (x, y) and the raw loop counters |
| Launch.LaunchInfo.PrepareKernelLaunch | runtime/hipacc_cl.hpp:96-124 | what the four region bounds and the fall-back mean for a block number, independently of the quotients that compute them |
| Dispatch.EmitGotos | lib/AST/ASTTranslate.cpp:889-1023 | the first loop emits one goto for each label that applies, in order |
| Dispatch.EmitBodies | lib/AST/ASTTranslate.cpp:1028-1086 | the second loop, counting labels on its own, gives every label the body meant for it |
| Dispatch.GotosTake | lib/AST/ASTTranslate.cpp:889-1023 | running the emitted chain, fall-through included, reaches the variant read off the label conditions |
| Dispatch.DispatchIsSound | lib/AST/ASTTranslate.cpp:889-1118 | outside two families of filters, every evaluation lies in the iteration space and its variant handles every side its window crosses |
| Dispatch.RowFilterFails | lib/AST/ASTTranslate.cpp:972-1003 | in the first family a left border pixel is computed without border handling |
| Dispatch.ColumnFilterFails | lib/AST/ASTTranslate.cpp:1088-1118 | in the second family a pixel left of the iteration space is computed |
| Dispatch.DispatchIsSoundIff | lib/AST/ASTTranslate.cpp:889-1118 | dispatch is sound if and only if the launch is in neither family |
| Dispatch.SpaceIsCovered | runtime/hipacc_cl.hpp:127-130 | every position of the iteration space is computed, for every launch |
| Dispatch.ExactCover | lib/AST/ASTTranslate.cpp:1088-1118 | the evaluations that survive their checks are in bijection with the iteration space |
| Staging.Tile.StagedFits | lib/AST/ASTTranslate.cpp:822-841 | the declared array holds every staged cell |
| Staging.Tile.StepOfCell | lib/AST/MemoryAccess.cpp:874-932 | no two threads and no two steps of a thread stage one cell |
| Staging.StageTile | lib/AST/MemoryAccess.cpp:844-932 | after staging, threads in any order, every staged cell holds the border-handled pixel meant for it |
| Staging.ReadsAreStagedIff | lib/AST/ASTTranslate.cpp:2247-2326 | cache reads stay inside the staged cells if and only if half the window is no wider than a block |
| TiledReads.StagedRowsAreHandled | lib/AST/MemoryAccess.cpp:874-932 | every row a block stages, the apron included, crosses only sides its variant handles, so it is staged from a row inside the accessor |
| TiledReads.StagedColumnsAreHandledIff | lib/AST/MemoryAccess.cpp:844-932 | staged columns do so if and only if the first and the last one do: the apron is a block wide whatever the window |
| TiledReads.ColumnsAreSameIff | lib/AST/MemoryAccess.cpp:855-867 | the sides a variant omits make no difference to the column of any window read, if and only if the accessor is as wide as what is read without them |
| TiledReads.RowsAreSameIff | lib/AST/MemoryAccess.cpp:855-867 | the same for rows |
| Staging.CacheAgreement | lib/AST/MemoryAccess.cpp:780-791 | after staging, every window read finds in the cache what the unstaged read of its own code variant returns |
| TiledReads.CachedRead | lib/AST/ASTTranslate.cpp:2323-2327 | staging a tile and reading the cache gives that value for every launch; the border-handled one where no omitted side matters; and for launches that fit, the DSL's pixel, inside the accessor, which is the nearest, reflected or congruent one to the evaluation's position plus the offset |
| TiledReads.TiledReadsAreDslIff | dsl/image.hpp:469-500 | row filters, column filters, square windows and point reads alike: all window reads of all evaluations select the DSL's pixel, inside the accessor, if and only if the launch fits, by sizes known to the caller |
| TiledReads.NarrowMirrorFails | lib/AST/BorderHandling.cpp:82-110 | a 7x1 MIRROR filter on two columns takes the fall-back variant and reads pixel 2, where the DSL reads pixel 1 |
| Reductions.TreeStepKeepsFold | runtime/hipacc_cl_red.hpp:102-107 | a step of n threads at once keeps the fold of sdata[0..2s) in sdata[0..s), whatever the threads from s on store |
| Reductions.TreeReduce | runtime/hipacc_cl_red.hpp:98-109 | the tree of the OpenCL kernels leaves the fold of all cells in the first |
| Reductions.WarpTreeReduce | runtime/hipacc_cu_red.hpp:105-120 | so does the tree of the CUDA kernels, which ends in six steps of one warp without barriers, all of whose threads store in every step |
| Reductions.ThreadLoad | runtime/hipacc_cl_red.hpp:78-98 | a work item folds exactly its own pixels |
| Reductions.ReduceImage | runtime/hipacc_cl_red.hpp:65-110 | the partial results together are the fold of all pixels read, each counted once |
| Reductions.ReducePartials | runtime/hipacc_cl_red.hpp:116-143 | the second stage is the fold of the partial results and of the cells behind them that surplus threads read |
| Words.NextPow2 | runtime/hipacc_base.hpp:223-236 | on 32-bit words, the least power of two that is no less than the argument and the warp size, which is the number doubling reaches; the warp size beyond the largest power |
| ApplyReduction.LaunchGroups | runtime/hipacc_cl.hpp:916-951 | the host's global sizes and idle blocks amount to the groups that cover the columns beside whole idle blocks, for images and regions |
| ApplyReduction.Region.Remaining | runtime/hipacc_cl.hpp:938-951 | idle blocks are whole ones: less than a block remains on either side of the region |
| ApplyReduction.Apply | runtime/hipacc_cl.hpp:908-981 | two-stage reduction of an image or of a region with offsets: the fold of what is read, and the fold of the region under the two conditions below |
| ApplyReduction.FirstStageReadsIff | runtime/hipacc_cl_red.hpp:78-97 | the first stage reads exactly the region if and only if no thread has both its columns outside |
| ApplyReduction.WholeImageIff | runtime/hipacc_cl_red.hpp:78-97 | for a whole image: if and only if width mod 2*BS is 0 or at least BS |
| ApplyReduction.NothingBehindIff | runtime/hipacc_cl.hpp:960-969 | nothing behind the partial results is read if and only if there are enough of them |
| KernelReduce.DslReduce | dsl/kernel.hpp:103-123 | the DSL's reduction folds the iteration space from left to right, row by row |
| KernelReduce.RasterIsSum | dsl/kernel.hpp:103-123 | that is the fold over the set of pixels |
| KernelReduce.GpuAndDsl | runtime/hipacc_cl.hpp:908-981 | the GPU's two stages and the DSL's reduction of one region, each with what it computes: under the two conditions they return the same value |
| ThreadFence.StepKeepsInv | runtime/hipacc_cu_red.hpp:124-171 | every step of every block keeps the protocol invariant |
| ThreadFence.RunKeepsInv | runtime/hipacc_cu_red.hpp:124-171 | so it holds in every state of every interleaving, over any number of launches |
| ThreadFence.LastBlockSeesAllPartials | runtime/hipacc_cu_red.hpp:129-147 | a block that folds is the only last one, all others are done, and every partial result is visible to it |
| ThreadFence.LaunchDelivers | runtime/hipacc_cu_red.hpp:124-171 | at the end of a launch the counter is 0, exactly one block was last, and the output is the reduction when there are enough blocks |
| ThreadFence.ReadsOnlyPartialsIff | runtime/hipacc_cu_red.hpp:137-145 | the last block folds only partial results if and only if there are at least as many blocks as threads |
| ThreadFence.SomeBlockCanAct | runtime/hipacc_cu_red.hpp:124-171 | no interleaving gets stuck |
| ThreadFence.StepsDecrease | runtime/hipacc_cu_red.hpp:124-171 | every launch ends after a bounded number of steps |
| Strips.ApronCovers | runtime/hipacc_vivado_filter.hpp:42 | the apron is the least positive number of words that covers the radius |
| Strips.Cut.TargetsAreHalo | runtime/hipacc_vivado_filter.hpp:257-284 | stream k receives exactly its own columns and an apron on each inner side |
| Strips.Cut.TargetsAreHaloIff | runtime/hipacc_vivado_filter.hpp:257-284 | for three or more strips, if and only if a strip is at least two aprons wide |
| Strips.Distribute | runtime/hipacc_vivado_filter.hpp:231-380 | stream k carries its strip of every row, in order, widths not divisible by N included |
| Strips.Collect | runtime/hipacc_vivado_filter.hpp:1174-1339 | the strips' own parts are put back together to the image |
| Strips.StripIsEnough | runtime/hipacc_vivado_filter.hpp:257-284 | an operator of radius within the apron, run on a strip with halo, gives the strip's own part of the whole-row result |
| Strips.SeesNeighbourhood | runtime/hipacc_vivado_filter.hpp:257-284 | that operator sees, at each column, the columns within its radius that the row has, and which of them is its own |
| Strips.ProcessInStrips | runtime/hipacc_vivado_filter.hpp:231-380 | distributing, processing the strips and collecting equals processing whole rows, for every width, divisible by N or not |
| TwoStrips.DistributeTwo | runtime/hipacc_vivado_filter.hpp:194-226 | stream 0 receives the columns below, stream 1 those from half the template width on, each with an apron, of every row |
| TwoStrips.CollectTwo | runtime/hipacc_vivado_filter.hpp:1252-1283 | takes half the actual width of every row from stream 0, the rest from stream 1; waits for ever if one runs dry |
| TwoStrips.TwoStripsFitIff | runtime/hipacc_vivado_filter.hpp:194-226 | the pair with strip processors gives back the processed rows, for every operator within the apron and every image, if and only if half the template width is half the width and holds an apron |
| TwoStrips.ProcessInTwoStrips | runtime/hipacc_vivado_filter.hpp:194-226 | running the pair computes that composition for every two widths |
| Packing.ReverseBits | runtime/hipacc_vivado.hpp:81-94 | bit i of the word is bit size-1-i of the result, for every word size |
| Packing.ReversedTwice | runtime/hipacc_vivado.hpp:81-94 | reversing twice is the identity |
| Packing.WriteMemory | runtime/hipacc_vivado.hpp:124-153 | the words sent are the packed rows, padded with zero lanes: with one lane, bit b of word k is bit size-1-b of pixel k; with more, pixel x of a row is lane x % vect of its word x / vect, bit by bit |
| Packing.ReadMemory | runtime/hipacc_vivado.hpp:156-183 | from the words of an image, host memory receives that image |
| Packing.RoundTrip | runtime/hipacc_vivado.hpp:127-183 | reading after writing restores host memory, for every width, height and vector length |
| Packing.WordCount | runtime/hipacc_vivado.hpp:133-152 | height*ceil(width/vect) words are sent |
| Domains.DomainIterator.Next | dsl/mask.hpp:110-128 | the increment moves to the next non-zero cell, or past the end with a null iteration space |
| Domains.Enumerate | dsl/mask.hpp:87-129 | iterating visits the enumeration of the defined cells and ends |
| Domains.DefinedExactly | dsl/mask.hpp:87-129 | that enumeration is exactly the non-zero positions, once each, in row-major order |
| Domains.Execute | dsl/kernel.hpp:69-87 | the element iterator visits the iteration space in the order of a domain without holes |
| Domains.Reduce | dsl/kernel.hpp:209-250 | the DSL's reduce is the left fold over the defined cells: the total, product, least or greatest of the lambda's values there; over none, its value past the last row |
| Domains.Convolve | dsl/kernel.hpp:163-206 | the DSL's convolve is the left fold over every position of the mask: the total, product, least or greatest of the lambda's values |
| Domains.FoldMoves | dsl/kernel.hpp:176-196 | folding with SUM or PROD moves with its seed, for all integers |
| Unroll.UnrollRuns | lib/AST/Convolution.cpp:399-530 | for every mode, both kinds of domain check, lambdas with locals and any nesting, the emitted statements run without error, declare each variable once, and compute what the program means with the translator's positions and seeds |
| Unroll.MeantIsEval | lib/AST/ASTTranslate.cpp:2294-2305 | nested over distinct domains, that is the program as the DSL reads it, with every fold started from its seed |
| Unroll.SeededFoldIff | lib/AST/Convolution.cpp:90-99 | starting from the seed gives the DSL's fold if and only if the mode is SUM or PROD or the seed occurs among the values |
| Unroll.UnrollingPreservesMeaning | lib/AST/Convolution.cpp:399-530 | for SUM and PROD nested to any depth over distinct non-empty domains, lambdas with locals included, the emitted code computes the DSL's value |
| Unroll.LoopForgets | lib/AST/Convolution.cpp:484-488 | a fold forgets all clones of locals if and only if it emits code for a position |
| Unroll.LocalIsUnrolledAgain | lib/AST/ASTTranslate.cpp:1364-1407 | a local read to the left of such a fold has all statements of its initialiser emitted once more |
| Unroll.LoopShape | lib/AST/Convolution.cpp:437-490 | an unrolled loop is one statement for each position: for each defined cell of a constant domain, for every cell otherwise, inside a run-time check exactly for domains that are not constant |
| Unroll.RightOperandFirst | lib/AST/ASTTranslate.cpp:1810-1842 | of two folds under one operator the right one is unrolled first |
| Convolutions.ConvolutionIsSum | lib/AST/Convolution.cpp:399-530 | convolve(mask, SUM, mask() * acc(mask)) means, and its emitted code computes, the sum of coefficient times pixel, each at its offset from the middle of the mask, for every mask and image |
| Convolutions.CombinedIsArithmetic | lib/AST/Convolution.cpp:399-530 | so does any pixel at an offset plus, minus or times that sum |
| NestedFolds.SameDomainLookupsIff | lib/AST/ASTTranslate.cpp:2294-2305 | below two reductions over one domain, the translator and the DSL read at one position for every pair of visited positions if and only if there is at most one |
| NestedFolds.SumOfProductsIff | lib/AST/ASTTranslate.cpp:2294-2305 | the code emitted for a sum of products nested over one non-empty domain computes the DSL's value on every image if and only if the domain has one defined position |
| NestedFolds.SumOfProductsFails | lib/AST/ASTTranslate.cpp:2294-2305 | on two pixels 1 and 2 the emitted code computes 5, the DSL 4 |
| NestedFolds.MaskBelowIff | lib/AST/ASTTranslate.cpp:2105-2150 | a mask read at an outer domain is read right at every pair of visited positions, for all coefficients, if and only if there is no pair or both domains have the same single position |
| NestedFolds.MaskBelowFails | lib/AST/ASTTranslate.cpp:2105-2150 | a program for which the emitted code computes 4, the DSL 3 |
| Translator.Translator.TakePreStmts | lib/AST/ASTTranslate.cpp:1499-1512 | takes exactly the statements that wait for a compound statement, which are the last ones, and leaves the others |
| Translator.Translator.VisitCompound | lib/AST/ASTTranslate.cpp:1489-1536 | a lambda's body, statement by statement: what waits for it goes before the statement that needs it, what waits for enclosing ones keeps waiting |
| Translator.Translator.CloneVarDecl | lib/AST/ASTTranslate.cpp:1364-1407 | a local is cloned with its initialiser, whose statements wait with the others, unless its clone is known |
| Translator.Translator.CloneExpr | lib/AST/ASTTranslate.cpp:1810-1842 | visiting emits exactly the unrolled code, marked with the enclosing compound statement, and restores every stack |
| Translator.Translator.ConvertConvolution | lib/AST/Convolution.cpp:399-530 | the same for convolve and reduce, with their loops over positions |
| Translator.Translator.TranslateOutput | lib/AST/Convolution.cpp:280-530 | a kernel's output statement computes the DSL's value after the statements put before it |
| Pyramids.Traversals.TraverseAll | dsl/pyramid.hpp:135-163 | a traversal that binds no pyramid twice and only equal depths runs to its end; every event it shows has one common level within the depth of each bound pyramid; whenever it ends, it shows the specified events and restores both stacks, all levels and bindings |
| Pyramids.Traversals.TraverseDown | dsl/pyramid.hpp:281-291 | a recursive traverse runs what it specifies one level down, unless at the bottom, and restores everything |
| Pyramids.DescendAlternates | dsl/pyramid.hpp:186-194 | what traverse(loop) specifies: nothing at the bottom; else `loop` calls with the other function between every two, for counts below 2^31; none from there to 2^32, and only the low 32 bits count |
| Pyramids.LoopCountIs | dsl/pyramid.hpp:186-194 | the rounds of a size_t count taken as an int |
| Pyramids.RunInOrder | dsl/pyramid.hpp:135-163 | statements run one after the other, each once |
| Pyramids.Traversals.RepeatBody | dsl/pyramid.hpp:186-194 | the rounds of a recursion for a count, with the other function between two rounds |
| Pyramids.RoundsAlternate | dsl/pyramid.hpp:186-194 | those rounds are the calls with the other function's run once between every two |
| Pyramids.LevelsInRun | dsl/pyramid.hpp:135-195 | whenever a traversal function runs, its pyramids are at one common level, below the depth of each of them |
| Pyramids.CallsOfCall | dsl/pyramid.hpp:166-195 | a body whose recursive calls make b rounds in all runs b^(l-k) times at level l for each call at level k |
| Pyramids.PowerOfLoop | dsl/pyramid.hpp:281-291 | a body that calls traverse(loop) once runs loop^l times at level l for loop below 2^31, and never below the top from there to 2^32 |
| Neutral.StripKeepsValue | lib/AST/ASTTranslate.cpp:1848-1911 | stripping preserves the value of every cast-free integer expression under truncating division, division by zero included |
| Neutral.StripLeavesNothingNeutral | lib/AST/ASTTranslate.cpp:1768-1778 | afterwards no operation has a neutral operand |
| Neutral.StripTwice | lib/AST/ASTTranslate.cpp:1848-1911 | a second pass changes nothing |
| Neutral.StripFixpointIff | lib/AST/ASTTranslate.cpp:1848-1911 | an expression is left alone if and only if nothing in it is neutral |
| Neutral.SumForms | lib/AST/ASTTranslate.cpp:1848-1911 | x+0, 0+x and x-0 become x, 0-x becomes -(x), for every x |
| Neutral.ProductForms | lib/AST/ASTTranslate.cpp:1848-1911 | x*1, 1*x and x/1 become x |
| Neutral.SignedForms | lib/AST/ASTTranslate.cpp:1848-1911 | x*-1 and x/-1 become -(x) |
| Neutral.KeptForms | lib/AST/ASTTranslate.cpp:1848-1911 | 1/x, remainders and other literals stay |
| Neutral.ArithmeticLaws | lib/AST/ASTTranslate.cpp:1848-1911 | the values are the integers': addition and multiplication count up, subtraction and negation undo |
| Neutral.QuotientLaws | lib/AST/ASTTranslate.cpp:1848-1911 | the values are C's: quotient and remainder recompose, the remainder is smaller than the divisor and has the dividend's sign |

## Left out

- StreamFilter.Process: requires odd kernels, an image spanning the window less one pixel, padding other than BORDER_CONST (whose index -1 is outside the window) and a template that the remap tolerates; these conditions are exact (RemapIsFaithfulIff, RemapStaysInsideIff).
- Resample.Downsample: has the requirements of StreamFilter.Process, at full template size.
- Resample.Upsample: has the requirements of StreamFilter.Process, at full template size.
- Launch.LaunchInfo.PrepareKernelLaunch: requires an iteration space at least as high as the halo of one block; below it the code's unsigned difference wraps to a number whose conversion from float to int is undefined. ceilf and floor are taken as exact (true for numerators below 2^24), and SIMD width is 1.
- TiledReads.TiledReadsAreDslIff: is about launches outside the two families in which dispatch itself fails (DispatchIsSoundIff), with radii that bound the window radii, as the launch sets them.
- Strips.Distribute: requires strips of at least two aprons; otherwise a halo is incomplete (TargetsAreHaloIff). With two strips one apron is enough (TwoStripsFitIff).
- Strips.ProcessInStrips: uses an abstract row-local operator for the strip processors; `processL`, `processC` and `processR` skip the window update below the last row and take their border branches differently.
- TwoStrips.ProcessInTwoStrips: uses the same operators; a strip that is narrower than the apron it drops is left with nothing.
- Packing.RoundTrip: `ap_uint` ranges given with the low bound first may or may not reverse a lane; both readings are covered.
- ThreadFence.LaunchDelivers: the tree inside a block is taken as one step; that it computes the fold is WarpTreeReduce, which needs blocks of at least 64 threads (with 32 the first warp step reads behind sdata) and a warp that loads before it stores. `__threadfence` is modelled as waiting until the block's store is visible.
- ApplyReduction.Apply: requires work groups of at least a warp, a power of two. A smaller region at the image's origin is left out: its kernel expects offsets that the launch does not pass. Numbers of blocks do not overflow.
- Unroll.UnrollRuns: lambda bodies are declarations of locals with different names, then a return statement, over constants, pixels, coefficients, locals, additions, subtractions, multiplications and folds; a local's initialiser must be acceptable wherever the local is read, as cloning it again there demands. Assignments, other statements, calls, `break_iterate`, `iterate` and reductions inside a convolution are not modelled. Arithmetic does not overflow.
- Translator.Translator.CloneExpr: statements inserted by border handling of an accessor read, those put after a statement (postStmts), a kernel's own locals, and everything else the translator visits, are not modelled.
- Pyramids.Traversals.TraverseAll: requires pyramids of depth at least 1 (at depth 0 no level is the bottom one) and at least one pyramid; assertions are taken as enabled, since binding happens inside one.
- Neutral.StripKeepsValue: is about expression trees; casts, floating-point literals and the printed text are left out (the code drops the parentheses of an operand it keeps, so printing without adding any may regroup it).
- The vectorised stream filters (`*VECT*`, `getWinCoords`), `distribute16`, `collect16` and the FIXED variants.
- Boundary::CONSTANT in the DSL and in emitted code; interpolation.
- Renderscript launch sizes, exploration of configurations, textures and vectorised kernels.
- The OpenCL, CUDA and Renderscript calls themselves, timing, and option parsing.
