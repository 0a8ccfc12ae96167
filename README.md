# Irrlicht 0.1 engine core in Dafny

This project models the core of version 0.1 of the Irrlicht 3D engine. That core is the software half of the engine. It does not cover the platform device, the GUI toolkit or the hardware drivers. Each Dafny module follows one source file:

- **Color**: 16-bit A1R5G5B5 colour packing and its field accessors (`Color.h`).
- **HeapSort**: the engine's in-place heapsort over an `array` (`heapsort.h`).
- **Randomizer**: the Park–Miller generator of `os.cpp`, with s32 wrap-around written out.
- **MemoryReadFile** and **LimitReadFile**: files read from memory, and a window onto another file (`CMemoryReadFile.cpp`, `CLimitReadFile.cpp`).
- **Surface**: 16-bit surfaces (`CSurface.cpp`). Covers pixel access, rectangle fills, clipped copies, line drawing and the `Surface` class over a pixel `array`.
- **BmpLoader**: the BMP loader (`CSurfaceLoaderBmp.cpp`). Covers header checks, palette size, row padding and RLE8/RLE4 decompression.
- **GuiFont**: the bitmap font (`CGUIFont.cpp`). Covers the glyph-border scan, glyph lookup, text dimension and drawing.
- **SoftwareTexture**, **VideoNull** and **VideoSoftware**: the texture that pads a surface to powers of two, the null driver's texture cache and primitive counter, and the software driver's choice of triangle renderer, view port and render target.
- **BspTreeTypes**, **BspPolygons**, **BspBuild**, **BspRender** and **BspTree**: the BSP tree of `CBspTree.cpp`. Covers polygon splitting, splitter choice, the recursive build with its statistics, and visible-leaf collection into per-material buffers.
- **OctTree** and **OctTreeSceneNode**: the octree of `OctTree.h` and the scene node that builds and queries it.
- **SceneMaterial**, **SceneManagerEntries** and **SceneManager**: the scene manager's mesh cache, node registration and the order of its render passes (`CSceneManager.cpp`).
- **Q3LevelMesh**, **AnimatedMeshMD2**, **AnimatedMeshMS3D** and **AnimatedMeshSceneNode**: the Quake 3 level, MD2 and Milkshape mesh loaders, and the frame logic of the animated mesh node.

Code that changes state step by step is modelled as classes, methods and loops. Objects the source updates in place are classes with `modifies` and `reads` frames. Pure computations are functions, each paired with lemmas that state what it means.

The source has a few defects. Where the model finds one, the member that models it takes a `Variant`: `AsWritten` follows the code and `Corrected` follows the evident intent. An out-of-bounds access that the written code makes is reported as a fault, `None` or an `Undefined` result, never as a value. "## Findings" lists each defect with the member that exhibits it and the member that corrects it.

Geometry that rests on floating point is a parameter of the model. That covers plane classification and box tests. The model states what follows from those answers, not how they are computed.

## Model

| member | source | states |
|---|---|---|
| Color.Red16 | irrlicht/include/Color.h:26-30 | getRed: the red field of an A1R5G5B5 value is below 32 |
| Color.Green16 | irrlicht/include/Color.h:33-37 | getGreen: the green field is below 32 |
| Color.Blue16 | irrlicht/include/Color.h:40-44 | getBlue: the blue field is below 32 |
| Color.RGB16 | irrlicht/include/Color.h:14-18 | the alpha bit is clear and each 5-bit field holds the top five bits of its channel's low byte |
| Color.RGB16OfBytes | irrlicht/include/Color.h:14-18 | for channels in 0..255 each field is the channel divided by 8 |
| Color.X8R8G8B8toA1R5G5B5 | irrlicht/include/Color.h:20-24 | alpha clear; red, green and blue fields are the top five bits of the 32-bit colour's bytes |
| Color.A1R5G5B5toA8R8G8B8 | irrlicht/include/Color.h:47-52 | each 5-bit field lands in the top of its byte and the alpha bit becomes bit 31 |
| Color.RoundTrip16 | irrlicht/include/Color.h:20-52 | widening a 16-bit colour and narrowing it again gives it back with the alpha bit cleared |
| Color.Pack | irrlicht/include/Color.h:70-73 | each channel of the packed value is the low byte of its argument |
| Color.ChannelsDetermine | irrlicht/include/Color.h:79-97 | two packed values with the same four channels are equal |
| Color.ToOpenGL | irrlicht/include/Color.h:124-132 | red and blue bytes exchanged, alpha and green kept |
| Color.ToOpenGLInvolution | irrlicht/include/Color.h:124-132 | converting twice gives the colour back |
| Color.Color.constructor | irrlicht/include/Color.h:70-73 | the four-channel constructor stores the packed value |
| Color.Color.FromValue | irrlicht/include/Color.h:75-77 | the one-value constructor stores the value unchanged |
| Color.Color.GetAlpha | irrlicht/include/Color.h:79-82 | the alpha byte of the stored value |
| Color.Color.GetRed | irrlicht/include/Color.h:84-87 | the red byte |
| Color.Color.GetGreen | irrlicht/include/Color.h:89-92 | the green byte |
| Color.Color.GetBlue | irrlicht/include/Color.h:94-97 | the blue byte |
| Color.Color.SetAlpha | irrlicht/include/Color.h:99-103 | alpha becomes the argument's low byte; red, green and blue are unchanged |
| Color.Color.SetRed | irrlicht/include/Color.h:105-108 | red becomes the argument's low byte; the other channels are unchanged |
| Color.Color.SetGreen | irrlicht/include/Color.h:110-113 | green becomes the argument's low byte; the other channels are unchanged |
| Color.Color.SetBlue | irrlicht/include/Color.h:115-118 | blue becomes the argument's low byte; the other channels are unchanged |
| Color.Color.Set | irrlicht/include/Color.h:134-150 | `set` gives the same value as the four-channel constructor |
| Color.Color.ToA1R5G5B5 | irrlicht/include/Color.h:120-122 | alpha dropped; each 5-bit field is the top of its channel |
| Color.Color.ToOpenGLColor | irrlicht/include/Color.h:124-132 | the OpenGL value has red and blue exchanged |
| Color.Color.NotEquals | irrlicht/include/Color.h:152-158 | `!=` is exactly the negation of `==` |
| Color.Alpha16 | irrlicht/include/Color.h:48 | the alpha bit of a 16-bit colour is 0 or 1 |
| Color.AlphaOf | irrlicht/include/Color.h:82 | getAlpha is the top byte, in 0..255 |
| Color.RedOf | irrlicht/include/Color.h:87 | getRed is the second byte, in 0..255 |
| Color.GreenOf | irrlicht/include/Color.h:92 | getGreen is the third byte, in 0..255 |
| Color.BlueOf | irrlicht/include/Color.h:97 | getBlue is the low byte, in 0..255 |
| HeapSort.LargerChild | irrlicht/include/heapsort.h:19-22 | the chosen child is the left one or the right one, lies inside the heap, is at least the left child, and the right one is taken only when it is strictly larger |
| HeapSort.SinkSwap | irrlicht/include/heapsort.h:24-29 | exchanging the hole with its larger child moves the hole one level down and keeps the heap above it |
| HeapSort.SinkDone | irrlicht/include/heapsort.h:31-32 | stopping when the element is not smaller than its larger child leaves a heap |
| HeapSort.Sink | irrlicht/include/heapsort.h:15-34 | sinking keeps the length of the array |
| HeapSort.SinkRestoresHeap | irrlicht/include/heapsort.h:15-34 | heapsink turns a heap with one misplaced root into a heap |
| HeapSort.SinkPermutes | irrlicht/include/heapsort.h:15-34 | heapsink only permutes the elements |
| HeapSort.SinkStaysInside | irrlicht/include/heapsort.h:15-34 | heapsink touches no element outside [element, max) |
| HeapSort.SinkKeepsBound | irrlicht/include/heapsort.h:15-34 | an upper bound on the sunk range still holds afterwards |
| HeapSort.Swap | irrlicht/include/heapsort.h:57-59 | the hand-written exchange keeps the length |
| HeapSort.SwapPermutes | irrlicht/include/heapsort.h:57-59 | the exchange keeps the multiset of elements |
| HeapSort.FirstParent | irrlicht/include/heapsort.h:50 | the first index of the build loop lies in [0, size] and no parent lies beyond it |
| HeapSort.BuildHeap | irrlicht/include/heapsort.h:50-51 | the build loop keeps the length |
| HeapSort.BuildHeapMakesHeap | irrlicht/include/heapsort.h:50-51 | the build loop turns any array into a max-heap, by permutation |
| HeapSort.RootSwapKeepsLowerHeap | irrlicht/include/heapsort.h:57-59 | swapping the root with the last heap element leaves a heap below the root |
| HeapSort.HeapRootIsMax | irrlicht/include/heapsort.h:55-60 | the root of a heap is its largest element |
| HeapSort.SortDown | irrlicht/include/heapsort.h:55-61 | the sort loop keeps the length |
| HeapSort.SortStepOrder | irrlicht/include/heapsort.h:55-61 | after one pass the sorted tail grows by one and every element before it is at most its head |
| HeapSort.SortStepHeap | irrlicht/include/heapsort.h:57-60 | after one pass the front is again a heap one shorter |
| HeapSort.SortDownStep | irrlicht/include/heapsort.h:55-61 | one pass keeps the sort invariant and permutes |
| HeapSort.SortDownSorts | irrlicht/include/heapsort.h:55-61 | the sort loop sorts and permutes |
| HeapSort.HeapSorted | irrlicht/include/heapsort.h:39-62 | heapsort keeps the length |
| HeapSort.HeapSortedIsSortedPermutation | irrlicht/include/heapsort.h:39-62 | heapsort yields a sorted permutation of its input |
| HeapSort.SortedPermutationUnique | irrlicht/include/heapsort.h:39-62 | any two sorted permutations of the same elements are equal, so heapsort's result is determined by the multiset alone |
| HeapSort.SortedTail | irrlicht/include/heapsort.h:39-62 | the tail of a sorted sequence is sorted and holds the remaining elements |
| HeapSort.SortedHeadIsLeast | irrlicht/include/heapsort.h:39-62 | the head of a sorted sequence is its least element |
| HeapSort.HeapSortedKeepsSorted | irrlicht/include/heapsort.h:39-62 | sorted input, in particular of size 0 or 1, is left unchanged |
| HeapSort.HeapSink | irrlicht/include/heapsort.h:15-34 | the in-place loop leaves the array equal to the sink function of its old contents |
| HeapSort.Sort | irrlicht/include/heapsort.h:39-62 | the in-place heapsort leaves the array equal to the heapsort function of its old contents |
| Randomizer.ConstantsAreSchrage | irrlicht/os.cpp:113-116 | the four constants satisfy m = a·q + r with r < q (q is m/a and r is m%a) and fit s32 |
| Randomizer.InitialSeedInRange | irrlicht/os.cpp:108 | the initial seed 0x0f0f0f0f lies in [0, m) |
| Randomizer.HighPart | irrlicht/os.cpp:118 | a·(seed%q) lies in [0, a·(q−1)] |
| Randomizer.LowPart | irrlicht/os.cpp:118 | r·(seed/q) lies in [0, seed] |
| Randomizer.LowPartBound | irrlicht/os.cpp:118 | r·(seed/q) never exceeds seed |
| Randomizer.Step | irrlicht/os.cpp:118-119 | one rand step maps [0, m) into [0, m) |
| Randomizer.NoOverflow | irrlicht/os.cpp:118-119 | neither product, their difference nor the corrected seed leaves the s32 range |
| Randomizer.StepIsMultiplication | irrlicht/os.cpp:111-122 | the Schrage step equals (a·seed) mod m |
| Randomizer.ModOfMultiple | irrlicht/os.cpp:118-119 | y = m·k + x with 0 <= x < m gives y mod m = x |
| Randomizer.AfterReset | irrlicht/os.cpp:111-127 | every value the generator returns after reset lies in [0, m) |
| Randomizer.AfterResetIsPower | irrlicht/os.cpp:111-127 | the n-th value after reset is a^n·seed0 mod m |
| Randomizer.MulMod | irrlicht/os.cpp:118-119 | (a·(x mod m)) mod m = (a·x) mod m |
| Randomizer.Generator.constructor | irrlicht/os.cpp:108 | a fresh generator holds the initial seed |
| Randomizer.Generator.Rand | irrlicht/os.cpp:111-122 | rand replaces the seed by one Schrage step, returns it, and the result is (a·old seed) mod m |
| Randomizer.Generator.Reset | irrlicht/os.cpp:125-128 | reset reinstalls the initial seed |
| MemoryReadFile.ReadAmountAsWritten | irrlicht/CMemoryReadFile.cpp:37-42 | the clamped amount, computed with the source's u32 sums, is a u32 |
| MemoryReadFile.ReadAmount | irrlicht/CMemoryReadFile.cpp:37-42 | the amount read is at most what is asked for, never passes Len, and is either all of it or everything up to Len |
| MemoryReadFile.ReadAmountWithoutWrap | irrlicht/CMemoryReadFile.cpp:37-42 | while Pos + size does not wrap, the source's amount equals the intended one |
| MemoryReadFile.ReadAmountOverrun | irrlicht/CMemoryReadFile.cpp:37-45 | at Pos 1 of a 1-byte file a request of 2^32−1 bytes is not clamped, though nothing is left |
| MemoryReadFile.SeekTarget | irrlicht/CMemoryReadFile.cpp:57-75 | a successful seek lands in [0, Len] |
| MemoryReadFile.SeekTargetMeaning | irrlicht/CMemoryReadFile.cpp:57-75 | seek succeeds exactly when the absolute or relative target lies in [0, Len], and then moves there |
| MemoryReadFile.File.constructor | irrlicht/CMemoryReadFile.cpp:14-22 | the file holds the memory block and starts at position 0 |
| MemoryReadFile.File.Read | irrlicht/CMemoryReadFile.cpp:35-50 | as written, read faults exactly when the u32-wrapped clamp lets it read past Len, and then nothing moves; otherwise (always, when corrected) it returns Buffer[Pos, Pos + amount) with the clamped amount and advances Pos by it |
| MemoryReadFile.File.Seek | irrlicht/CMemoryReadFile.cpp:57-75 | the result is whether the target is valid; on success Pos is the target, on failure Pos is unchanged |
| MemoryReadFile.File.GetSize | irrlicht/CMemoryReadFile.cpp:80-83 | the size is the length of the buffer |
| MemoryReadFile.File.GetPos | irrlicht/CMemoryReadFile.cpp:88-91 | the position lies in [0, size] |
| LimitReadFile.ReadRequest | irrlicht/CLimitReadFile.cpp:50-56 | inside the window, and while pos + size does not wrap in u32, the request never exceeds the asked size and never passes AreaEnd |
| LimitReadFile.ReadRequestIsMin | irrlicht/CLimitReadFile.cpp:52-56 | inside the window, and while pos + size does not wrap in u32, the request is min(size, AreaEnd − pos) |
| LimitReadFile.SeekArgument | irrlicht/CLimitReadFile.cpp:66-83 | the offset passed on is an s32, and a relative seek is never refused |
| LimitReadFile.SeekArgumentMeaning | irrlicht/CLimitReadFile.cpp:66-83 | an absolute seek to p targets AreaStart + p and is refused exactly when that passes AreaEnd; a relative move past AreaEnd is cut to land on AreaEnd |
| LimitReadFile.LimitFile.constructor | irrlicht/CLimitReadFile.cpp:14-35 | the window starts at the wrapped file's position and ends AreaSize bytes later (mod 2^32) |
| LimitReadFile.LimitFile.Read | irrlicht/CLimitReadFile.cpp:48-59 | at or past AreaEnd nothing is read and nothing moves; otherwise the wrapped memory file reads the request clamped to AreaEnd, with the same variant and fault |
| LimitReadFile.LimitFile.Seek | irrlicht/CLimitReadFile.cpp:66-83 | a refused absolute seek fails and leaves the position; otherwise the wrapped file seeks to the translated offset |
| LimitReadFile.LimitFile.GetSize | irrlicht/CLimitReadFile.cpp:88-91 | the size is AreaSize, whatever the wrapped file's length |
| LimitReadFile.LimitFile.GetPos | irrlicht/CLimitReadFile.cpp:96-99 | the position is the wrapped file's position minus AreaStart |
| MemoryReadFile.ReadAmountAsWrittenOverruns | irrlicht/CMemoryReadFile.cpp:37-42 | the source's amount passes Len exactly when Pos + size wraps past 2^32 to at most Len; otherwise it equals the intended amount |
| Surface.MasksPartitionPixel | irrlicht/CSurface.cpp:90-117 | the four channel masks are pairwise disjoint, cover all sixteen bits, and each selects exactly its channel |
| Surface.Clip | irrlicht/CSurface.cpp:137-156 | clipX / clipY clamp into [0, size]: values inside are kept, values below become 0 and values above become size |
| Surface.PixelAccessOffByOne | irrlicht/CSurface.cpp:61-78 | on a 2×2 surface getPixel(2, 1) and setPixel(5, 1) reach index 4, one past the buffer, and getPixel(2, 0) reads pixel (0, 1) |
| Surface.GetPixelIndex | irrlicht/CSurface.cpp:61-67 | a pixel is read exactly when (x, y) lies in [0, W) × [0, H), and then at its own index inside the buffer |
| Surface.SetPixelIndex | irrlicht/CSurface.cpp:73-78 | the written index always lies inside the buffer and is the pixel's own index when (x, y) is inside |
| Surface.PixelAccessAgreesInside | irrlicht/CSurface.cpp:61-78 | inside the surface the as-written and the corrected pixel accesses agree |
| Surface.FillSkipsOddLastPixel | irrlicht/CSurface.cpp:122-132 | on a surface with an odd pixel count fill leaves the last pixel unchanged and colours all others |
| Surface.ClampedSpan | irrlicht/CSurface.cpp:179-192 | the drawn area is the two corners clamped with clipX / clipY and put in order, so it lies inside the surface |
| Surface.SpanResultAt | irrlicht/CSurface.cpp:196-239 | a pixel is redrawn exactly when it lies in the span; every other pixel keeps its value |
| Surface.OpaqueRectanglePixel | irrlicht/CSurface.cpp:199-211 | with alpha 255 every redrawn pixel becomes the colour's 16-bit form, whatever it held |
| Surface.ClipRunStaysInside | irrlicht/CSurface.cpp:246-283 | a clipped run lies inside the clipping interval and inside the requested run, and its source moves by exactly as much as its target |
| Surface.ClipRunIsIntersection | irrlicht/CSurface.cpp:246-283 | clipping a non-empty run fails exactly when it misses the interval, and otherwise yields their intersection |
| Surface.ClipRunTwice | irrlicht/CSurface.cpp:342-413 | clipping against the clip rectangle and then the target yields the intersection of all three, or nothing exactly when that is empty |
| Surface.BlitPlanIsIntersection | irrlicht/CSurface.cpp:331-413 | a copy writes exactly the visible part of the placed source rectangle, reading the source pixel at the same offset, and nothing when that part is empty |
| Surface.ClipRunInside | irrlicht/CSurface.cpp:246-283 | a clipped run whose requested source lies inside the source surface reads only inside it |
| Surface.BlitPlanInside | irrlicht/CSurface.cpp:331-413 | a planned block writes inside the target and, when the source rectangle lies in the source, reads inside the source |
| Surface.BlitResultAt | irrlicht/CSurface.cpp:415-427 | a target pixel of the copied block gets the combined source pixel at the same offset; every other pixel keeps its value |
| Surface.RowsInside | irrlicht/CSurface.cpp:422-427 | each row of a block inside both surfaces, and each prefix of its rows, is inside too |
| Surface.BlitColumnStep | irrlicht/CSurface.cpp:498-505 | copying one more pixel of a row changes exactly that target pixel |
| Surface.BlitEmpty | irrlicht/CSurface.cpp:422-427 | a block with no rows or no columns changes nothing |
| Surface.BlitRowStep | irrlicht/CSurface.cpp:422-427 | copying row iy on top of the first iy rows gives the first iy + 1 rows |
| Surface.WalkInvariant | irrlicht/CSurface.cpp:653-671 | Bresenham's error term stays in [0, dMain) and D + i·dMinor = half + climbs·dMain |
| Surface.WalkClosedForm | irrlicht/CSurface.cpp:653-671 | after i steps the walk has climbed ⌈(i·dMinor − half)/dMain⌉ times |
| Surface.WalkReachesEnd | irrlicht/CSurface.cpp:653-691 | after dMain steps the walk has climbed exactly dMinor times |
| Surface.LineEnds | irrlicht/CSurface.cpp:639-691 | drawLine visits max(|dx|, |dy|) points starting at `from`, and the next point would be `to`, which is not drawn |
| Surface.LineIsConnected | irrlicht/CSurface.cpp:653-691 | consecutive points are neighbours: one step along the main axis and at most one along the other, towards `to` |
| Surface.PlotLine | irrlicht/CSurface.cpp:659-660 | plotting keeps the buffer length |
| Surface.PlotLineNext | irrlicht/CSurface.cpp:657-671 | plotting one more point writes that point when it is inside and nothing otherwise |
| Surface.PlotLineAt | irrlicht/CSurface.cpp:639-691 | a pixel ends up with the colour exactly when one of the visited points is that pixel; otherwise it keeps its value |
| Surface.Surface.constructor | irrlicht/CSurface.cpp:16-26 | a Width × Height buffer |
| Surface.Surface.GetPixel | irrlicht/CSurface.cpp:61-67 | as written, getPixel returns 0 off the surface, accepts x = W and y = H, and reads past the buffer (None) exactly when that index is at least W·H; corrected, it returns 0 outside [0, W) × [0, H) and the stored pixel inside |
| Surface.Surface.SetPixel | irrlicht/CSurface.cpp:73-78 | as written, setPixel writes the index clamped into [0, W] × [0, H], and faults exactly when that index is past the buffer; corrected, it writes exactly the pixel clamped onto the last row and column, and nothing else |
| Surface.Surface.DrawRectangle | irrlicht/CSurface.cpp:179-240 | every pixel of the clamped span is redrawn with the colour, or blended with it when alpha is below 255; nothing else changes |
| Surface.Surface.RedrawSpan | irrlicht/CSurface.cpp:196-239 | the row loop redraws exactly the span |
| Surface.Surface.RedrawRow | irrlicht/CSurface.cpp:207-208 | the inner loop redraws exactly columns [left, right) of one row |
| Surface.Surface.CopyBlock | irrlicht/CSurface.cpp:415-427 | the row loop writes exactly the block, each pixel from the source pixel at the block's offset |
| Surface.Surface.CopyRow | irrlicht/CSurface.cpp:492-508 | one row is written pixel by pixel with the variant's combination |
| Surface.Surface.CopyTo | irrlicht/CSurface.cpp:296-326 | the whole surface placed at (x, y), clipped against the target, is copied; nothing else changes |
| Surface.Surface.CopyToRect | irrlicht/CSurface.cpp:331-428 | the source rectangle is copied through the clip rectangle and the target, or nothing when the plan is empty |
| Surface.Surface.CopyToWithAlpha | irrlicht/CSurface.cpp:433-510 | as the rectangle copy without clip rectangle, but transparent source pixels leave the target pixel |
| Surface.Surface.CopyToWithAlphaColor | irrlicht/CSurface.cpp:516-634 | as the clipped rectangle copy, writing the opaque source pixels tinted channel by channel by the colour |
| Surface.Surface.DrawLine | irrlicht/CSurface.cpp:639-692 | the buffer becomes the line's points plotted where they lie inside |
| Surface.Surface.DrawAlongX | irrlicht/CSurface.cpp:653-672 | the x-major loop plots the line's points in order |
| Surface.Surface.DrawAlongY | irrlicht/CSurface.cpp:673-691 | the y-major loop (also on a tie) plots the line's points in order |
| Surface.Surface.Fill | irrlicht/CSurface.cpp:122-132 | the first 2·(size/2) pixels become the colour and the rest keep their value |
| Surface.GetPixelIndexAsWritten | irrlicht/CSurface.cpp:61-67 | getPixel's bounds check admits exactly 0 <= x <= W and 0 <= y <= H and then reads index y·W + x |
| Surface.PixelPastEnd | irrlicht/CSurface.cpp:61-78 | on any non-empty surface getPixel(W, H − 1) as written reads one past the buffer, where the corrected one returns 0, and setPixel(W + 1, H − 1) writes one past it |
| BmpLoader.AbsolutePad | irrlicht/CSurfaceLoaderBmp.cpp:91 | the pad after an absolute run is at most one byte |
| BmpLoader.AbsolutePadIsParity | irrlicht/CSurfaceLoaderBmp.cpp:91-163 | the pad is (2 − count % 2) % 2, one byte exactly when the count is odd |
| BmpLoader.Step8 | irrlicht/CSurfaceLoaderBmp.cpp:67-114 | one RLE8 command moves the read cursor forward and keeps the buffer size; the end-of-bitmap escape returns the buffer as it is |
| BmpLoader.Run8 | irrlicht/CSurfaceLoaderBmp.cpp:105-114 | an encoded run consumes two bytes, or faults when it would write past the buffer |
| BmpLoader.Escape8 | irrlicht/CSurfaceLoaderBmp.cpp:67-103 | an escape moves the read cursor forward; end of bitmap returns the buffer unchanged |
| BmpLoader.Absolute8 | irrlicht/CSurfaceLoaderBmp.cpp:87-102 | an absolute run moves the read cursor forward, or faults when it reads or writes outside the buffers |
| BmpLoader.Decode8 | irrlicht/CSurfaceLoaderBmp.cpp:65-118 | a completed RLE8 decoding keeps the size of the new buffer |
| BmpLoader.Continue8 | irrlicht/CSurfaceLoaderBmp.cpp:65-115 | one loop pass followed by the rest of the loop keeps the buffer size |
| BmpLoader.Decompress8BitRle | irrlicht/CSurfaceLoaderBmp.cpp:57-119 | decompress8BitRLE allocates a fresh (width + pitch) × height buffer and its outcome is the RLE8 decoding of the data |
| BmpLoader.Decode8Loop | irrlicht/CSurfaceLoaderBmp.cpp:65-118 | the in-place loop computes the RLE8 decoding and leaves it in the new buffer |
| BmpLoader.Decode8Unfold | irrlicht/CSurfaceLoaderBmp.cpp:65-115 | when the guard lets a command run, decoding is that command followed by the rest |
| BmpLoader.Command8 | irrlicht/CSurfaceLoaderBmp.cpp:67-114 | one pass of the loop body performs the RLE8 command on the buffers |
| BmpLoader.RunCommand8 | irrlicht/CSurfaceLoaderBmp.cpp:105-114 | the encoded-run branch performs the run |
| BmpLoader.EscapeCommand8 | irrlicht/CSurfaceLoaderBmp.cpp:67-103 | the escape branch performs end of line, end of bitmap, delta or an absolute run |
| BmpLoader.AbsoluteCommand8 | irrlicht/CSurfaceLoaderBmp.cpp:87-102 | the absolute branch copies the literal bytes and skips the pad |
| BmpLoader.FillRun | irrlicht/CSurfaceLoaderBmp.cpp:109-113 | the write loop sets exactly count bytes from d to the value |
| BmpLoader.CopyLiteral | irrlicht/CSurfaceLoaderBmp.cpp:93-98 | the copy loop copies exactly count bytes of the data in from d |
| BmpLoader.Rle8EndOfBitmap | irrlicht/CSurfaceLoaderBmp.cpp:78-81 | the escape 0, 1 ends decoding with the buffer as it is |
| BmpLoader.Rle8Run | irrlicht/CSurfaceLoaderBmp.cpp:105-114 | a run (count, value) writes the value count times and moves both cursors on |
| BmpLoader.EncodeRow | irrlicht/CSurfaceLoaderBmp.cpp:105-114 | the one-byte-run encoding of a row is twice as long as the row |
| BmpLoader.TimesIsProduct | irrlicht/CSurfaceLoaderBmp.cpp:76 | the row offset line · (width + pitch) is the product |
| BmpLoader.TimesGrows | irrlicht/CSurfaceLoaderBmp.cpp:76 | row line + n starts at least n rows after row line |
| BmpLoader.NextRow | irrlicht/CSurfaceLoaderBmp.cpp:76 | a later row starts at least one row length further on |
| BmpLoader.Paint | irrlicht/CSurfaceLoaderBmp.cpp:60-118 | laying rows out in the buffer keeps its size |
| BmpLoader.PaintEmptyRows | irrlicht/CSurfaceLoaderBmp.cpp:73-77 | laying out empty rows changes nothing |
| BmpLoader.EncodeRowAt | irrlicht/CSurfaceLoaderBmp.cpp:105-114 | the encoding of a row is a sequence of one-byte runs, wherever it is placed |
| BmpLoader.EncodesEncode8 | irrlicht/CSurfaceLoaderBmp.cpp:65-118 | the encoding of an image is its rows' runs separated by end-of-line escapes and closed by end of bitmap |
| BmpLoader.DecodeRow | irrlicht/CSurfaceLoaderBmp.cpp:105-114 | decoding a row's runs copies the row in at the write cursor |
| BmpLoader.DecodeRowHead | irrlicht/CSurfaceLoaderBmp.cpp:105-114 | decoding the first run of a row leaves the runs of the row's rest |
| BmpLoader.DecodeRunOfOne | irrlicht/CSurfaceLoaderBmp.cpp:105-114 | a run of one byte writes it and moves both cursors on by one |
| BmpLoader.CopyInAfterFill | irrlicht/CSurfaceLoaderBmp.cpp:105-114 | writing a row's first byte and then its rest is writing the row |
| BmpLoader.DecodeEndOfLine | irrlicht/CSurfaceLoaderBmp.cpp:73-77 | the end-of-line escape moves the write cursor to the start of the next row |
| BmpLoader.DecodeRows | irrlicht/CSurfaceLoaderBmp.cpp:65-118 | decoding the stream of some rows from the start of a row lays them out in the buffer |
| BmpLoader.DecodeFirstOfRows | irrlicht/CSurfaceLoaderBmp.cpp:65-118 | decoding the first of several rows ends on the next row, or finishes when the buffer is full |
| BmpLoader.RowsAheadNext | irrlicht/CSurfaceLoaderBmp.cpp:73-77 | after one row and its end-of-line escape the rest of the stream describes the other rows |
| BmpLoader.PaintFirst | irrlicht/CSurfaceLoaderBmp.cpp:73-77 | laying out rows is laying out the first row and then the others one row further on |
| BmpLoader.DecodeNoRows | irrlicht/CSurfaceLoaderBmp.cpp:78-81 | the stream of no rows ends decoding with the buffer as it is |
| BmpLoader.DecodeFirstRow | irrlicht/CSurfaceLoaderBmp.cpp:65-118 | a row followed by end of line copies the row and goes on at the next row, or finishes when the buffer is full |
| BmpLoader.Decode8Full | irrlicht/CSurfaceLoaderBmp.cpp:65 | a decoder whose write cursor reached the end of the buffer stops with the buffer |
| BmpLoader.EmptyAfterFullBuffer | irrlicht/CSurfaceLoaderBmp.cpp:65 | when a row ends at the end of the buffer, any rows after it are empty |
| BmpLoader.Rle8RoundTrip | irrlicht/CSurfaceLoaderBmp.cpp:57-119 | decompress8BitRLE turns the RLE8 encoding of an image's rows back into those rows, laid out width + pitch bytes apart, on either guard |
| BmpLoader.PaintAt | irrlicht/CSurfaceLoaderBmp.cpp:60-118 | byte c of a painted buffer row is byte c of that image row, and bytes past the row's length are untouched |
| BmpLoader.PaintKeeps | irrlicht/CSurfaceLoaderBmp.cpp:60-118 | laying out rows from row line on leaves the bytes before that row alone |
| BmpLoader.Rle8GuardAsWritten | irrlicht/CSurfaceLoaderBmp.cpp:65 | as written the guard holds at every read position whenever the size is positive |
| BmpLoader.Rle8ReadsPastData | irrlicht/CSurfaceLoaderBmp.cpp:65-118 | the stream [1, 7] without end of bitmap faults or not depending on the bytes after the data, while the corrected guard stops at its end |
| BmpLoader.Step8Frame | irrlicht/CSurfaceLoaderBmp.cpp:67-114 | a command that does not fault reads nothing past the data |
| BmpLoader.Rle8IgnoresTrailingBytes | irrlicht/CSurfaceLoaderBmp.cpp:65-118 | with the corrected guard, bytes after the data never change a decoding that does not fault |
| BmpLoader.Hi | irrlicht/CSurfaceLoaderBmp.cpp:168-197 | the high nibble is below 16 and is the byte's upper four bits |
| BmpLoader.Lo | irrlicht/CSurfaceLoaderBmp.cpp:196 | the low nibble is below 16 and is the byte's lower four bits |
| BmpLoader.NibblesDetermine | irrlicht/CSurfaceLoaderBmp.cpp:168-197 | a byte is determined by its two nibbles |
| BmpLoader.SetNibble | irrlicht/CSurfaceLoaderBmp.cpp:176-204 | the masked write replaces the chosen nibble and keeps the other |
| BmpLoader.Put | irrlicht/CSurfaceLoaderBmp.cpp:176-184 | a nibble can be written exactly when the cursor is inside the buffer, and the buffer keeps its size |
| BmpLoader.RunNibbles | irrlicht/CSurfaceLoaderBmp.cpp:200-212 | an encoded RLE4 run keeps the buffer size |
| BmpLoader.Increment | irrlicht/CSurfaceLoaderBmp.cpp:172 | ++ on a c8 byte is addition modulo 256 |
| BmpLoader.LiteralNibble | irrlicht/CSurfaceLoaderBmp.cpp:168-184 | one nibble of an absolute run keeps both buffer sizes and never moves the read cursor back |
| BmpLoader.Literal | irrlicht/CSurfaceLoaderBmp.cpp:166-186 | an absolute run keeps both buffer sizes and never moves the read cursor back |
| BmpLoader.LiteralBytes | irrlicht/CSurfaceLoaderBmp.cpp:162-189 | the corrected run consumes at least one byte per two nibbles |
| BmpLoader.LiteralBytesIsWords | irrlicht/CSurfaceLoaderBmp.cpp:162-189 | the corrected run consumes whole 16-bit words, four nibbles to a word |
| BmpLoader.PadAsWrittenMatchesWords | irrlicht/CSurfaceLoaderBmp.cpp:163-189 | with the cursor advanced once per data byte, the source's pad makes the run take whole 16-bit words exactly when the nibble count is 0 or 3 modulo 4 |
| BmpLoader.Rle4PadAsWritten | irrlicht/CSurfaceLoaderBmp.cpp:163-189 | a run of two nibbles with the cursor advanced past its data byte gets no pad, so the next command is read one byte into the run's word |
| BmpLoader.Step4 | irrlicht/CSurfaceLoaderBmp.cpp:134-213 | one RLE4 command moves the read cursor forward and keeps both buffer sizes; end of bitmap returns the buffer unchanged |
| BmpLoader.Run4 | irrlicht/CSurfaceLoaderBmp.cpp:193-213 | an encoded run consumes two bytes and keeps the data, or faults |
| BmpLoader.Escape4 | irrlicht/CSurfaceLoaderBmp.cpp:134-192 | an escape moves the read cursor forward and keeps both buffer sizes |
| BmpLoader.Absolute4 | irrlicht/CSurfaceLoaderBmp.cpp:159-190 | an absolute run moves the read cursor forward, or faults |
| BmpLoader.Decode4 | irrlicht/CSurfaceLoaderBmp.cpp:132-217 | a completed RLE4 decoding keeps the size of the new buffer |
| BmpLoader.Continue4 | irrlicht/CSurfaceLoaderBmp.cpp:132-214 | one loop pass followed by the rest of the loop keeps the buffer size |
| BmpLoader.Decompress4BitRle | irrlicht/CSurfaceLoaderBmp.cpp:122-218 | decompress4BitRLE allocates a fresh lineWidth × height buffer and its outcome is the RLE4 decoding of the data |
| BmpLoader.Decode4Loop | irrlicht/CSurfaceLoaderBmp.cpp:132-217 | the in-place loop computes the RLE4 decoding and leaves it in the new buffer |
| BmpLoader.Decode4Unfold | irrlicht/CSurfaceLoaderBmp.cpp:132-214 | when the guard lets a command run, decoding is that command followed by the rest |
| BmpLoader.Command4 | irrlicht/CSurfaceLoaderBmp.cpp:134-213 | one pass of the loop body performs the RLE4 command |
| BmpLoader.RunCommand4 | irrlicht/CSurfaceLoaderBmp.cpp:193-213 | the encoded-run branch performs the run |
| BmpLoader.WriteRun | irrlicht/CSurfaceLoaderBmp.cpp:200-212 | the write loop puts the run's nibbles alternately from the value's two halves |
| BmpLoader.EscapeCommand4 | irrlicht/CSurfaceLoaderBmp.cpp:136-191 | the escape branch performs end of line, end of bitmap, delta or an absolute run |
| BmpLoader.AbsoluteCommand4 | irrlicht/CSurfaceLoaderBmp.cpp:159-190 | the absolute branch copies the run's nibbles and moves the read cursor |
| BmpLoader.Absolute4Outcome | irrlicht/CSurfaceLoaderBmp.cpp:159-190 | an absolute run faults exactly when its nibbles do, and otherwise goes on after them with the pad (as written) or past its words (corrected) |
| BmpLoader.SkipLiteral | irrlicht/CSurfaceLoaderBmp.cpp:188-189 | the read cursor ends after the pad as written, or past the run's words when corrected |
| BmpLoader.ReadLiteral | irrlicht/CSurfaceLoaderBmp.cpp:166-186 | the nibble loop of an absolute run performs the run on both buffers |
| BmpLoader.CopyNibble | irrlicht/CSurfaceLoaderBmp.cpp:168-184 | one pass of that loop performs one nibble |
| BmpLoader.PutByte | irrlicht/CSurfaceLoaderBmp.cpp:176-184 | writing a byte's high nibble and then its low nibble writes the byte |
| BmpLoader.RunNibblesFill | irrlicht/CSurfaceLoaderBmp.cpp:195-212 | a run of 2k nibbles starting on a high half writes the value into k whole bytes; an odd run also sets the next high half |
| BmpLoader.LiteralCopies | irrlicht/CSurfaceLoaderBmp.cpp:166-186 | the corrected absolute run of 2k nibbles copies k data bytes in order and ends just past them |
| BmpLoader.LiteralByte | irrlicht/CSurfaceLoaderBmp.cpp:166-186 | the first two nibbles of a corrected run copy one data byte |
| BmpLoader.CopyInStep | irrlicht/CSurfaceLoaderBmp.cpp:93-98 | copying a run in is copying its first byte and then the rest one further on |
| BmpLoader.LiteralAsWrittenByte | irrlicht/CSurfaceLoaderBmp.cpp:168-174 | as written, each two nibbles copy the byte under the read cursor, which then goes up by one while the cursor stays |
| BmpLoader.Climb | irrlicht/CSurfaceLoaderBmp.cpp:168-174 | the as-written run reads k bytes starting with the byte under the cursor |
| BmpLoader.BumpIsSum | irrlicht/CSurfaceLoaderBmp.cpp:172 | incrementing a byte k times adds k modulo 256 |
| BmpLoader.LiteralAsWrittenRun | irrlicht/CSurfaceLoaderBmp.cpp:166-186 | as written, a run of 2k nibbles writes k bytes counting up from the byte under the cursor, adds k to that byte and leaves the cursor in place |
| BmpLoader.Rle4AbsoluteAsWritten | irrlicht/CSurfaceLoaderBmp.cpp:159-190 | as written, an absolute run of 2k nibbles writes k counting bytes and reads its next command from the run's first data byte |
| BmpLoader.Rle4AbsoluteCorrected | irrlicht/CSurfaceLoaderBmp.cpp:159-190 | corrected both in the cursor (++p) and in the pad (whole 16-bit words), the same run copies the k data bytes and goes on after the run's words |
| BmpLoader.Absolute4Copies | irrlicht/CSurfaceLoaderBmp.cpp:159-190 | corrected, the absolute run of 2k nibbles on a high half writes the k data bytes in order and moves the read cursor past the run's words, leaving the data unchanged |
| BmpLoader.Step4Absolute | irrlicht/CSurfaceLoaderBmp.cpp:159-162 | a command 0, count with count above 2 is an absolute run |
| BmpLoader.RoundedDataSize | irrlicht/CSurfaceLoaderBmp.cpp:244 | the data size is rounded up to a multiple of four, by less than four when no wrap occurs |
| BmpLoader.DataSize | irrlicht/CSurfaceLoaderBmp.cpp:244-264 | the bytes read are the rounded header size when that is not zero |
| BmpLoader.WidthInBytes | irrlicht/CSurfaceLoaderBmp.cpp:269-273 | the row's bytes hold width · bpp bits, with less than one byte to spare |
| BmpLoader.RowPitch | irrlicht/CSurfaceLoaderBmp.cpp:275-276 | the pitch is below 4 and brings the row to a multiple of four bytes |
| BmpLoader.Decompress | irrlicht/CSurfaceLoaderBmp.cpp:283-291 | the compression selects RLE8, RLE4 or the data unchanged |
| BmpLoader.SurfaceLoaderBmp.constructor | irrlicht/CSurfaceLoaderBmp.cpp:17-23 | both buffers start empty |
| BmpLoader.SurfaceLoaderBmp.LoadImage | irrlicht/CSurfaceLoaderBmp.cpp:223-330 | loadImage gives no surface exactly when the id is not 'MB' or 'BM' or the compression is above 2; a negative width or height gives the undefined result of its negative-sized buffers; otherwise the decompressed image; on acceptance both buffers are released |
| BmpLoader.PaletteSize | irrlicht/CSurfaceLoaderBmp.cpp:248-249 | the palette size, computed in u32, is below 2^30 |
| BmpLoader.PaletteSizeMeaning | irrlicht/CSurfaceLoaderBmp.cpp:248-249 | the palette size is (offset − pos)/4 when the data offset is not before the palette, and at least 2^29 entries when it is, because the u32 difference wraps |
| GuiFont.FontColorIsOpaqueWhite | irrlicht/CGUIFont.cpp:84 | colorFont is white with the alpha bit set, 0xFFFF |
| GuiFont.Transparent | irrlicht/CGUIFont.cpp:83 | colorBackGroundWithAlphaFalse has the alpha bit clear and differs from the background in no other bit |
| GuiFont.Rewrite | irrlicht/CGUIFont.cpp:101-123 | a pixel becomes opaque exactly when it is not a marker or background pixel; markers and background become the transparent background, everything else the font colour |
| GuiFont.Prepared | irrlicht/CGUIFont.cpp:79-87 | the second and third pixels are overwritten with the background colour before the scan; every other pixel is kept |
| GuiFont.Rewritten | irrlicht/CGUIFont.cpp:95-130 | after n pixels of the scan exactly those n pixels are rewritten |
| GuiFont.RewrittenStep | irrlicht/CGUIFont.cpp:99-127 | rewriting pixel n on top of the first n gives the first n + 1 |
| GuiFont.Coordinates | irrlicht/CGUIFont.cpp:95-99 | the scan position of buffer index k has a column inside the row |
| GuiFont.CoordinatesLocate | irrlicht/CGUIFont.cpp:95-99 | those coordinates are the ones whose buffer index is k |
| GuiFont.ScanPrefix | irrlicht/CGUIFont.cpp:95-130 | a scan that gives up does so at a pixel already visited |
| GuiFont.ScanPrefixNext | irrlicht/CGUIFont.cpp:99-127 | one more pixel of a scan that has not given up is one more step |
| GuiFont.CoordinatesNext | irrlicht/CGUIFont.cpp:95-130 | the next pixel is one column on, or the first of the next row |
| GuiFont.StopPersists | irrlicht/CGUIFont.cpp:109-113 | a scan that has given up stays given up |
| GuiFont.ScanCounts | irrlicht/CGUIFont.cpp:95-130 | until it gives up the scan holds one rectangle per top-left marker and has closed one per lower-right marker, never more than it holds; it gives up at a lower-right marker when every rectangle is closed |
| GuiFont.MarkersStep | irrlicht/CGUIFont.cpp:101-118 | the marker counts of one more pixel |
| GuiFont.StepCounts | irrlicht/CGUIFont.cpp:101-118 | a top-left marker adds a rectangle; a lower-right marker closes one, or gives up when none is open |
| GuiFont.ScanStopsIff | irrlicht/CGUIFont.cpp:107-113 | loadTexture fails in the scan exactly when a lower-right marker comes with every opened rectangle closed already |
| GuiFont.FirstGlyphAtOrigin | irrlicht/CGUIFont.cpp:79-105 | since the first pixel carries the top-left colour, a font loaded from scratch has its first glyph at the origin |
| GuiFont.ScanGlyphs | irrlicht/CGUIFont.cpp:91-130 | the scan loop over the buffer computes the scan specification and rewrites the pixels it visits |
| GuiFont.ScanNext | irrlicht/CGUIFont.cpp:99-127 | one pixel of the loop either gives up, with the whole scan given up there, or extends the scan by one pixel |
| GuiFont.ScanPixel | irrlicht/CGUIFont.cpp:101-123 | one pixel: the step on the glyph list, and the pixel rewritten unless the scan gives up |
| GuiFont.GlyphIndexPastEnd | irrlicht/CGUIFont.cpp:162-166 | as written, the character just past the last glyph is not replaced and indexes one past the end of Positions |
| GuiFont.GlyphIndex | irrlicht/CGUIFont.cpp:162-164 | the glyph is c − 32 for a character with a glyph and WrongCharacter for every other, always a valid index |
| GuiFont.GlyphIndexAgrees | irrlicht/CGUIFont.cpp:162-164 | the as-written and the corrected choice differ only for that one character |
| GuiFont.TextWidthAppend | irrlicht/CGUIFont.cpp:160-167 | the width of two texts one after the other is the sum of their widths |
| GuiFont.HalfMargin | irrlicht/CGUIFont.cpp:188-191 | the shift halves the margin, rounding down |
| GuiFont.Font.constructor | irrlicht/CGUIFont.cpp:10-19 | a new font has no glyphs, no texture and WrongCharacter 0 |
| GuiFont.Font.LoadTexture | irrlicht/CGUIFont.cpp:57-150 | a null texture fails and changes nothing; otherwise the glyph list is the scan's, the pixels are rewritten up to where it gave up, WrongCharacter becomes 127 past 127 glyphs, success means a rectangle was opened and one closed, and the unlock refreshes a padded texture surface with the scaled copy of the rewritten pixels |
| GuiFont.Font.ScanTexture | irrlicht/CGUIFont.cpp:61-133 | the scan part of loadTexture: the glyph list is the scan's, the pixels are rewritten up to where it gave up, and a completed scan sets WrongCharacter to 127 past 127 glyphs and succeeds when a rectangle was opened and one closed |
| GuiFont.Font.GetDimension | irrlicht/CGUIFont.cpp:154-170 | the height is glyph 0's; as written it faults exactly when some character is 32 + the glyph count (read one past Positions), otherwise (always, when corrected) the width is the sum of the text's glyph widths |
| GuiFont.Font.Draw | irrlicht/CGUIFont.cpp:175-208 | without a driver nothing is drawn; otherwise as written it faults exactly when a character is 32 + the glyph count, and without a fault it draws one glyph per character from the corner, or centred when asked |
| GuiFont.Font.DrawFrom | irrlicht/CGUIFont.cpp:196-207 | the glyph loop hands the driver the text's glyphs, each after the widths of those before it; as written it stops with a fault at the first character 32 + the glyph count, having drawn exactly the glyphs before it |
| GuiFont.DrawCalls | irrlicht/CGUIFont.cpp:196-207 | one draw call per character |
| GuiFont.DrawCallsAt | irrlicht/CGUIFont.cpp:196-207 | character i is drawn with its own glyph on the text's line, right of the glyphs before it |
| GuiFont.DrawCallsAbut | irrlicht/CGUIFont.cpp:202-204 | each glyph starts where the previous one ends |
| GuiFont.CentredTextMargins | irrlicht/CGUIFont.cpp:187-188 | a centred text's two margins differ by at most one pixel, the extra one on the right |
| GuiFont.GlyphChoice | irrlicht/CGUIFont.cpp:162-164 | as written the character 32 + count selects glyph count, one past the end; for every other character both variants select the corrected glyph |
| SoftwareTexture.PaddedSizeIsCeiling | irrlicht/CSoftwareTexture.cpp:103-110 | getTextureSizeFromSurfaceSize yields the least power of two that is at least the size (and at least 1) |
| SoftwareTexture.PaddedFromBounds | irrlicht/CSoftwareTexture.cpp:105-107 | doubling from a power of two that is not yet past the size ends at a power of two at least the size, and no larger than needed |
| SoftwareTexture.PaddedSizeOfPower | irrlicht/CSoftwareTexture.cpp:103-110 | a side that is already a power of two keeps its size |
| SoftwareTexture.TextureSizeFromSurfaceSize | irrlicht/CSoftwareTexture.cpp:103-110 | the doubling loop returns the padded size, in [1, 2^30] |
| SoftwareTexture.Texture.constructor | irrlicht/CSoftwareTexture.cpp:10-38 | a texture keeps its surface; when the padded size differs a fresh surface of that size holds the scaled copy, otherwise the surface itself is the texture |
| SoftwareTexture.Texture.Unlock | irrlicht/CSoftwareTexture.cpp:63-74 | unlock re-copies the scaled surface into a separate texture surface and leaves a shared one alone |
| SoftwareTexture.Texture.GetDimension | irrlicht/CSoftwareTexture.cpp:79-82 | the dimension is the original surface's, no larger than the texture surface and equal to it exactly when no padding was made |
| SoftwareTexture.Texture.GetPitch | irrlicht/CSoftwareTexture.cpp:131-134 | the pitch is two bytes per pixel of the original surface's row |
| VideoNull.Texture.constructor | irrlicht/CVideoNull.cpp:126 | a texture a loader creates holds one reference, the creator's |
| VideoNull.Texture.Grab | irrlicht/CVideoNull.cpp:235 | grab adds one reference |
| VideoNull.Texture.Drop | irrlicht/CVideoNull.cpp:67 | drop removes one reference |
| VideoNull.Lookup | irrlicht/CVideoNull.cpp:253-257 | the search finds an entry exactly when one has the name, and then it is the first such entry |
| VideoNull.LookupAfterAppend | irrlicht/CVideoNull.cpp:237 | appending an entry keeps every earlier hit and finds the new one only for a name not there before |
| VideoNull.Count | irrlicht/CVideoNull.cpp:66-67 | the number of cache entries holding a texture is at most the cache size |
| VideoNull.Counted | irrlicht/CVideoNull.cpp:307-310 | the counter after adding s32 triangle counts to a u32 stays a u32 |
| VideoNull.CountedIsSum | irrlicht/CVideoNull.cpp:307-318 | from zero, the counter is the sum of the triangle counts modulo 2^32 |
| VideoNull.Driver.constructor | irrlicht/CVideoNull.cpp:21-39 | a new driver has drawn nothing and caches no texture |
| VideoNull.Driver.BeginScene | irrlicht/CVideoNull.cpp:75-79 | beginScene succeeds, resets the primitive counter and keeps the cache |
| VideoNull.Driver.DrawIndexedTriangleList | irrlicht/CVideoNull.cpp:307-310 | drawing only adds the triangle count to the u32 counter, with wrap-around |
| VideoNull.Driver.GetPrimitiveCountDrawed | irrlicht/CVideoNull.cpp:361-364 | the counter is returned as a u32 |
| VideoNull.Driver.AddTexture | irrlicht/CVideoNull.cpp:224-239 | a null texture is ignored; otherwise it is appended under its lower-cased name (empty for a null name) and grabbed once |
| VideoNull.Driver.FindTexture | irrlicht/CVideoNull.cpp:244-258 | a texture is found exactly when the cache holds an entry under the lower-cased name, and it is a cached texture |
| VideoNull.Driver.GetTexture | irrlicht/CVideoNull.cpp:115-140 | a cached texture is returned and nothing changes; otherwise the loaded texture, if any, is cached under the name with its reference count unchanged overall |
| VideoNull.Driver.DeleteAllTextures | irrlicht/CVideoNull.cpp:64-70 | every texture loses one reference per cache entry holding it, and the cache is emptied |
| VideoNull.GetTextureCaches | irrlicht/CVideoNull.cpp:115-140 | after a miss and a load, looking the same name up finds the loaded texture |
| VideoSoftware.SelectRenderer | irrlicht/CVideoSoftware.cpp:104-124 | the renderer is textured exactly when a texture is set, Gouraud exactly when the material asks for Gouraud shading, and wire exactly when it asks for wireframe |
| VideoSoftware.SelectRendererIsOnto | irrlicht/CVideoSoftware.cpp:104-124 | every one of the eight renderers is chosen for its own combination of the three flags |
| VideoSoftware.Half | irrlicht/CVideoSoftware.cpp:282-283 | C's division of an s32 by 2 truncates towards zero |
| VideoSoftware.TranslationIsCentre | irrlicht/CVideoSoftware.cpp:282-283 | for a viewport that is not inverted the 2D translation is Left + ⌊w/2⌋, Top + ⌈h/2⌉, and the pixel above it lies in the viewport exactly when the viewport is not empty |
| VideoSoftware.Driver.constructor | irrlicht/CVideoSoftware.cpp:13-54 | a new driver has a cleared back buffer of the window's size as render target, the whole window as viewport, a z-buffer of that size, no texture, and the renderer chosen for the material |
| VideoSoftware.Driver.SelectRightTriangleRenderer | irrlicht/CVideoSoftware.cpp:90-124 | the renderer becomes the decision table's choice for the current texture and material, and is handed the culling flag, the current texture, the render target and the viewport |
| VideoSoftware.Driver.SetTexture | irrlicht/CVideoSoftware.cpp:170-191 | the old texture loses a reference and the new one gains one (a re-set one keeps its count), the texture is stored and the renderer reselected for it |
| VideoSoftware.Driver.SetMaterial | irrlicht/CVideoSoftware.cpp:196-200 | the material is stored, its first texture set, and the renderer reselected for both |
| VideoSoftware.Driver.SetViewPort | irrlicht/CVideoSoftware.cpp:271-287 | the viewport is the area clipped to the render target, its size and translation follow it, and a current renderer is handed the new viewport |
| VideoSoftware.Driver.SetRenderTarget | irrlicht/CVideoSoftware.cpp:245-266 | the target size is the surface's or 0 × 0 for null, the viewport becomes the whole target, and an existing z-buffer takes the target's size |
| VideoSoftware.Driver.AttachSurface | irrlicht/CVideoSoftware.cpp:247-259 | the surface becomes the target with its size, or 0 × 0 for null |
| VideoSoftware.Driver.BeginScene | irrlicht/CVideoSoftware.cpp:204-215 | the counter is reset, the back buffer filled with the 16-bit colour when asked, and the call succeeds |
| VideoSoftware.Driver.DrawIndexedTriangleList | irrlicht/CVideoSoftware.cpp:292-300 | without a render target or z-buffer nothing is counted; otherwise the triangles are counted and the transformed-point buffer grows to at least the vertex count |
| BspTreeTypes.SameFrom | irrlicht/CBspTree.h:79-89 | the element loop of operator== succeeds exactly when the two sequences agree from that position on |
| BspTreeTypes.Equals | irrlicht/CBspTree.h:72-92 | two polygons are equal exactly when they agree in vertices, indices and plane, whatever their material and splitter flag |
| BspTreeTypes.NewNode | irrlicht/CBspTree.h:97-99 | a new node is not a leaf, has no children and no polygons |
| BspPolygons.TallyAll | irrlicht/CBspTree.cpp:348-362 | each count is at most the vertex count, and it reaches it exactly when every vertex is front-or-planar, back-or-planar, or planar respectively |
| BspPolygons.ClassifyMeaning | irrlicht/CBspTree.cpp:346-374 | a polygon is PLANAR iff all vertices are planar, FRONT iff not that and all are front-or-planar, BACK iff neither and all are back-or-planar, SPANNING otherwise |
| BspPolygons.ClassifyPoly | irrlicht/CBspTree.cpp:346-374 | the counting loop returns the classification of the polygon's vertices |
| BspPolygons.Score | irrlicht/CBspTree.cpp:197 | below 2^28 per counter the score is abs(front − back) + 3·spanning + planar |
| BspPolygons.Scan | irrlicht/CBspTree.cpp:172-209 | the polygon kept after the first k is one of them |
| BspPolygons.ScanPrefix | irrlicht/CBspTree.cpp:172-209 | after k polygons nothing is kept exactly when none is eligible; otherwise the kept one is eligible, strictly better than every earlier eligible one and no worse than every later one |
| BspPolygons.Best | irrlicht/CBspTree.cpp:167-218 | the chosen splitter is one of the polygons |
| BspPolygons.BestIsFirstMinimum | irrlicht/CBspTree.cpp:167-218 | findSplitter finds nothing exactly when no polygon is unused, non-convex against its plane and scored below 0xfffffff; otherwise it picks the first such polygon of least score |
| BspPolygons.CountRelations | irrlicht/CBspTree.cpp:181-195 | the inner loop counts every other polygon's class against candidate i |
| BspPolygons.Consider | irrlicht/CBspTree.cpp:172-208 | one outer turn keeps polygon i exactly when it is unused, non-convex and scores strictly below the best so far |
| BspPolygons.FindSplitter | irrlicht/CBspTree.cpp:167-218 | the result is true exactly when there is a best splitter; then its plane is returned and only its wasSplitter flag is set; otherwise nothing changes |
| BspPolygons.PointsCount | irrlicht/CBspTree.cpp:153-159 | the points fed to the box are exactly as many as the vertices of all polygons |
| BspPolygons.PointListed | irrlicht/CBspTree.cpp:157-158 | every vertex of every polygon is fed to the box |
| BspPolygons.BoxHoldsVertices | irrlicht/CBspTree.cpp:148-162 | the box is built from every vertex of every polygon, and the count is the total number of vertices |
| BspPolygons.CreateBoundingBox | irrlicht/CBspTree.cpp:148-162 | the loop returns the total vertex count and feeds the box the first vertex and then every vertex in order |
| BspPolygons.WalkShares | irrlicht/CBspTree.cpp:643-758 | the front list holds, as a multiset, the front-or-planar vertices plus every cut vertex, and the back list the back-or-planar vertices plus the same cut vertices |
| BspPolygons.WalkNotEmpty | irrlicht/CBspTree.cpp:643-758 | with a vertex on each side, both lists of the walk are non-empty |
| BspPolygons.SideVertexListed | irrlicht/CBspTree.cpp:647-662 | a front-or-planar vertex lands in the front list and a back-or-planar one in the back list, so a planar vertex lands in both |
| BspPolygons.AddCut | irrlicht/CBspTree.cpp:714-717 | a computed intersection vertex is appended to both lists |
| BspPolygons.AddVertex | irrlicht/CBspTree.cpp:647-662 | a vertex is appended to the list of its side, and to both when planar |
| BspPolygons.WalkVertex | irrlicht/CBspTree.cpp:665-758 | one step of the ring walk extends both lists by that edge's vertex and cut |
| BspPolygons.WalkRing | irrlicht/CBspTree.cpp:643-758 | the walk from the last vertex around the ring yields the specified front and back lists |
| BspPolygons.FanCount | irrlicht/CBspTree.cpp:771-782 | for 2 to 0x55555556 vertices the u32 round trip of (n − 2)·3 gives n − 2 triangles |
| BspPolygons.FanShape | irrlicht/CBspTree.cpp:780-789 | t fan triangles are 3t indices, the k-th triangle is (0, k+1, k+2), and every index is below t + 2, the vertex count |
| BspPolygons.FanIndices | irrlicht/CBspTree.cpp:780-789 | the v0/v1/v2 loop produces the fan |
| BspPolygons.SplitPoly | irrlicht/CBspTree.cpp:615-827 | the pieces are the walk's lists with fan indices and their own plane, and both keep the polygon's material and splitter flag |
| BspPolygons.PiecesNotEmpty | irrlicht/CBspTree.cpp:123-131 | a SPANNING polygon gives each child a piece with at least one vertex |
| BspPolygons.SortPolys | irrlicht/CBspTree.cpp:109-144 | the routing loop yields the routing specification: FRONT to front, BACK to back, SPANNING split into one piece each, PLANAR by the facing test |
| BspPolygons.RouteCount | irrlicht/CBspTree.cpp:109-144 | the children receive as many polygons as the node held plus one per split |
| BspPolygons.RouteHasVertices | irrlicht/CBspTree.cpp:109-144 | polygons with vertices route to polygons with vertices |
| BspPolygons.RouteMaterials | irrlicht/CBspTree.cpp:109-144 | routing keeps every polygon's material, pieces included |
| BspPolygons.RouteFills | irrlicht/CBspTree.cpp:115-140 | a FRONT or SPANNING polygon makes the front child non-empty, a BACK or SPANNING one the back child |
| BspBuild.Triangles | irrlicht/CBspTree.cpp:431-448 | one polygon per index triple of a buffer |
| BspBuild.RootPolysStep | irrlicht/CBspTree.cpp:423-449 | the root polygons of k + 1 buffers are those of k buffers followed by buffer k's triangles |
| BspBuild.TrianglesShaped | irrlicht/CBspTree.cpp:433-447 | every polygon from a buffer is a triangle with indices 0, 1, 2, no splitter flag, and that buffer's number as material |
| BspBuild.RootTriangles | irrlicht/CBspTree.cpp:407-450 | the root gets one polygon per three indices of all buffers, each shaped as createRoot makes it |
| BspBuild.RootReady | irrlicht/CBspTree.cpp:407-450 | the root polygons number a third of the original index count, each has vertices and names one of the buffers |
| BspBuild.TrianglesOf | irrlicht/CBspTree.cpp:431-448 | createRoot's inner loop yields the buffer's triangles |
| BspBuild.Materials | irrlicht/CBspTree.cpp:427 | the material map holds every buffer's material in buffer order |
| BspBuild.RootPolygons | irrlicht/CBspTree.cpp:423-449 | createRoot's outer loop yields all buffers' triangles and fills the material map |
| BspBuild.Zeros | irrlicht/CBspTree.cpp:488-494 | n counters, all zero |
| BspBuild.SumZeros | irrlicht/CBspTree.cpp:488-494 | zeroed counters sum to zero |
| BspBuild.CreateStats | irrlicht/CBspTree.cpp:468-497 | every counter starts at zero, the original totals are the buffers' vertex and index sums, and there is one zero index and vertex counter per material |
| BspBuild.AddSizes | irrlicht/CBspTree.cpp:530-546 | adding the polygons' sizes per material keeps the number of counters |
| BspBuild.AddSizesSum | irrlicht/CBspTree.cpp:530-546 | the per-material counters grow in sum by the polygons' total size, so they stay in step with the grand total |
| BspBuild.SizeTotalAppend | irrlicht/CBspTree.cpp:530-546 | the size of two polygon lists is the sum of their sizes |
| BspBuild.AddSizesAppend | irrlicht/CBspTree.cpp:530-546 | counting two lists one after the other is counting them together |
| BspBuild.Accumulate | irrlicht/CBspTree.cpp:530-546 | the counting loop adds the polygons' total size to the grand total and each polygon's size to its material's counter |
| BspBuild.CountPolyVertices | irrlicht/CBspTree.cpp:530-537 | countPolyVertizes adds the leaf's vertices to the vertex total and per material, and changes nothing else |
| BspBuild.CountPolyIndices | irrlicht/CBspTree.cpp:539-546 | countPolyIndizes adds, as written, the leaf's vertex counts to the index total and per material, or, corrected, its index counts; nothing else changes |
| BspBuild.QuadFragmentIndices | irrlicht/CBspTree.cpp:539-546 | a split fragment with four vertices has six indices, so the as-written index counter counts 4 where 6 indices are rendered |
| BspBuild.LeavesOutnumberInner | irrlicht/CBspTree.cpp:62-104 | a tree in which every inner node has two children has one leaf more than inner nodes |
| BspBuild.Splitter | irrlicht/CBspTree.cpp:64-72 | a splitter is one of the node's polygons, and only chosen while levels remain |
| BspBuild.EndsWithinMonotone | irrlicht/CBspTree.cpp:62-104 | a recursion that ends within d levels ends within any more |
| BspBuild.BuildStable | irrlicht/CBspTree.cpp:62-104 | once the unbounded recursion ends within d levels, building with d or any larger bound gives the same tree and the same splits, so the bound does not change the tree the source builds |
| BspBuild.BuildLeaf | irrlicht/CBspTree.cpp:74-88 | without a splitter the node is a leaf with its polygons, the default plane and its box, and nothing is split |
| BspBuild.BuildInner | irrlicht/CBspTree.cpp:90-104 | with a splitter the node takes its plane and box, keeps no polygons, and its children are the trees of the routed polygons; its splits are the routing's plus the children's |
| BspBuild.Grown | irrlicht/CBspTree.cpp:62-104 | building a subtree leaves the material map, the split counter, the original totals and the render counters alone, and keeps the number of counters |
| BspBuild.GrownCounts | irrlicht/CBspTree.cpp:80-93 | building counts every leaf once and every inner node twice |
| BspBuild.GrownSizes | irrlicht/CBspTree.cpp:80-83 | the totals and per-material counters grow by the leaf polygons' sizes, with the index measure the variant counts |
| BspBuild.GrownBoxes | irrlicht/CBspTree.cpp:85 | every leaf's box is recorded, in leaf order |
| BspBuild.GrownFromZero | irrlicht/CBspTree.cpp:62-104 | from zeroed statistics the leaf count is the tree's, the node count 2·(leaves − 1), each total the leaf polygons' size and the sum of its per-material counters; as written the index counters equal the vertex counters |
| BspBuild.GrownKeepsSplits | irrlicht/CBspTree.cpp:62-104 | building never touches the split counter |
| BspBuild.BuiltJoin | irrlicht/CBspTree.cpp:90-104 | an inner node's statistics are its two nodes and splits, then its front subtree's, then its back subtree's |
| BspBuild.Witness | irrlicht/CBspTree.cpp:181-195 | a positive count of a class names another polygon of that class |
| BspBuild.ChildrenFilled | irrlicht/CBspTree.cpp:90-104 | below a chosen splitter both children receive polygons, each with vertices and a material in range |
| BspBuild.ChildrenCount | irrlicht/CBspTree.cpp:96 | the children receive the node's polygons plus one per split |
| BspBuild.ChildrenMaterials | irrlicht/CBspTree.cpp:96 | routing below a splitter keeps the materials in range |
| BspBuild.BuildWellFormed | irrlicht/CBspTree.cpp:62-104 | every inner node of the built tree has two children and no polygons, every leaf none |
| BspBuild.BuildKeepsPolys | irrlicht/CBspTree.cpp:62-104 | the leaves hold the input polygons plus one per split |
| BspBuild.BuildMaterials | irrlicht/CBspTree.cpp:62-104 | every leaf polygon keeps a material of the input |
| BspBuild.BuiltTree | irrlicht/CBspTree.cpp:62-104 | the built tree is well formed, its leaf polygons keep their materials, and they number the input plus the splits |
| BspBuild.LeafRule | irrlicht/CBspTree.cpp:64-88 | a node is a leaf exactly when it has fewer than 50 vertices, the levels are used up, or no polygon is eligible; a leaf keeps its polygons and an inner node none |
| BspRender.CullBoxAgainstView | irrlicht/CBspTree.cpp:323-341 | the result is COMPLETE_OUTSIDE iff some of the six planes has the box in front, CLIPPED iff none does and some clips it, INSIDE otherwise |
| BspRender.DrawnWithin | irrlicht/CBspTree.cpp:243-266 | the exact traversal draws each leaf polygon at most once |
| BspRender.DrawnAll | irrlicht/CBspTree.cpp:243-266 | when no box is culled the exact traversal draws every leaf polygon |
| BspRender.DrawnBoxesWithin | irrlicht/CBspTree.cpp:271-286 | the box traversal draws each leaf polygon at most once |
| BspRender.Shifted | irrlicht/CBspTree.cpp:311-312 | every index is pushed moved past `start`, kept to 16 bits |
| BspRender.Batch | irrlicht/CBspTree.cpp:293-317 | batching keeps one buffer per material |
| BspRender.Cleared | irrlicht/CBspTree.cpp:225-229 | every material's buffer is emptied |
| BspRender.AppendPoly | irrlicht/CBspTree.cpp:298-312 | renderLeaf's two loops append the vertices, then the indices moved past the old vertex count |
| BspRender.BatchAppend | irrlicht/CBspTree.cpp:293-317 | batching one list after another is batching them together |
| BspRender.U16Below | irrlicht/CBspTree.cpp:312 | keeping 16 bits never makes an index larger |
| BspRender.AppendedInRange | irrlicht/CBspTree.cpp:298-312 | appending a polygon whose indices name its own vertices keeps every buffer index below the buffer's vertex count |
| BspRender.AppendedSameVertex | irrlicht/CBspTree.cpp:298-312 | while the buffer holds at most 65536 vertices, each appended index names the same vertex the polygon's index named |
| BspRender.BatchInRange | irrlicht/CBspTree.cpp:293-317 | batching keeps every buffer's indices in range |
| BspRender.BufferIndicesUpdate | irrlicht/CBspTree.cpp:311-316 | replacing one buffer changes the index total by the difference of the two buffers |
| BspRender.BatchCountsIndices | irrlicht/CBspTree.cpp:309-316 | batching adds exactly the polygons' indices to the buffers, as renderedIndices counts them |
| BspRender.ClearedIndices | irrlicht/CBspTree.cpp:225-232 | cleared buffers hold no index |
| BspTree.BspTree.constructor | irrlicht/CBspTree.cpp:18-47 | the tree is the build of the root triangles; the statistics count its leaves, nodes, splits, boxes and the leaf polygons' sizes per material (as written the index counters equal the vertex counters); one empty buffer per material |
| BspTree.BspTree.CreateRoot | irrlicht/CBspTree.cpp:407-450 | the root becomes an inner node without children holding every buffer's triangles, and the material map every buffer's material |
| BspTree.BspTree.CreateBspTree | irrlicht/CBspTree.cpp:62-104 | the node built is the specified tree and the statistics grow by it and its splits |
| BspTree.BspTree.Divide | irrlicht/CBspTree.cpp:90-104 | an inner node: two fresh children built from the routed polygons, its own polygons cleared |
| BspTree.BspTree.CreateChildren | irrlicht/CBspTree.cpp:101-103 | the front child is built, then the back child, and the statistics count both in that order |
| BspTree.BspTree.CountLeaf | irrlicht/CBspTree.cpp:76-87 | a leaf adds itself, its indices (as the variant counts them), its vertices and its box to the statistics |
| BspTree.BspTree.CreateRenderBuffer | irrlicht/CBspTree.cpp:514-527 | one empty buffer per material, nothing else changes |
| BspTree.BspTree.RenderLeaf | irrlicht/CBspTree.cpp:291-318 | each polygon is appended to its material's buffer and its indices counted as rendered |
| BspTree.BspTree.RenderNode | irrlicht/CBspTree.cpp:243-266 | the buffers receive the exact traversal's polygons, and every reached node is counted as a culling |
| BspTree.BspTree.RenderVisible | irrlicht/CBspTree.cpp:250-265 | below a box not completely outside, a leaf is drawn or the children are visited in the order the camera's side gives |
| BspTree.BspTree.RenderChildren | irrlicht/CBspTree.cpp:256-265 | two subtrees are rendered one after the other |
| BspTree.BspTree.RenderBoxCulling | irrlicht/CBspTree.cpp:271-286 | the buffers receive the box traversal's polygons, front subtree first, and every reached node is counted |
| BspTree.BspTree.Render | irrlicht/CBspTree.cpp:223-238 | the buffers are cleared and refilled by the chosen traversal, the counters restart from zero, and the rendered-index counter equals the indices in the buffers |
| OctTree.IndexLists | irrlicht/OctTree.h:57-70 | the constructor's copy of the index lists has one list per mesh chunk, equal to that chunk's indices |
| OctTree.WholeTriangles | irrlicht/OctTree.h:194-210 | what an octant takes and what it leaves of a list of whole triangles are again whole triangles, and no longer than the list |
| OctTree.KeptMovedPartition | irrlicht/OctTree.h:194-210 | every triangle of a list is either moved into the octant or kept, never both and never lost |
| OctTree.MovedInside | irrlicht/OctTree.h:196-198 | every moved triangle has all three vertices inside the octant, and no kept triangle has |
| OctTree.ScanStep | irrlicht/OctTree.h:194-209 | one step of the triangle scan: a triangle inside the octant goes to the child list, any other one stays |
| OctTree.MovedLists | irrlicht/OctTree.h:186-211 | the child lists of octant ch: per material, the triangles of the remaining list that the octant holds |
| OctTree.KeptLists | irrlicht/OctTree.h:186-211 | what the node keeps after octant ch: per material, the triangles the octant does not hold |
| OctTree.Build | irrlicht/OctTree.h:116-221 | a node has no index data exactly when its lists hold no index; otherwise it keeps its box lists, one list per material and eight child slots |
| OctTree.ChildOf | irrlicht/OctTree.h:213-216 | a child is created exactly when the octant took at least one index |
| OctTree.Octants | irrlicht/OctTree.h:176-218 | the octants from ch on leave one list per material and give one child slot per octant |
| OctTree.BuildStable | irrlicht/OctTree.h:175-214 | once the subdivision ends within d levels on the given lists, every larger depth bound builds the same tree |
| OctTree.OctantsStable | irrlicht/OctTree.h:176-218 | the same for the octant loop: a larger depth bound changes no child once the subdivision ends within the smaller one |
| OctTree.AtLists | irrlicht/OctTree.h:186-211 | the kept and moved lists of material m are what the octant keeps and takes of that material's list |
| OctTree.NoChildrenCollectNothing | irrlicht/OctTree.h:121-122 | absent children hold no indices |
| OctTree.CollectedAllCons | irrlicht/OctTree.h:251-253 | the indices below a sequence of children are those of the first child followed by those of the rest |
| OctTree.BuildConserves | irrlicht/OctTree.h:116-221 | the indices of material m held anywhere in the tree are exactly those the node was built from, as a multiset |
| OctTree.SplitConserves | irrlicht/OctTree.h:175-220 | a subdivided node and its children together hold exactly the indices of its lists |
| OctTree.EmptyConserves | irrlicht/OctTree.h:124-146 | a node built from no indices holds none |
| OctTree.LeafConserves | irrlicht/OctTree.h:175-220 | a node that does not subdivide holds its lists and nothing below it |
| OctTree.NodeConserves | irrlicht/OctTree.h:220 | a node whose kept lists and children hold the input's indices holds them as a whole |
| OctTree.OctantsConserve | irrlicht/OctTree.h:176-218 | the octants from ch on and what they leave together hold exactly the indices they started from |
| OctTree.Regroup | irrlicht/OctTree.h:200-204 | moving a triangle from the kept list into a child's list keeps the node's multiset of indices |
| OctTree.ChildConserves | irrlicht/OctTree.h:213-216 | a child holds exactly the triangles its octant took |
| OctTree.BuildQueryable | irrlicht/OctTree.h:84 | a tree built from lists with at least one index has index data at every node a query visits |
| OctTree.OctantsQueryable | irrlicht/OctTree.h:251-253 | every child the octant loop creates can be queried |
| OctTree.PolysWithin | irrlicht/OctTree.h:234-255 | a query returns a sub-multiset of the indices the subtree holds |
| OctTree.PolysAllWithin | irrlicht/OctTree.h:251-253 | the same for a sequence of children |
| OctTree.PolysInWithin | irrlicht/OctTree.h:252-253 | the same for one child slot, absent or present |
| OctTree.SubMultisetSize | irrlicht/OctTree.h:245-247 | a sub-multiset is no longer than the whole |
| OctTree.QueryWithin | irrlicht/OctTree.h:79-85 | the indices a query returns for a material are a sub-multiset of that material's input indices |
| OctTree.PolysEverything | irrlicht/OctTree.h:234-255 | a query whose box meets every node's box returns exactly what the subtree holds, in order |
| OctTree.PolysAllEverything | irrlicht/OctTree.h:251-253 | the same over a node's children in octant order |
| OctTree.PolysInEverything | irrlicht/OctTree.h:252-253 | the same for one child slot, absent or present |
| OctTree.QueryEverything | irrlicht/OctTree.h:79-85 | the converse of QueryWithin: a query that meets every box returns exactly the material's input indices as a multiset |
| OctTree.QueryFits | irrlicht/OctTree.h:245-247 | the indices a query copies for a material never exceed the buffer sized by that material's index count |
| OctTree.WrapBack | irrlicht/OctTree.h:194-206 | stepping a u32 counter back by 3 and forward by 3 returns it to its value, also at 0 |
| OctTree.OctTree.constructor | irrlicht/OctTree.h:45-75 | one empty output buffer per chunk sized by its index count, and the root built from copies of the chunks' index lists |
| OctTree.OctTree.CalculatePolys | irrlicht/OctTree.h:79-85 | every buffer is reset and then holds the query's indices of its material, which fit the buffer and come from that material's input |
| OctTree.BuildNode | irrlicht/OctTree.h:116-221 | the node constructor builds the tree Build describes |
| OctTree.HasIndices | irrlicht/OctTree.h:130-146 | the scan finds a list exactly when some list holds an index |
| OctTree.CountIndices | irrlicht/OctTree.h:148-156 | totalPrimitives is the total index count of the lists |
| OctTree.BuildChildren | irrlicht/OctTree.h:175-218 | the octant loop yields the kept lists and children Octants describes |
| OctTree.BuildOctant | irrlicht/OctTree.h:178-216 | one octant: the node keeps the triangles the octant does not hold, and the child is built from those it does |
| OctTree.MoveAll | irrlicht/OctTree.h:186-211 | the per-material loop moves each material's triangles, and `added` holds exactly when any index moved |
| OctTree.WholeTriangle | irrlicht/OctTree.h:194 | a triangle start below a multiple of three leaves room for the whole triangle |
| OctTree.ThreeMore | irrlicht/OctTree.h:194 | adding 3 keeps a counter's remainder modulo 3 |
| OctTree.EraseStep | irrlicht/OctTree.h:199-206 | erasing a triangle that fits and stepping t back keeps the scan's invariant |
| OctTree.KeepStep | irrlicht/OctTree.h:194-210 | skipping a triangle that does not fit keeps the scan's invariant |
| OctTree.MoveTriangles | irrlicht/OctTree.h:194-210 | the erase-and-step-back loop over one list yields exactly the kept and moved triangles, both whole triangles |
| OctTree.GetPolys | irrlicht/OctTree.h:234-255 | each material's buffer is extended by the indices of every node whose box the query box meets |
| OctTreeSceneNode.BufferIndices | irrlicht/COctTreeSceneNode.cpp:156-157 | the index lists handed to the tree, one per mesh buffer, equal to that buffer's indices |
| OctTreeSceneNode.PreRenderLands | irrlicht/COctTreeSceneNode.cpp:38-44 | a visible node lands in exactly one of the lists drawAll renders (transparent when one of its materials is, default otherwise) and never among the lights; an invisible one in none |
| OctTreeSceneNode.MakeChunk | irrlicht/COctTreeSceneNode.cpp:145-157 | a chunk holds the buffer's vertices and indices and the buffer's number as material id |
| OctTreeSceneNode.CopyBuffers | irrlicht/COctTreeSceneNode.cpp:143-158 | one material and one chunk per buffer, in buffer order, whose index lists are the buffers' |
| OctTreeSceneNode.NewTree | irrlicht/COctTreeSceneNode.cpp:143-161 | the copied chunks and materials, and a new tree built from those chunks |
| OctTreeSceneNode.DrawAll | irrlicht/COctTreeSceneNode.cpp:90-96 | one draw per material, with that material's chunk vertices, the indices found for it and a third of their count as triangles |
| OctTreeSceneNode.Node.AsSceneNode | irrlicht/COctTreeSceneNode.cpp:40-41 | the node registers with its id and materials |
| OctTreeSceneNode.Node.constructor | irrlicht/COctTreeSceneNode.cpp:17-25 | no tree and no vertex type yet, with the given id, position and visibility |
| OctTreeSceneNode.Node.CreateTree | irrlicht/COctTreeSceneNode.cpp:126-200 | always succeeds; no buffers leave the node without a vertex type, otherwise the first buffer's type decides which tree is built from all buffers |
| OctTreeSceneNode.Node.Render | irrlicht/COctTreeSceneNode.cpp:49-115 | nothing is drawn without a tree, driver or camera, or for another vertex type; otherwise the tree of the vertex type is queried and each material drawn with only indices of its own buffer |
| OctTreeSceneNode.Node.OnPreRender | irrlicht/COctTreeSceneNode.cpp:38-44 | a visible node registers itself once for rendering, an invisible one not at all |
| OctTreeSceneNode.Node.GetMaterial | irrlicht/COctTreeSceneNode.cpp:208-214 | a node material exactly for indices within the list, the base class's fallback otherwise |
| OctTreeSceneNode.Node.GetMaterialCount | irrlicht/COctTreeSceneNode.cpp:217-220 | one material per mesh buffer |
| Q3LevelMesh.LittleEndian32 | irrlicht/CQ3LevelMesh.cpp:84-86 | the header's 32-bit fields are read little-endian and lie in the u32 range |
| Q3LevelMesh.LittleEndianUnique | irrlicht/CQ3LevelMesh.cpp:86 | a little-endian word is determined by its four bytes, so the header test pins the bytes |
| Q3LevelMesh.HeaderOkIffIBSP46 | irrlicht/CQ3LevelMesh.cpp:86-90 | the header is accepted exactly when its first eight bytes are "IBSP" followed by version 46 |
| Q3LevelMesh.Convert | irrlicht/CQ3LevelMesh.cpp:299-313 | a converted vertex swaps the position's Y and Z and keeps normal, texture and lightmap coordinates |
| Q3LevelMesh.ConvertedColor | irrlicht/CQ3LevelMesh.cpp:302 | the converted colour takes alpha from color[3] and red, green, blue from color[0], color[1], color[2] |
| Q3LevelMesh.ByteMask | irrlicht/CQ3LevelMesh.cpp:302 | a byte survives the colour's 8-bit channel mask |
| Q3LevelMesh.ClampLightmap | irrlicht/CQ3LevelMesh.cpp:271-275 | a lightmap id in [-1, NumLightMaps - 1] is kept and any other becomes -1 |
| Q3LevelMesh.ClampFaces | irrlicht/CQ3LevelMesh.cpp:269-275 | every face's lightmap id is clamped in place and nothing else of the face changes |
| Q3LevelMesh.ClampKeepsFit | irrlicht/CQ3LevelMesh.cpp:271-279 | clamping the lightmap ids keeps every face's vertex range and texture id valid |
| Q3LevelMesh.SlotDivMod | irrlicht/CQ3LevelMesh.cpp:278 | the buffer slot l (NumTextures + 1) + t gives back the lightmap row and texture column |
| Q3LevelMesh.SlotBound | irrlicht/CQ3LevelMesh.cpp:253 | every (lightmap, texture) slot is one of the buffers reserved |
| Q3LevelMesh.RowBound | irrlicht/CQ3LevelMesh.cpp:437-440 | the row of any reserved buffer is a lightmap number up to NumLightMaps |
| Q3LevelMesh.FaceBufferInRange | irrlicht/CQ3LevelMesh.cpp:278-279 | the buffer a face with a clamped lightmap id is added to exists |
| Q3LevelMesh.AddFace | irrlicht/CQ3LevelMesh.cpp:271-333 | adding a face keeps the number of buffers |
| Q3LevelMesh.Constructed | irrlicht/CQ3LevelMesh.cpp:269-334 | adding the faces in order keeps the number of buffers |
| Q3LevelMesh.FanGrows | irrlicht/CQ3LevelMesh.cpp:286-323 | a normal polygon with n vertices adds n - 2 triangles of three new vertices each, keeps what the buffer held and its material, and keeps it well indexed |
| Q3LevelMesh.TriangleGrows | irrlicht/CQ3LevelMesh.cpp:288-322 | one fan triangle appends three vertices and the indices of exactly those three |
| Q3LevelMesh.ConstructedWellIndexed | irrlicht/CQ3LevelMesh.cpp:269-334 | construction keeps every buffer's indices pointing at its own vertices and keeps its material |
| Q3LevelMesh.FaceBufferIsItsPair | irrlicht/CQ3LevelMesh.cpp:278 | two faces share a buffer exactly when they have the same texture and the same clamped lightmap |
| Q3LevelMesh.TextureList | irrlicht/CQ3LevelMesh.cpp:352-374 | entry 0 is no texture and entry t the texture of the first existing file among name t - 1 with .jpg or .tga |
| Q3LevelMesh.AttachAll | irrlicht/CQ3LevelMesh.cpp:437-446 | attaching textures keeps the number of buffers |
| Q3LevelMesh.AttachedSlot | irrlicht/CQ3LevelMesh.cpp:437-446 | the buffer of lightmap l and texture t gets lightmap l's texture second and texture t first, solid when it has no lightmap |
| Q3LevelMesh.Pruned | irrlicht/CQ3LevelMesh.cpp:450-462 | pruning never adds buffers |
| Q3LevelMesh.PrunedKeepsGeometry | irrlicht/CQ3LevelMesh.cpp:450-462 | the buffers left are exactly those with at least one vertex and one index |
| Q3LevelMesh.PrunedAppend | irrlicht/CQ3LevelMesh.cpp:450-462 | pruning works buffer by buffer, keeping the order |
| Q3LevelMesh.ConstructedStep | irrlicht/CQ3LevelMesh.cpp:269-334 | construction over one more face is the construction so far with that face added |
| Q3LevelMesh.SlotNextRow | irrlicht/CQ3LevelMesh.cpp:437-440 | the nested attachment loops visit the slots in buffer order |
| Q3LevelMesh.LevelMesh.constructor | irrlicht/CQ3LevelMesh.cpp:16-30 | an empty level mesh that records whether a driver is present |
| Q3LevelMesh.LevelMesh.LoadFile | irrlicht/CQ3LevelMesh.cpp:76-119 | false and nothing changed for a missing file or a header other than IBSP 46; otherwise true, with clamped faces and the buffers of a constructed, textured and pruned mesh |
| Q3LevelMesh.LevelMesh.ConstructMesh | irrlicht/CQ3LevelMesh.cpp:249-336 | (NumTextures + 1)(NumLightMaps + 1) empty lightmap buffers, then every face added in order with its lightmap id clamped in place |
| Q3LevelMesh.LevelMesh.LoadTextures | irrlicht/CQ3LevelMesh.cpp:340-463 | without a driver nothing changes; otherwise every buffer gets its texture and lightmap and the buffers without geometry are deleted |
| Q3LevelMesh.LevelMesh.GetFrameCount | irrlicht/CQ3LevelMesh.cpp:124-127 | the level is a static mesh of one frame |
| SceneManagerEntries.NameLessIrreflexive | irrlicht/CSceneManager.h:141-144 | no mesh name is ordered before itself |
| SceneManagerEntries.NameLessTransitive | irrlicht/CSceneManager.h:141-144 | the name order is transitive |
| SceneManagerEntries.NameLessTotal | irrlicht/CSceneManager.h:141-144 | two different names are always ordered one way or the other |
| SceneManagerEntries.MeshEntriesEquivalent | irrlicht/CSceneManager.h:141-144 | two cache entries are equivalent under operator< exactly when they have the same name |
| SceneManagerEntries.TextureKey | irrlicht/CSceneManager.h:151-159 | the key is an s32: 0 without materials, otherwise the first material's first texture identity wrapped to 32 bits, unchanged when it already fits |
| SceneManagerEntries.MakeDefaultEntry | irrlicht/CSceneManager.h:151-159 | a default entry refers to the node it was made for |
| SceneManagerEntries.SameTextureSameKey | irrlicht/CSceneManager.h:155-156 | nodes whose first materials share their first texture get the same key |
| SceneManagerEntries.DistanceSquared | irrlicht/CSceneManager.h:180 | the distance key is never negative and is zero exactly at the camera position |
| SceneManagerEntries.SquareIsZero | irrlicht/CSceneManager.h:180 | a square is never negative and is zero only for zero |
| SceneManagerEntries.MakeTransparentEntry | irrlicht/CSceneManager.h:175-181 | a transparent entry refers to its node and its distance is non-negative, zero exactly when the node is at the camera |
| SceneManagerEntries.Insert | irrlicht/CSceneManager.cpp:445 | inserting into a sorted list gives a sorted list with one more element and nothing else changed |
| SceneManagerEntries.SortedCons | irrlicht/CSceneManager.cpp:445 | an element no greater than a sorted list's head extends it sorted |
| SceneManagerEntries.HeadBelow | irrlicht/CSceneManager.cpp:445 | a key below all keys of a list stays below all keys after an insertion of a greater one |
| SceneManagerEntries.SortByKey | irrlicht/CSceneManager.cpp:454 | a sorted permutation of the list, by the entry's key |
| SceneManager.RenderOrder | irrlicht/CSceneManager.cpp:438-457 | every entry of the three lists is rendered exactly once in a frame |
| SceneManager.EachRegistrationOnce | irrlicht/CSceneManager.cpp:394-417 | every registration lands in exactly one of the three lists |
| SceneManager.ListsSeparate | irrlicht/CSceneManager.cpp:401-414 | the default list holds only nodes without a transparent material, the transparent list only nodes with one, each measured from the frame's camera position |
| Common.LowerChar | irrlicht/CSceneManager.cpp:70 | make_lower maps upper-case ASCII letters to their lower-case letter and leaves everything else alone |
| Common.Lower | irrlicht/CSceneManager.cpp:91-92 | the lower-cased name has the same length and each character lower-cased; the scene manager's mesh cache and the null driver's texture cache (CVideoNull.cpp:233) both key by it |
| Common.LowerIdempotent | irrlicht/CSceneManager.cpp:91-94 | lower-casing a lower-cased name changes nothing, so the name addMesh or addTexture stores is the one getMesh or findTexture looks up |
| SceneManager.FirstLoader | irrlicht/CSceneManager.cpp:109-157 | the loader chosen is one that loads the file, and no earlier loader does; none when no loader does |
| SceneManager.FirstLoaderInOrder | irrlicht/CSceneManager.cpp:109-157 | the loaders are tried in the order md2, obj, ms3d, bsp |
| SceneManager.FindMesh | irrlicht/CSceneManager.cpp:77-83 | a mesh is found exactly when some entry has the name, and it is the mesh of such an entry |
| SceneManager.FindAfterAdd | irrlicht/CSceneManager.cpp:63-83 | after adding a mesh, a name already cached still gives its old mesh, and the new name gives the added mesh |
| SceneManager.Manager.constructor | irrlicht/CSceneManager.cpp:33-46 | no active camera, no meshes, no nodes and empty render lists |
| SceneManager.Manager.RegisterNodeForRendering | irrlicht/CSceneManager.cpp:394-417 | a light or camera is appended to its list; a default node goes to the transparent list when one of its materials is transparent and to the default list otherwise; nothing else changes |
| SceneManager.Manager.DrawAll | irrlicht/CSceneManager.cpp:421-463 | without a driver nothing happens; otherwise the camera position is set, all registrations are collected, one pass renders the lights, the default entries sorted by texture and the transparent entries sorted by distance, and the lists are emptied |
| SceneManager.Manager.RenderLists | irrlicht/CSceneManager.cpp:436-459 | one pass renders the lights in order and sorted permutations of the default and transparent lists, then all lists are cleared |
| SceneManager.Manager.RegisterAll | irrlicht/CSceneManager.cpp:432 | the nodes' registrations are appended in order to the lists they belong in |
| SceneManager.Manager.AddMesh | irrlicht/CSceneManager.cpp:63-73 | the mesh is appended to the cache under its lower-cased name |
| SceneManager.Manager.GetMesh | irrlicht/CSceneManager.cpp:87-170 | a cached name returns its mesh; otherwise, when the file opens and a loader succeeds, the first such loader's mesh is cached and returned, else null with the cache unchanged |
| SceneManager.Manager.AddMeshSceneNode | irrlicht/CSceneManager.cpp:198-273 | null and nothing attached without a mesh; otherwise a new node of the kind under the given parent |
| SceneManager.Manager.AddCameraSceneNode | irrlicht/CSceneManager.cpp:283-317 | a new camera is attached and becomes active only when there is no active camera yet |
| SceneManager.Manager.AddSceneNode | irrlicht/CSceneManager.cpp:183-193 | a test node is always attached, as are light and billboard nodes (lines 324-351) |
| SceneManager.Manager.SetActiveCamera | irrlicht/CSceneManager.cpp:366-369 | the active camera is replaced unconditionally and nothing else changes |
| SceneManager.Manager.GetActiveCamera | irrlicht/CSceneManager.cpp:357-360 | the active camera, which may be none |
| SceneManager.PassOrdered | irrlicht/CSceneManager.cpp:438-457 | in a rendered pass the lights come first in order, the default entries are nondecreasing by texture and the transparent ones by distance, and no entry is lost |
| SceneManager.PassExists | irrlicht/CSceneManager.cpp:445-454 | sorting both lists yields a pass that renders them |
| AnimatedMeshMD2.Position | irrlicht/CAnimatedMeshMD2.cpp:492-495 | a vertex position takes X from byte 0 along frame axis 0, Y from byte 2 along axis 2 and Z from byte 1 along axis 1 |
| AnimatedMeshMD2.Normal | irrlicht/CAnimatedMeshMD2.cpp:499-507 | the normal is row lightNormalIndex of the normal table exactly when 0 < index < 162, and otherwise the vertex position left in the variable |
| AnimatedMeshMD2.DecodeFrame | irrlicht/CAnimatedMeshMD2.cpp:490-508 | one position and one normal per vertex record of the frame, in record order |
| AnimatedMeshMD2.FrameVertices | irrlicht/CAnimatedMeshMD2.cpp:523-533 | a frame's vertex list has three vertices per triangle |
| AnimatedMeshMD2.FrameVertexAt | irrlicht/CAnimatedMeshMD2.cpp:525-531 | vertex 3t + n of a frame is corner n of triangle t: its vertex's position and normal and its texture coordinate |
| AnimatedMeshMD2.BuildFrame | irrlicht/CAnimatedMeshMD2.cpp:521-533 | the triangle loop of one frame yields that frame's vertex list |
| AnimatedMeshMD2.AppendCorners | irrlicht/CAnimatedMeshMD2.cpp:525-532 | the corner loop appends the three corners of the triangle in order |
| AnimatedMeshMD2.IndexList | irrlicht/CAnimatedMeshMD2.cpp:539-545 | the index list counts 0, 1, 2, ... as u16 values |
| AnimatedMeshMD2.MakeIndices | irrlicht/CAnimatedMeshMD2.cpp:539-545 | the index loop pushes 0 .. 3T - 1 |
| AnimatedMeshMD2.IndicesAreIdentity | irrlicht/CAnimatedMeshMD2.cpp:539-545 | while 3T fits a u16, index k is k and names a vertex of every frame |
| AnimatedMeshMD2.SelectKeyFramesInRange | irrlicht/CAnimatedMeshMD2.cpp:388-397 | inside the animation the blend is between key frame frame/8 and the next at weight (frame mod 8)/8; from the last key frame on it is between the last two key frames at a weight from 8/8 to 16/8 |
| AnimatedMeshMD2.WrapFrameInRange | irrlicht/CAnimatedMeshMD2.cpp:289-292 | the kept frame lies in [0, 8 FrameCount]: frames in range are kept, larger ones reduced modulo 8 FrameCount and negative ones reduced as the u32 they convert to |
| AnimatedMeshMD2.BuildFrames | irrlicht/CAnimatedMeshMD2.cpp:519-534 | one vertex list per frame, in frame order |
| AnimatedMeshMD2.Mesh.constructor | irrlicht/CAnimatedMeshMD2.cpp:257-265 | no frames, no indices and no frame computed yet |
| AnimatedMeshMD2.Mesh.LoadFile | irrlicht/CAnimatedMeshMD2.cpp:428-575 | true exactly for a file with the MD2 magic and version whose two checked reads deliver bytes; a wrong header changes nothing, a failed read leaves empty frame lists; a load gives each frame three vertices per triangle and appends indices 0 .. 3T - 1 |
| AnimatedMeshMD2.Mesh.GetFrameCount | irrlicht/CAnimatedMeshMD2.cpp:279-282 | eight frames per key frame |
| AnimatedMeshMD2.Mesh.UpdateInterpolationBuffer | irrlicht/CAnimatedMeshMD2.cpp:383-416 | nothing is recomputed for the frame computed last; otherwise the buffer blends the chosen key frames, both inside the frame list |
| AnimatedMeshMD2.Mesh.GetMesh | irrlicht/CAnimatedMeshMD2.cpp:287-296 | the wrapped frame is kept and the interpolation buffer brought up to it |
| AnimatedMeshMS3D.U16At | irrlicht/CAnimatedMeshMS3D.cpp:148 | a u16 count read from the buffer lies in [0, 65535] |
| AnimatedMeshMS3D.CornerIndex | irrlicht/CAnimatedMeshMS3D.cpp:175-177 | a triangle's vertex index is a u16 |
| AnimatedMeshMS3D.CornersBelow | irrlicht/CAnimatedMeshMS3D.cpp:179-181 | in a complete file every corner of every triangle names one of the vertices read |
| AnimatedMeshMS3D.Resize | irrlicht/CAnimatedMeshMS3D.cpp:150-151 | set_used gives the array the new length, keeping the entries below the old length |
| AnimatedMeshMS3D.ApplyCorners | irrlicht/CAnimatedMeshMS3D.cpp:179-189 | the corner loop keeps the number of vertices |
| AnimatedMeshMS3D.ApplyTriangles | irrlicht/CAnimatedMeshMS3D.cpp:171-192 | the triangle loop keeps the number of vertices |
| AnimatedMeshMS3D.LastCornerOf | irrlicht/CAnimatedMeshMS3D.cpp:179-189 | the last corner of a triangle that names vertex j, or none when no corner does |
| AnimatedMeshMS3D.LastCorner | irrlicht/CAnimatedMeshMS3D.cpp:171-192 | the last triangle and corner naming vertex j: no later triangle names it, and none when no triangle does |
| AnimatedMeshMS3D.WithCornerOverwrites | irrlicht/CAnimatedMeshMS3D.cpp:183-188 | a corner overwrites the vertex's normal and texture coordinate whatever they were |
| AnimatedMeshMS3D.CornersOfTriangle | irrlicht/CAnimatedMeshMS3D.cpp:179-189 | within one triangle a vertex ends with the last corner naming it, or unchanged |
| AnimatedMeshMS3D.LastCornerWins | irrlicht/CAnimatedMeshMS3D.cpp:171-192 | after the triangle loop a vertex has the normal and texture coordinate of the last corner naming it, keeps them when none does, and keeps its position |
| AnimatedMeshMS3D.ReadVertices | irrlicht/CAnimatedMeshMS3D.cpp:153-163 | record i sets the position of vertex i and its bone id |
| AnimatedMeshMS3D.ReadTriangle | irrlicht/CAnimatedMeshMS3D.cpp:173-191 | one triangle sets its three indices, leaves the earlier ones, and applies its corners |
| AnimatedMeshMS3D.IndicesStep | irrlicht/CAnimatedMeshMS3D.cpp:175-177 | one more triangle extends the indices read so far |
| AnimatedMeshMS3D.ReadTriangles | irrlicht/CAnimatedMeshMS3D.cpp:167-192 | index 3i + k is triangle i's vertex index k, and the vertices get every triangle's corners in order |
| AnimatedMeshMS3D.Mesh.constructor | irrlicht/CAnimatedMeshMS3D.cpp:92-94 | an empty mesh buffer |
| AnimatedMeshMS3D.Mesh.LoadFile | irrlicht/CAnimatedMeshMS3D.cpp:106-199 | false and nothing changed for a missing file, a short read, a wrong id or a version other than 3 and 4; otherwise the arrays take the counts' sizes, each vertex its own record's position and bone id and the last naming corner's normal and texture coordinate, and index 3i + k is triangle i's vertex index k, always below the vertex count |
| AnimatedMeshMS3D.Mesh.GetFrameCount | irrlicht/CAnimatedMeshMS3D.cpp:204-207 | the mesh is static: one frame |
| AnimatedMeshMS3D.Mesh.GetVertexCount | irrlicht/CAnimatedMeshMS3D.cpp:274-277 | the number of vertices loaded |
| AnimatedMeshMS3D.Mesh.GetIndexCount | irrlicht/CAnimatedMeshMS3D.cpp:290-293 | the number of indices loaded |
| AnimatedMeshMS3D.Positioned | irrlicht/CAnimatedMeshMS3D.cpp:150-163 | after the vertex loop there is one vertex per record |
| AnimatedMeshSceneNode.Collected | irrlicht/CAnimatedMeshSceneNode.cpp:29-37 | one material per buffer of frame 0 |
| AnimatedMeshSceneNode.CollectedRepeats | irrlicht/CAnimatedMeshSceneNode.cpp:29-37 | a non-null buffer gives its own material, a null buffer repeats the one before it, and a null first buffer gives the default material |
| AnimatedMeshSceneNode.CollectedEndsWithLast | irrlicht/CAnimatedMeshSceneNode.cpp:29-37 | the last collected material is that of the last non-null buffer |
| AnimatedMeshSceneNode.CollectMaterials | irrlicht/CAnimatedMeshSceneNode.cpp:29-37 | the constructor's buffer loop collects those materials |
| AnimatedMeshSceneNode.AcceptedLoopFits | irrlicht/CAnimatedMeshSceneNode.cpp:135-137 | an accepted loop's length is positive and fits an s32, and a loop whose length wraps as an s32 is refused |
| AnimatedMeshSceneNode.LoopFrameInLoop | irrlicht/CAnimatedMeshSceneNode.cpp:90-92 | for a non-negative elapsed count the frame lies in [StartFrame, EndFrame) and advances by one per count until it wraps to the start |
| AnimatedMeshSceneNode.ModNext | irrlicht/CAnimatedMeshSceneNode.cpp:92 | counting on by one moves the remainder on by one, from n - 1 back to 0 |
| AnimatedMeshSceneNode.LoopFrameNegative | irrlicht/CAnimatedMeshSceneNode.cpp:90-92 | a negative elapsed count gives a frame before the loop start unless its C remainder is 0 |
| AnimatedMeshSceneNode.Node.constructor | irrlicht/CAnimatedMeshSceneNode.cpp:15-49 | speed 100, start time now; without a mesh no materials and frames 0; with one the loop is the whole mesh and the materials come from frame 0 |
| AnimatedMeshSceneNode.Node.SetFrameLoop | irrlicht/CAnimatedMeshSceneNode.cpp:128-144 | false and nothing changed without a mesh or unless begin < end, both below the frame count and the s32 length positive; otherwise the loop becomes [begin, end) and restarts now |
| AnimatedMeshSceneNode.Node.RenderFrame | irrlicht/CAnimatedMeshSceneNode.cpp:81-92 | a frame is asked for exactly when there is a mesh and a driver, and for a proper loop and a non-negative count it lies in the loop |
| AnimatedMeshSceneNode.Node.GetMaterial | irrlicht/CAnimatedMeshSceneNode.cpp:169-175 | a node material exactly for indices within the list, the base class's fallback otherwise |
| AnimatedMeshSceneNode.Node.GetMaterialCount | irrlicht/CAnimatedMeshSceneNode.cpp:180-183 | one material per buffer of frame 0 |

## Left out

- Floating point: plane classification, box intersection, point-in-box tests and the splitting of edges enter as parameters. These are `Geometry`, `fits`, `hits` and the classification sequences. The model proves what follows from their answers and nothing about how they are computed.
- BspBuild.Build and OctTree.Build take a `depth` bound that the source does not have; at depth 0 they make a leaf. The source ends its recursion only through float geometry, so the model cannot bound it. BspBuild.BuildStable, BspBuild.EndsWithin, OctTree.BuildStable and OctTree.OctantsStable (with SubdivisionEndsWithin) prove that once the recursion ends within the bound, a larger bound builds the same tree.
- BspTree.BspTree.constructor and OctTreeSceneNode.Node.CreateTree: the depth these pass is a parameter, for the reason above.
- core::array::binary_search is not part of this model. SceneManager.FindMesh, SceneManager.Manager.GetMesh, VideoNull.Lookup, VideoNull.Driver.FindTexture and VideoNull.GetTextureCaches take lookup as the first entry with the name. They assume it finds one whenever one exists. The engine's search runs on arrays filled in insertion order, and its behaviour on them is not shown.
- core::array::sort is not part of this model. SceneManager.Manager.DrawAll and the render lists promise only a sorted permutation of the registered entries, with no order among equal keys. SceneManagerEntries.SortByKey is one sort with that property and stands in for the engine's.
- LimitReadFile.LimitFile wraps the concrete MemoryReadFile.File, not an arbitrary file. So its Read contract is stated through MemoryReadFile's read amount.
- BmpLoader.WidthInBytes is an exact integer ceiling. The source computes it in f32, which agrees only while width × bits per pixel stays below 2^24.
- size_t is taken as 32 bits, and s32/u32/u16 wrap-around is written out where the source relies on it.
- Reference counting: grab and drop are counters. Deleting an object when its count reaches 0, and the deletes of textures and surfaces, are not modelled.
- The as-written variants return a fault, `None` or `Undefined` where the code reads or writes outside its buffer. C++ gives no defined result there, so the model claims none.
- BmpLoader.Rle4AbsoluteAsWritten: the model gives the as-written RLE4 absolute run and its corrected form. It makes no claim about what a whole RLE4 picture decodes to as written.
- OctTree.OctTree.CalculatePolys requires at least one index. The source reads the first index list of an empty tree.
- OctTreeSceneNode.Node.Render requires at least one index, for the same reason.
- AnimatedMeshMD2.Mesh.GetMesh requires that a mesh with fewer than two frames is asked only for the frame it already holds. The source would otherwise read key frames it does not have.
- AnimatedMeshMD2.Mesh.LoadFile requires every triangle's vertex and texture-coordinate indices to be within the file's lists, and (through WellFormed) at most 2048 vertices, a frame size of at most 8320 bytes, fewer than 2^28 frames and frame records of the header's length. The source checks none of these, and fills a stack buffer of MD2_MAX_VERTS*4+128 bytes.
- AnimatedMeshSceneNode.Node.RenderFrame requires StartFrame != EndFrame when it draws. The source divides by the loop length.
- AnimatedMeshMS3D.Mesh.LoadFile requires (through Complete) every triangle's corner indices to be within the vertex list, and the vertex and triangle records to lie inside the buffer. The source checks neither.
- Q3LevelMesh.LevelMesh.LoadFile and Q3LevelMesh.LevelMesh.ConstructMesh require faces whose vertex ranges fit the vertex lump and whose texture ids are below the texture count. The source does not check them.
- Q3LevelMesh: reading the file is given as its header and lumps. The 128 × 128 RGB16 lightmap pixel fill is the `lightmapTextures` parameter. Loading a texture by name is the `textureOf` parameter.
- BspTree.BspTree.constructor requires meshes of whole triangles with at least one index.
- OctTree.OctTree.constructor, OctTreeSceneNode.NewTree and OctTreeSceneNode.Node.CreateTree require index lists whose lengths are multiples of 3. The source reads indices t, t+1 and t+2 without a check.
- BspPolygons.SplitPoly requires a polygon with at least one vertex. The source indexes its last vertex.
- BspPolygons.SplitPoly: the 40-entry stack buffers of splitPoly are sequences, so a polygon of more than 40 vertices does not overflow them.
- SoftwareTexture.TextureSizeFromSurfaceSize requires a size of at most 2^30. Beyond that the doubling leaves the s32 range.
- SoftwareTexture.Texture.constructor: copyToScaling is the `scaled` parameter; in SoftwareTexture.Texture.Unlock it is `scaled` too, and in GuiFont.Font.LoadTexture the `scale` function of the rewritten pixels.
- BmpLoader.SurfaceLoaderBmp.LoadImage: the conversion of the decompressed 1, 4, 8, 16, 24 and 32-bit rows into the A1R5G5B5 surface is not modelled; the result is the decompressed data with the image's size.
- LimitReadFile.LimitFile.Read: when pos + sizeToRead wraps in u32, the source passes the request on unclamped, as in the memory file's read; the contracts state the clamp only for requests that do not wrap.
- GuiFont.Font.GetDimension, GuiFont.Font.Draw and GuiFont.Font.DrawFrom require 0 <= WrongCharacter < |Positions|, which excludes a font without glyphs; the source reads Positions[0] and Positions[n] without a check.
- GuiFont.Font.LoadTexture and GuiFont.Font.ScanTexture require a texture surface of at least three pixels, since the source reads its first three pixels without a check.
- Surface.Surface.CopyTo, Surface.Surface.CopyToWithAlpha and Surface.Surface.CopyToWithAlphaColor require a target with another buffer, as Surface.Surface.CopyToRect does; the source's memcpy blit leaves a copy onto itself undefined. The two alpha copies also require a source rectangle inside the surface, which the source does not check.
- HeapSort: heapsort<T> is modelled on int; the algorithm uses only < on T, so the proofs carry over to any total order.
- Surface.Surface.CopyToRect requires a source rectangle inside the surface, as the source's callers pass.
- SceneManagerEntries.DistanceSquared: positions are integer vectors and the squared distance is exact. The source computes getDistanceFrom in f32 with sqrt, which rounds, so entries whose distances round to the same value, or underflow to 0, may sort differently from the model.
- SceneManagerEntries.MakeTransparentEntry keys on the squared distance, because sqrt is monotone. SceneManagerEntries.TextureKey is a pointer identity, given as an integer and wrapped to s32.
- AnimatedMeshSceneNode: OnPreRender, setAnimationSpeed, setCurrentFrame (empty in the source) and the per-buffer draw calls of render are not modelled. Neither is the bounding box that render stores from the frame's mesh (`Box = m->getBoundingBox()`).
- AnimatedMeshSceneNode.Node.RenderFrame: the sum StartFrame + remainder is an unbounded integer. In the source it is an s32 sum, which can wrap for a loop near the s32 minimum.
- AnimatedMeshMD2.Mesh.UpdateInterpolationBuffer: the arithmetic of interpolating between key frames is not modelled, and neither are bounding boxes. The interpolation buffer is stated by which key frames it takes.
- AnimatedMeshMS3D: float fields are read as byte offsets. The vertex positions are the raw fields.
- SceneManager.Manager.DrawAll: Driver->deleteAllDynamicLights() before the light pass and OnPostRender(os::Timer::getTime()) after the transparent pass are not modelled. The driver's light list and the node animators are not part of this model.
- VideoSoftware: setTransform, queryFeature, endScene, setRenderTarget with a texture, and the triangle rasterisers themselves are not modelled. A renderer is its kind plus the state the driver hands it.
- The JPEG and TGA loaders, the GUI toolkit beyond the font, the Win32 device, the Direct3D and OpenGL drivers, CBspTreeSceneNode and the file system are not part of this model.
- irrString.h (make_lower), the core::array implementation and IUnknown are not part of this model. Strings are sequences and arrays are sequences or Dafny arrays.

## Findings

| source | as written | input that shows it | evidently intended | confidence | as-written member | corrected member |
|---|---|---|---|---|---|---|
| irrlicht/CSurfaceLoaderBmp.cpp:65 | the RLE8 loop guard compares BmpData - p with size, and that difference is never positive, so the guard never stops the decoder | data [1, 7] with size 2 and a 4-pixel buffer: no end-of-bitmap escape, so the decoder reads past the data for its next command | stop when the read cursor reaches the end of the data (p - BmpData < size) | not executed | BmpLoader.Rle8ReadsPastData | BmpLoader.Rle8IgnoresTrailingBytes |
| irrlicht/CSurfaceLoaderBmp.cpp:168-174 | the RLE4 absolute run increments the byte under the cursor (++*p) instead of the cursor | the run 0, 4, 0x12, 0x34: as written it writes 0x12, 0x13 and reads its next command from the modified data | advance the read cursor (++p); the corrected member also pads the run to whole words, the next row | not executed | BmpLoader.Rle4AbsoluteAsWritten | BmpLoader.Rle4AbsoluteCorrected |
| irrlicht/CSurfaceLoaderBmp.cpp:163 | the pad after an RLE4 absolute run is (2 - count % 2) % 2, the BI_RLE8 rule applied to a count of nibbles | a run of 2 nibbles: with ++p its one data byte is read and no pad follows, so the next command starts one byte into the run's word (for 5 nibbles, 3 bytes where the word rule takes 4) | pad the run to whole 16-bit words: (count + 3) / 4 * 2 bytes in all | not executed | BmpLoader.Rle4PadAsWritten | BmpLoader.LiteralBytesIsWords |
| irrlicht/CSurface.cpp:63 | getPixel accepts x == Width and y == Height | getPixel(Width, Height - 1) on a non-empty surface reads one element past the pixel data | reject x >= Width or y >= Height | not executed | Surface.PixelPastEnd | Surface.GetPixelIndex |
| irrlicht/CSurface.cpp:75-77 | setPixel clamps x into [0, Width] and y into [0, Height] | setPixel(Width + 1, Height - 1) writes one element past the pixel data | clamp into [0, Width - 1] and [0, Height - 1] | not executed | Surface.PixelAccessOffByOne | Surface.SetPixelIndex |
| irrlicht/CGUIFont.cpp:163 | the glyph index n = c - 32 is replaced only when n > Positions.size() | character 32 + n, for a font of n glyphs, indexes one past the glyph rectangles | replace n when n >= Positions.size() | not executed | GuiFont.GlyphIndexPastEnd | GuiFont.GlyphIndexAgrees |
| irrlicht/CBspTree.cpp:539-546 | countPolyIndizes adds a polygon's vertex count to the index counts | a quad counts 4 indices, while its triangle fan draws 6 | add 3 × (vertices - 2), the indices the fan draws | not executed | BspBuild.QuadFragmentIndices | BspBuild.CountPolyIndices |
| irrlicht/CMemoryReadFile.cpp:37-39 | read computes Pos + amount in size_t, which wraps | Pos = 1, Len = 1, sizeToRead = 2^32 - 1: the sum wraps to 0, so all 2^32 - 1 bytes are read | read at most Len - Pos bytes | not executed | MemoryReadFile.ReadAmountOverrun | MemoryReadFile.ReadAmountWithoutWrap |
