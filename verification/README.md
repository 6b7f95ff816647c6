# Verified model of the emulator's algorithmic cores

The emulator runs a Win32 guest program by serving its API calls. Most of that is glue, but
several parts are algorithms whose correctness the rest silently relies on. This project models
them in Dafny, in the form the source gives them (objects with fields become classes, loops
become methods with invariants, expressions become functions), and proves what they promise.

| component | files |
|---|---|
| GDI regions: point-set semantics, band normal form, `CombineRgn`, `EqualRgn` | `Spans.dfy`, `Region.dfy`, `Canonical.dfy`, `RegionOps.dfy` |
| Software rasteriser: source-over blending, Bresenham lines, clipped rectangles | `Color.dfy`, `Raster.dfy` |
| Client clips and clip-based frame inference | `ClientClip.dfy`, `FrameInference.dfy` |
| DIB codec: masks, palettes, packed cells, strides, sync and flush | `Bits.dfy`, `Dib.dfy`, `DibLayout.dfy`, `DibMasks.dfy`, `DibBuffer.dfy` |
| Guest heap: best fit, splitting, coalescing, bump cursor | `Heap.dfy` |
| Surface mirror: CPU pixels, operation queue, GPU texture, render decision | `Image.dfy`, `Mirror.dfy`, `MirrorRuns.dfy` |
| DNet server: frames, channels, session, reply builders, whole runs | `Protocol.dfy`, `Session.dfy`, `Domain.dfy`, `DomainRules.dfy`, `Server.dfy`, `ServerRules.dfy`, `ServerRuns.dfy` |
| Virtual socket and packet logger, and both behind the server | `Socket.dfy`, `PacketLogger.dfy`, `EndToEnd.dfy` |
| Window tree: ancestors, subtrees, z-order, what the host is told | `WindowTree.dfy`, `WindowOrder.dfy`, `WindowHost.dfy`, `Windows.dfy` |

`Common.dfy` and `Arith.dfy` hold shared vocabulary and facts about products. `dafny verify
dfyconfig.toml` checks everything.

## What the proofs brought to light

The model follows the code, and where the code does not do what one would expect the exact
condition is proved instead.

- Erasing a window background paints the CPU surface but queues nothing for the GPU; a render
  before the next DC release shows the old pixels. A frame after an erase is right iff a full
  upload was due or the erase changed nothing (`MirrorRuns.RenderAfterErase`), and every window
  that has been shown can reach the wrong case (`MirrorRuns.StaleFrameHappens`).
- A render can overtake a drawing call between painting and queueing, when the call draws
  outside an open DC or the render looked at the DC count before. The next frame is then right
  iff the render target and the surface agreed on whether a full upload was due, or applying the
  command twice is harmless (`MirrorRuns.RenderBetweenPaintAndQueue`); after the first draw of
  any window they disagree (`MirrorRuns.DoubleDrawHappens`).
- Both are repaired by the release sync: once a DC is released after everything was reported,
  the next frame is the CPU surface, whatever happened before
  (`MirrorRuns.ReleasedFrameIsFaithful`).
- An 8 bit DIB without a palette truncates the channel sum to a byte before dividing by three,
  so only values up to 85 survive a flush (`Dib.NoPaletteRoundTripIff`); an index beyond a
  nonempty palette survives only if its fallback grey is in the palette
  (`Dib.IndexedRoundTripIff`). Contiguous masks wider than eight bits lose raw bits
  (`Dib.ContiguousRoundTripIff`) but not colours: the decoded colour is stable for masks of any
  width that share no bits, and masks of up to eight bits may even overlap
  (`DibMasks.CleanRoundTrip`). Wide masks that do share bits drift
  (`DibMasks.SharedWideMasksDrift`).
- A clip list with overlaps, as `RGN_COPY` of a hand-made list could carry, would fill a pixel
  once per rectangle around it; a fill is single iff no filled pixel lies in two clip rectangles
  (`Raster.FillsOnceIff`). All regions the object table creates are overlap-free. The pen is
  blended once per edge, so twice in the corners.
- A receive on a socket without a channel loses bytes iff its buffer is nonempty but shorter
  than the request (`Socket.BytesDroppedIff`); `WSARecv` has no guard of its own, so this rests
  on sockets without a channel having empty buffers.
- A logout tells the client that channel 1 is closed, but the server keeps it open and rejects a
  later open (`ServerRuns.LogoutKeepsChannelOpen`). It is the only frame after which an announced
  close is not true (`ServerRuns.FalseCloseIff`).
- A system login takes no notice of the password sent: it succeeds iff the account's stored
  password is the test one (`Domain.SystemLoginIff`).
- No request ever gives a session an avatar, so in every run the selection payload offers empty
  slots (`ServerRuns.Sound`, kept by `ServerRuns.RunsAreSound`).
- `SetWindowPos` on a handle without a window still renumbers the top-level windows, harmlessly
  (`Windows.WinEvent.SetWindowPos`).

## Model

| member | source | states |
|---|---|---|
| `Canonicaliser.Canonicalize` | src/dll/win32/gdi32/drawing.rs:198-260 | For any rectangle list (degenerate, overlapping, any order) the result is in band normal form and covers exactly the input points; a list already in normal form comes back unchanged |
| `Region.CanonicalUnique` | src/dll/win32/gdi32/drawing.rs:652-656 | Two normal-form lists cover the same points if and only if they are the same list, so comparing canonical lists decides set equality, whatever order or overlap the inputs had |
| `Region.BandsUnique` | src/dll/win32/gdi32/drawing.rs:212-251 | Two lists of maximal, ordered bands with the same points are the same bands |
| `Region.CanonicalDisjoint` | src/dll/win32/gdi32/drawing.rs:253-259 | A normal-form list mentions no point twice |
| `Region.CanonicalSize` | src/dll/win32/gdi32/drawing.rs:56-62 | A normal-form list is empty iff it covers nothing, and has one element iff its points are exactly those of one nondegenerate rectangle |
| `Spans.RowUnique` | src/dll/win32/gdi32/drawing.rs:228-237 | A row of sorted, disjoint, non-touching spans is determined by the points it covers |
| `Spans.MergeSpans` | src/dll/win32/gdi32/drawing.rs:227-237 | Merging sorted spans yields the normal row of exactly the same points |
| `Canonicaliser.BuildBands` | src/dll/win32/gdi32/drawing.rs:208-239 | The slab sweep between consecutive edges produces ordered bands covering exactly the rectangles |
| `Canonicaliser.CollapseBands` | src/dll/win32/gdi32/drawing.rs:241-251 | Absorbing abutting equal bands keeps every point and leaves no two bands that could be one |
| `RegionOps.IntersectRect` | src/dll/win32/gdi32/mod.rs:82-87 | The overlap of two rectangles holds exactly the common points and is absent iff there are none |
| `RegionOps.SubtractRectExact` | src/dll/win32/gdi32/mod.rs:89-115 | The strips left by cutting one rectangle out of another cover exactly the difference |
| `RegionOps.SubtractRectDisjoint` | src/dll/win32/gdi32/mod.rs:89-115 | Those strips never overlap |
| `RegionOps.SubtractRegionRects` | src/dll/win32/gdi32/mod.rs:173-186 | Subtracting a list covers exactly the set difference and keeps an overlap-free list overlap-free |
| `RegionOps.Intersections` | src/dll/win32/gdi32/drawing.rs:572-582 | The pairwise overlaps of two lists cover exactly the points in both |
| `RegionOps.Extent` | src/dll/win32/gdi32/drawing.rs:595-607 | The fallback mode computes the box between the extreme coordinates of both lists, seeds included for empty lists |
| `RegionOps.RawCombination` | src/dll/win32/gdi32/drawing.rs:571-608 | Modes 1 to 4 are pointwise and, or, exclusive-or and difference; copy hands the first list through; any other mode is the box |
| `RegionOps.GdiTable.CombineRgn` | src/dll/win32/gdi32/drawing.rs:551-631 | Only the destination changes; its points and return code are those of the mode (null iff empty, simple iff one rectangle); a missing source changes nothing; every region in the table stays overlap-free |
| `RegionOps.GdiTable.EqualRgn` | src/dll/win32/gdi32/drawing.rs:635-664 | Answers 1 iff both handles are regions and the regions cover the same integer points |
| `RegionOps.GdiTable.CreateRectRgn` | src/dll/win32/gdi32/drawing.rs:437-460 | A fresh handle holds the one rectangle and the table invariant is kept |
| `RegionOps.GdiTable.CopyForClip` | src/dll/win32/gdi32/drawing.rs:473-489 | Selecting a clip copies the contents under a new handle, so later changes to the source do not reach the clip |
| `RegionOps.GdiTable.CreateClientClip` | src/dll/win32/user32/paint.rs:131-147 | A fresh handle holds exactly the points of the given client rectangle that the given list does not cover, none twice |
| `ClientClip.BuildClientClipRects` | src/dll/win32/user32/paint.rs:75-132 | The clip of a window is exactly its client area minus its visible children and higher visible siblings, as its two clip styles ask; absent iff the window is missing or has no client area |
| `ClientClip.Covering` | src/dll/win32/user32/paint.rs:86-129 | The subtracted list covers exactly the hidden points, in whatever order the window map is scanned |
| `ClientClip.CreateClientClipRegion` | src/dll/win32/user32/paint.rs:135-147 | That clip is stored under a fresh handle, or 0 is returned and nothing stored |
| `ClientClip.ChildOnScreen` | src/dll/win32/user32/paint.rs:98-105 | A child hides exactly the points its window occupies on the screen |
| `ClientClip.SiblingOnScreen` | src/dll/win32/user32/paint.rs:120-127 | And so does a sibling |
| `ClientClip.ClientPoints` | src/dll/win32/user32/paint.rs:79-84 | The client area is what the four insets leave of the window, counted from its far edges on the right and at the bottom |
| `ClientClip.ChildCovers` | src/dll/win32/user32/paint.rs:86-106 | Of the z-ordered children those in front are the visible true ones, if the parent clips its children |
| `ClientClip.SiblingCovers` | src/dll/win32/user32/paint.rs:108-128 | Only siblings later in the z-ordered list cover, and of those all visible true children with a z-order of their own, if the window clips its siblings |
| `Color.OpaqueChannel` | src/dll/win32/gdi32/mod.rs:50-75 | Over an opaque background each channel is the weighted mean rounded to nearest and lies between the two inputs |
| `Color.OpaqueStaysOpaque` | src/dll/win32/gdi32/mod.rs:50-75 | Blending onto an opaque pixel leaves it opaque |
| `Color.RoundDiv` | src/dll/win32/gdi32/mod.rs:50-75 | The rounded division is within half a unit of the quotient |
| `Color.OpaqueBlend` | src/dll/win32/gdi32/mod.rs:50-75 | Onto an opaque pixel, blending mixes each channel with its own counterpart and stays opaque, shortcuts for clear and solid colours included |
| `Color.OpaqueMix` | src/dll/win32/gdi32/mod.rs:50-75 | The mix is the alpha-weighted average rounded to nearest |
| `Color.RoundedMixUnique` | src/dll/win32/gdi32/mod.rs:66-72 | There is only one such value |
| `Color.BlendMixes` | src/dll/win32/gdi32/mod.rs:50-75 | Onto any pixel: the alpha is the source-over alpha rounded to nearest, and each channel the mean of the two colours weighted by what each contributes to it |
| `Color.OntoClear` | src/dll/win32/gdi32/mod.rs:50-75 | Onto a clear pixel the source colour comes out, up to rounding, with its own alpha |
| `Raster.LineEnds` | src/ui/gdi_renderer.rs:63-90 | The reference line contains both end points, and only the end point lies at full distance |
| `Raster.OnePointPerStep` | src/ui/gdi_renderer.rs:63-90 | At each distance along the longer axis the reference line has one pixel, the one nearest the ideal line |
| `Raster.StepArithmetic` | src/ui/gdi_renderer.rs:74-88 | From a nearest pixel the two error tests always advance the longer axis and choose the nearest pixel of the next column |
| `Raster.StepStaysOnLine` | src/ui/gdi_renderer.rs:74-88 | One iteration goes from a pixel of the line to its next pixel, one unit further along the longer axis, and keeps the error term |
| `Raster.ErrBounded` | src/ui/gdi_renderer.rs:64-77 | Twice the error term stays within three line lengths, so 32-bit arithmetic is exact up to 715827882 pixels |
| `Raster.DrawLine` | src/ui/gdi_renderer.rs:53-91 | Stops for all end points after exactly max(dx, dy) steps; every pixel of the reference line inside the bitmap is blended once and no other pixel changes |
| `Raster.DrawLineClipped` | src/ui/gdi_renderer.rs:94-138 | The same line restricted to the clip: each pixel is blended once however many clip rectangles contain it |
| `Raster.FillRect` | src/ui/gdi_renderer.rs:152-165 | The brush of draw_rect blends each pixel of the rectangle inside the bitmap once and nothing else |
| `Raster.DrawRectClipped` | src/ui/gdi_renderer.rs:195-265 | Each pixel gets the brush once per clip rectangle around it and then the pen once per edge through it; no pixel outside rectangle and clip changes |
| `Raster.OutlineIsBorder` | src/ui/gdi_renderer.rs:218-263 | The pen passes once for each of the four conditions top row, bottom row, left column, right column that holds of a covered pixel of the rectangle, and nowhere else |
| `Raster.OutsideRect` | src/ui/gdi_renderer.rs:195-265 | A pixel outside the rectangle or outside the clip gets neither brush nor pen |
| `Raster.SolidRect` | src/ui/gdi_renderer.rs:195-265 | With solid colours and overlap-free clips the border ends in the pen colour and the inside in the brush colour |
| `Raster.RowMajor` | src/ui/gdi_renderer.rs:71-74 | Pixels lie row by row from the top, each row from left to right |
| `Raster.FillsOnceIff` | src/ui/gdi_renderer.rs:207-230 | A rectangle is filled once per pixel iff none of its pixels lies in two clip rectangles; overlap-free clips always qualify |
| `Raster.DisjointCoverage` | src/ui/gdi_renderer.rs:207-217 | In an overlap-free clip every covered point is counted exactly once |
| `Raster.SameEverywhere` | src/ui/gdi_renderer.rs:41-45 | Pixel buffers that agree at every coordinate are equal |
| `Dib.ScaleRoundTrip` | src/dll/win32/gdi32/mod.rs:806-828 | Scaling a field of at most eight bits to a byte and back returns the field |
| `Dib.ComponentRoundTrip` | src/dll/win32/gdi32/mod.rs:806-828 | Encoding a decoded component returns the masked bits, for every mask whose field fits eight bits, contiguous or not |
| `Dib.ContiguousRoundTripIff` | src/dll/win32/gdi32/mod.rs:806-828 | For contiguous masks the component codec is lossless iff the mask is at most eight bits wide |
| `Dib.LowestBitLost` | src/dll/win32/gdi32/mod.rs:806-828 | Any mask whose field exceeds nine bits loses its lowest bit |
| `DibMasks.WideScaleRoundTrip` | src/dll/win32/gdi32/mod.rs:806-828 | A byte squeezed into a field of at least 255 steps and stretched again is that byte |
| `DibMasks.CleanRoundTrip` | src/dll/win32/gdi32/mod.rs:912-1071 | A 16 or 32 bit pixel comes back with the same colour for masks of any width, if each mask is at most eight bits in any pattern or one run of bits inside the cell that no other mask shares |
| `DibMasks.SharedWideMasksDrift` | src/dll/win32/gdi32/mod.rs:912-1045 | Wide masks that share bits do drift: a ten bit and a nine bit mask from bit 0 and value 3 |
| `DibMasks.ProductsFitIff` | src/dll/win32/gdi32/mod.rs:816-827 | The codec products of a field fit 32 bits for all its values iff it is at most 24 bits wide |
| `Dib.NearestLevels` | src/dll/win32/gdi32/mod.rs:806-828 | A field is scaled to the nearest of 256 levels and a byte to the nearest level of the field |
| `Dib.EncodedLevel` | src/dll/win32/gdi32/mod.rs:821-828 | The encoded component is that nearest level shifted to the lowest bit of the mask |
| `Dib.NearestPaletteIndex` | src/dll/win32/gdi32/mod.rs:831-850 | The search returns the first entry with the smallest squared distance |
| `Dib.FirstNearest` | src/dll/win32/gdi32/mod.rs:831-850 | The specification of that search: nobody is nearer, and everybody before is strictly farther |
| `Dib.ExactMatch` | src/dll/win32/gdi32/mod.rs:831-850 | A colour in the palette is found exactly, at its first occurrence |
| `Dib.NearestIsClosest` | src/dll/win32/gdi32/mod.rs:831-850 | The index found is the first entry at the least sum of squared channel differences |
| `Dib.IndexColours` | src/dll/win32/gdi32/mod.rs:866-911 | An index reads as its palette entry, opaque; beyond the palette as black or white, as one of sixteen greys, or as the grey of its own value |
| `Dib.GreyCells` | src/dll/win32/gdi32/mod.rs:985-1028 | Without a palette a colour is stored by its mean, out of 2 or 16 levels; at 8 bits as a third of its channel sum cut to a byte |
| `Dib.PaletteCells` | src/dll/win32/gdi32/mod.rs:985-1028 | With a palette that fits the depth a colour is stored as the first of the closest entries |
| `Dib.MaskedRoundTrip` | src/dll/win32/gdi32/mod.rs:912-1071 | Writing a decoded 16 or 32 bit pixel and reading it again gives the same colour, for narrow masks even when they overlap |
| `Dib.DefaultMasksNarrow` | src/dll/win32/gdi32/mod.rs:918-955 | The masks used when a header gives none are narrow, so every such 16 or 32 bit pixel round-trips |
| `Dib.IndexedRoundTripIff` | src/dll/win32/gdi32/mod.rs:866-1028 | For 1, 4 and 8 bit pixels: exact iff the index is inside the palette, or there is no palette (8 bit: value at most 85), or the fallback grey occurs in the palette |
| `Dib.NoPaletteRoundTripIff` | src/dll/win32/gdi32/mod.rs:985-1028 | Without a palette, 1 and 4 bit pixels are exact and 8 bit pixels are exact iff the value is at most 85, because the sum is truncated to a byte before the division |
| `Dib.TrueColourRoundTrips` | src/dll/win32/gdi32/mod.rs:934-1054 | 24 bit pixels survive byte for byte |
| `DibLayout.ContiguousField` | src/dll/win32/gdi32/mod.rs:806-818 | A contiguous mask decodes the field at its position, scaled from its own range to a byte |
| `DibLayout.DecodeDefault32` | src/dll/win32/gdi32/mod.rs:944-965 | Without masks a 32 bit value is alpha, red, green and blue from its top byte down |
| `DibLayout.DecodeDefault16` | src/dll/win32/gdi32/mod.rs:912-933 | Without masks a 16 bit value holds three five-bit channels, red on top, and is opaque |
| `DibBuffer.PixelBytes24` | src/dll/win32/gdi32/mod.rs:934-943 | In memory a 24 bit pixel is blue, green, red |
| `DibBuffer.PixelBytes32` | src/dll/win32/gdi32/mod.rs:944-965 | In memory a 32 bit pixel without masks is blue, green, red, alpha |
| `DibBuffer.PackedBits` | src/dll/win32/gdi32/mod.rs:866-880 | In memory the leftmost of eight 1 bit pixels is the highest bit of its byte |
| `DibBuffer.PackedNibbles` | src/dll/win32/gdi32/mod.rs:881-900 | And the left of two 4 bit pixels is the high half |
| `DibBuffer.WholeByteCell` | src/dll/win32/gdi32/mod.rs:901-965 | 8 bit cells are bytes, wider cells are little-endian numbers |
| `DibBuffer.EncodeDefault32` | src/dll/win32/gdi32/mod.rs:1055-1071 | A colour is stored in 32 bits without masks as blue, green, red, alpha, and read back whole |
| `DibBuffer.PixelOutside` | src/dll/win32/gdi32/mod.rs:866-968 | Past the end of the bytes a pixel reads as index 0, or as transparent black above 8 bits and at unknown depths |
| `DibBuffer.StrideHoldsRow` | src/dll/win32/gdi32/mod.rs:424-446 | Whatever size the header claims, the effective stride holds a whole row, and computed strides are multiples of four |
| `DibBuffer.AlignedStrideLeast` | src/dll/win32/gdi32/mod.rs:424-427 | The computed stride is the least multiple of four that holds a row, a depth of 0 counting as 1 |
| `DibBuffer.EffectiveStrideRule` | src/dll/win32/gdi32/mod.rs:431-446 | The image size in the header decides the stride iff its lines hold a row |
| `DibBuffer.StrideRule` | src/dll/win32/gdi32/mod.rs:241-245 | The stride stored with a bitmap is used; without one, the least multiple of four that holds a row |
| `DibBuffer.WideStride` | src/dll/win32/gdi32/mod.rs:424-427 | When width times depth leaves 32 bits the product saturates |
| `DibBuffer.StoreThenRead` | src/dll/win32/gdi32/mod.rs:972-1074 | A pixel cell just written reads back as written, at every depth |
| `DibBuffer.StoreKeepsOthers` | src/dll/win32/gdi32/mod.rs:972-1074 | Writing one cell leaves every other cell alone, including the seven other bits or the other nibble of its byte |
| `DibBuffer.StoreBitKeepsOthers` | src/dll/win32/gdi32/mod.rs:985-1001 | The one-bit case: set and clear touch a single bit |
| `DibBuffer.DistinctCellsApart` | src/dll/win32/gdi32/mod.rs:492-538 | Different pixels never share a bit, whatever the stride and row direction |
| `DibBuffer.WriteDibPixel` | src/dll/win32/gdi32/mod.rs:972-1074 | Writes exactly the encoded cell, and nothing when the depth is unsupported or the row is too short |
| `DibBuffer.DibSection.SyncPixels` | src/dll/win32/gdi32/mod.rs:270-342 | Every pixel becomes the decoded cell of its row and column: row k at byte offset k strides when the bitmap runs downward, height - 1 - k strides otherwise |
| `DibBuffer.DibSection.FlushPixels` | src/dll/win32/gdi32/mod.rs:189-267 | Every cell becomes the encoding of its pixel, at the same offsets for both row directions; every padding cell and byte becomes zero |
| `DibBuffer.UntouchedPixelKeepsIff` | src/dll/win32/gdi32/mod.rs:189-342 | A pixel that drawing left as read reads the same after the flush iff its cell round-trips, whatever was drawn elsewhere |
| `DibBuffer.SyncFlushSync` | src/dll/win32/gdi32/mod.rs:189-342 | Sync, flush, sync equals sync at every supported depth, stride and row direction for every bitmap whose cells meet the checkable condition |
| `DibBuffer.SyncFlushSyncIff` | src/dll/win32/gdi32/mod.rs:189-342 | Sync, flush, sync gives each pixel back iff its cell round-trips, and the whole bitmap iff all cells do |
| `DibBuffer.ExactCellRoundTrips` | src/dll/win32/gdi32/mod.rs:854-1074 | The checkable condition under which a cell round-trips: 24 bit always; no masks, or clean ones, at 16 and 32 bit; below that, index inside the palette, no palette (8 bit: value at most 85) or fallback grey in the palette |
| `DibBuffer.DibSection.LineTo` | src/dll/win32/gdi32/drawing.rs:907-987 | After a sync, clipped line, flush cycle every pixel reads as its old colour, blended once where the clipped line runs, as the format can store it; off the line each exact cell keeps its colour whatever the others hold |
| `Heap.AlignHeapSize` | src/dll/win32/mod.rs:1088-1091 | The smallest positive multiple of four that holds the size, or failure iff it leaves 32 bits |
| `Heap.GuestHeap.Alloc` | src/dll/win32/mod.rs:306-339 | Returns a smallest sufficient free block if one exists, otherwise the cursor; fails, changing nothing, iff neither fits; the bytes handed out overlap no live block; the tiling invariant is kept |
| `Heap.LiveInRange` | src/dll/win32/mod.rs:306-339 | Live blocks lie between heap base and limit, are 4-aligned and do not overlap |
| `Heap.GuestHeap.Free` | src/dll/win32/mod.rs:342-357 | Succeeds iff the address is live; exactly that block becomes free and merges with its neighbours; an unknown address changes nothing |
| `Heap.GuestHeap.AllocationForRange` | src/dll/win32/mod.rs:370-383 | Answers the unique live block containing the whole range iff there is one, whatever order the map is scanned in |
| `Heap.GuestHeap.CarveFree` | src/dll/win32/mod.rs:308-326 | Splitting a free block hands out its head, returns the tail to the list and keeps the tiling |
| `Heap.BestFit` | src/dll/win32/mod.rs:310-318 | Chooses the first of the smallest sufficient blocks, none iff none is large enough |
| `Heap.PushFreeBlock` | src/dll/win32/mod.rs:1093-1114 | The rebuilt list has the old free bytes plus the new ones, in sorted blocks with gaps between them |
| `Heap.FormTiles` | src/dll/win32/mod.rs:306-357 | Live and free blocks together tile the heap from its base to the cursor |
| `Heap.Conservation` | src/dll/win32/mod.rs:306-357 | Live sizes plus free sizes always add up to cursor minus base |
| `Heap.FreeNeighbours` | src/dll/win32/mod.rs:1093-1114 | A free block starts where a live one ends (or at the base) and ends where one starts (or at the cursor), and is 4-aligned |
| `Heap.FragmentationBound` | src/dll/win32/mod.rs:1093-1114 | There is at most one more free block than live blocks |
| `Heap.FreeBlocksDetermined` | src/dll/win32/mod.rs:306-357 | The free blocks depend only on the live blocks and the cursor, so freeing what was just carved out restores them |
| `Mirror.SurfaceSync.QueueBitmapUpload` | src/dll/win32/mod.rs:566-588 | Every branch of queueing an upload: dropped, promoted to a full upload, absorbed by one, or appended |
| `Mirror.SurfaceSync.QueueDrawCommand` | src/dll/win32/mod.rs:591-613 | A draw command is absorbed by a pending full upload or appended; the first one also marks content and clears the full-upload flag |
| `Mirror.SurfaceSync.QueueRectUpload` | src/dll/win32/mod.rs:704-745 | Queues an upload of exactly the pixels under the rectangle that lie on the surface, each with its value; nothing when there are none |
| `Mirror.SurfaceSync.CountPixels` | src/dll/win32/mod.rs:68-93 | The presentability test as pixel counts over the whole buffer |
| `Mirror.PresentableIff` | src/dll/win32/mod.rs:68-93 | Presentable iff at least 12 percent of the pixels are visible and not black, or at least 85 percent are visible and one is not black |
| `Mirror.SurfaceSync.ConsumeFullUpload` | src/dll/win32/mod.rs:550-563 | Consuming a pending full upload clears the flag and the queue |
| `Mirror.SurfaceSync.BeginDc` | src/dll/win32/mod.rs:500-510 | One more DC is open |
| `Mirror.SurfaceSync.EndDc` | src/dll/win32/mod.rs:512-521 | One less, but never below zero |
| `Mirror.SurfaceSync.EnsureReleaseSync` | src/dll/win32/mod.rs:782-806 | A pending release sync becomes a full upload and empties the queue |
| `Mirror.RenderTarget.Render` | src/ui/render/mod.rs:868-915 | Skips exactly while a DC is open, the frame is not ready (no area, lock taken), the buffer is empty or nothing was drawn; otherwise a full upload, or the queued operations in order |
| `Mirror.RenderTarget.RenderFrame` | src/ui/render/mod.rs:882-915 | The part after the look at the DC count: which of the two the frame gets, and what is left of flags and queue |
| `Images.UploadCatchesUp` | src/ui/render/mod.rs:1083-1106 | Uploading the copied rectangle onto the old pixels reproduces the new ones when only that rectangle changed |
| `Images.ReplayConcat` | src/ui/render/mod.rs:1083-1106 | Replaying two queues one after the other is replaying their concatenation |
| `Images.CopyRect` | src/dll/win32/mod.rs:727-734 | The row-by-row copy is the rectangle of the image |
| `Images.ClipPoints` | src/dll/win32/mod.rs:713-727 | Clipping keeps exactly the points of the rectangle that lie on the surface |
| `Images.CopyOfClip` | src/dll/win32/mod.rs:713-745 | The copy under the clipped rectangle holds exactly the pixels of the surface under the rectangle asked for |
| `MirrorRuns.StepKeepsInv` | src/dll/win32/mod.rs:450-806 | No branch loses an update: after every step, resizes and renders by the UI thread at any moment included, a full upload is due, an erase waits for its release, or replaying the queue on the texture gives the CPU pixels; full upload due implies no queue and no release sync, a queue implies release sync |
| `MirrorRuns.RunKeepsInv` | src/dll/win32/mod.rs:450-806 | The same after every run of draws, uploads, dirty marks, resizes, releases and renders |
| `MirrorRuns.FramesAreFaithful` | src/ui/render/mod.rs:868-915 | Every frame a run renders equals the CPU surface, unless an erase still waits for its DC release |
| `MirrorRuns.RenderAfterErase` | src/dll/win32/user32/paint.rs:201-228 | After an erase of a settled surface the next frame is right iff a full upload was due or the erase changed nothing: nothing is queued for it |
| `MirrorRuns.RenderBetweenPaintAndQueue` | src/ui/render/mod.rs:868-915 | When a render overtakes a drawn but unqueued command, the next frame is right iff target and surface agreed on whether a full upload was due, or applying the command again changes nothing |
| `MirrorRuns.DoubleDrawHappens` | src/dll/win32/mod.rs:591-613 | A run of the discipline reaches the state where they disagree: after the first draw of any window, an overtaken command shows up twice |
| `MirrorRuns.StaleFrameHappens` | src/dll/win32/user32/paint.rs:201-228 | A run of the discipline reaches the stale frame: once a window has been shown, every erase that changes it leaves one |
| `MirrorRuns.RectPaintAllowed` | src/dll/win32/mod.rs:704-745 | Painting only under a rectangle and uploading that rectangle obeys the discipline, wherever the rectangle lies |
| `MirrorRuns.RunRemembers` | src/dll/win32/mod.rs:450-806 | Without any discipline between drawing, queueing and rendering: a full upload is due, a release sync is pending, a report is owed, or the texture is the CPU surface |
| `MirrorRuns.ReleasedFrameIsFaithful` | src/dll/win32/mod.rs:782-806 | What the release sync is for: in all those runs, once every call has reported its painting and a DC was released, the next frame equals the CPU surface, erases, unrelated commands and late renders included |
| `Protocol.ToBytesIsFrameIff` | src/server/protocol.rs:26-45 | A serialised packet is accepted by the header parser iff channel and length meet its limits, and then parses back to channel and body |
| `Protocol.HeaderRule` | src/server/protocol.rs:26-36 | Byte by byte: channels 0 to 15, bodies up to 8188 bytes, exactly four on channel 0, low byte first |
| `Protocol.FrameBytes` | src/server/protocol.rs:26-45 | Every frame is its channel, a zero, the length of its body and the body, and serialising channel and body gives it back |
| `Protocol.ControlFrames` | src/server/protocol.rs:128-145 | Every frame on channel 0 is the eight bytes of a control packet |
| `Protocol.ControlMessageParses` | src/server/protocol.rs:128-158 | Control messages are frames on channel 0 that parse back |
| `Protocol.PacketsParseBack` | src/server/protocol.rs:66-184 | Application and auth packets parse back to the packet they were built from |
| `Protocol.ScanPrefix` | src/server/protocol.rs:26-36 | What the first bytes of a buffer decide, later bytes never change |
| `Protocol.AuthMessageIsFrame` | src/server/protocol.rs:178-184 | Every auth packet within the body limit is one whole frame |
| `Session.AvatarBootstrap` | src/server/session.rs:118-155 | The selection payload is always 0x431 bytes |
| `Session.BootstrapLayout` | src/server/session.rs:118-155 | Character, both balances, flags and the two slot markers sit at their literal offsets |
| `Session.BootstrapSlots` | src/server/session.rs:118-155 | With an avatar both slots hold its record, and every other byte of the payload is zero |
| `Session.RecordLayout` | src/server/session.rs:100-115 | Character, nickname and the two balances cut to 16 bits sit at their literal offsets of the record, zeros everywhere else |
| `Session.NewUserLayout` | src/server/session.rs:43-66 | A new user is shown as character 1 with 1000 GP, no FP, no avatar and leave to create one, under a nickname of at most 22 bytes |
| `Session.DetailLayout` | src/server/session.rs:75-97 | Character, padded nickname and the two balances sit at their fixed offsets of the 272 byte block, zeros everywhere else |
| `Session.BuildAvatarBootstrap` | src/server/session.rs:118-155 | The in-place builder produces the payload whose layout is stated above |
| `Session.BuildAvatarRecord` | src/server/session.rs:100-115 | The in-place builder produces the 0x80 byte record |
| `Session.BuildAvatarDetail` | src/server/session.rs:75-97 | The appending builder produces the block whose layout is stated above |
| `Session.UntilNul` | src/server/session.rs:69-72 | The bytes before the first NUL, all of them when there is none |
| `Domain.AuthRules` | src/server/domain/auth.rs:20-197 | On channel 1 accounts change only by a registration and the session only by login, registration, avatar choice and logout; a logout ends it and announces the close; every other known request is answered on its channel under its own code, except a registration that is too short |
| `Domain.AvatarRules` | src/server/domain/auth.rs:162-189 | Choosing an avatar sets the character of the session, if there is one, and nothing else |
| `Domain.LoginRules` | src/server/domain/auth.rs:70-106 | A login keeps the session of the same user and replaces any other by a new one, shows it in the reply, touches no account, and changes nothing when repeated |
| `Domain.Account.RegistrationSubmitResponse` | src/server/domain/auth.rs:132-159 | Short, nameless and taken registrations change nothing; a new one stores the account and starts its session |
| `Domain.DispatchRules` | src/server/domain/mod.rs:13-31 | Off channel 1 only a system login changes the session and nothing changes an account; echoed kinds come back as one frame on the same channel that parses to the packet sent; everything else but the two system requests goes unanswered |
| `Domain.SystemLoginIff` | src/server/domain/system.rs:75-123 | A system login leaves a session, that of the named account, iff it reports success, iff the account exists with the test password stored |
| `DomainRules.CredentialsRule` | src/server/domain/system.rs:18-59 | No first byte, no credentials; two filled fields of sixteen bytes are id and password; otherwise the password is the text after the id, or the id again |
| `DomainRules.CredentialsRead` | src/server/domain/system.rs:18-59 | Both encodings of an id and a password are read back, and an id alone is its own password |
| `DomainRules.SystemReplies` | src/server/domain/system.rs:75-123 | The ten bytes of every system reply: version 54, and login codes 0, 1, 2 and 4 with the case each belongs to |
| `DomainRules.FirstLogin` | src/server/session.rs:30-39 | A new server admits the test account and no other |
| `DomainRules.LoginIdRule` | src/server/domain/auth.rs:58-67 | The id of a login ends at the first NUL or after sixteen bytes |
| `DomainRules.LoginIdRead` | src/server/domain/auth.rs:58-67 | An id of at most sixteen bytes is read back, padded or not |
| `DomainRules.PlainReplies` | src/server/domain/auth.rs:42-129 | Requests 0, 3 and 4 answer version and news title, the greeting, and whether an id is free, and change nothing |
| `DomainRules.SessionReplies` | src/server/domain/auth.rs:70-189 | A login is answered by the slots of its session and an empty block, an avatar choice by the detail of the session and the visit pay |
| `DomainRules.RegistrationReplies` | src/server/domain/auth.rs:132-159 | A registration takes id and password from bytes 0 and 36, adds that account and shows its session, or says why not |
| `DomainRules.WorldMapSays` | src/server/domain/world.rs:15-25 | The stage message parses to the stage name followed by 280 zeros |
| `Domain.AuthReplyFramed` | src/server/domain/auth.rs:20-197 | Every channel 1 reply is empty or whole frames |
| `Domain.DispatchReplyFramed` | src/server/domain/echo.rs:4-36 | Every other reply is empty or whole frames, because an echo is as long as its request |
| `Domain.WorldMapFramed` | src/server/domain/world.rs:15-25 | The stage message pushed when channel 2 opens is a whole frame |
| `Server.ServerRuntime.Send` | src/server/handler.rs:261-283 | Empty replies are skipped; sending stops at the first failure with the earlier packets sent |
| `Server.ServerRuntime.HandleOpenRequest` | src/server/handler.rs:232-258 | Opens a channel in 1..14 that is not open, rejects all others |
| `Server.ServerRuntime.HandleControlMessage` | src/server/handler.rs:87-144 | State and replies after every control message |
| `Server.ServerRuntime.HandleAppMessage` | src/server/handler.rs:147-229 | State and replies after every application message: the transition that the frame rules below characterise |
| `ServerRules.AuthFrameRule` | src/server/handler.rs:168-204 | A request on open channel 1 sends exactly the reply of its handler, nothing if that is empty, and leaves the session the handler leaves |
| `ServerRules.DispatchFrameRule` | src/server/handler.rs:206-229 | The same on channels 2 to 14 |
| `ServerRules.EchoRule` | src/server/domain/echo.rs:4-36 | A ping, an inventory packet and one of kind 0xD4 on an open channel come back byte for byte |
| `ServerRules.RejectRule` | src/server/handler.rs:153-221 | Data for a channel that is not open, and bodies too short to parse, send the eight bytes of a reject and change nothing else |
| `ServerRules.HangUpRule` | src/server/handler.rs:261-283 | When the guest takes no more, a request still does what it does to the session, and the connection ends iff there was something to send |
| `ServerRules.OpenRule` | src/server/handler.rs:232-258 | The open packet of a free channel from 1 to 14 opens it and is confirmed, with the stage message on channel 2; any other is rejected and changes nothing |
| `ServerRules.CloseRule` | src/server/handler.rs:96-141 | The close packet of an open channel ends it and comes back, an abort ends it in silence, and no other control packet does anything |
| `ServerRules.SendRule` | src/server/handler.rs:261-283 | The nonempty packets go out in order, as many as the guest takes; sending fails iff some are left |
| `ServerRules.StreamIsFrames` | src/server/handler.rs:44-84 | A stream of frames is handled frame by frame; a tail that may still become a frame is kept, one that cannot ends the connection |
| `Server.ServerRuntime.ProcessRecvData` | src/server/handler.rs:44-84 | The buffer loop handles exactly the whole frames at the front, in order, and stops at a bad header or a failed send |
| `Server.ServerRuntime.Run` | src/server/handler.rs:10-24 | The handler loop over the arriving chunks |
| `Server.ProcessInTwo` | src/server/handler.rs:44-84 | Processing a buffer and then more bytes equals processing both at once |
| `Server.ChunkingIrrelevant` | src/server/handler.rs:10-84 | However the client stream is cut into chunks, packets sent, session, open channels, outcome and stop point are those of the whole stream |
| `ServerRuns.ControlNeverMalformed` | src/server/handler.rs:88-94 | The malformed-control branch is unreachable |
| `ServerRuns.UnopenedChannelRejected` | src/server/handler.rs:153-170 | Data on a channel that is not open earns exactly one reject and changes nothing else |
| `ServerRuns.LogoutKeepsChannelOpen` | src/server/domain/auth.rs:192-197 | A logout announces the close of channel 1 but the server keeps it open, and a later open is rejected |
| `ServerRuns.FalseCloseIff` | src/server/handler.rs:87-283 | A frame makes the server announce the close of a channel it keeps open iff it is a logout on open channel 1 and the guest still takes the packet |
| `ServerRuns.FrameKeepsSound` | src/server/handler.rs:87-283 | One frame keeps: channels in 1..14, only whole frames sent, opens minus closes 0 or 1 per channel, one OPEN_OK per accepted open |
| `ServerRuns.StreamKeepsSound` | src/server/handler.rs:44-283 | The same after any byte stream; the connection ends only at a bad header or when the guest is gone |
| `ServerRuns.RunsAreSound` | src/server/handler.rs:10-283 | The same for every run of the handler loop, in whatever chunks the bytes arrive |
| `ServerRuns.CheckPredictsRegistration` | src/server/domain/auth.rs:116-159 | The id check reports an id as free iff registering it would be accepted, and an accepted registration adds that account and no other |
| `ServerRuns.StreamKeepsAccounts` | src/server/handler.rs:44-283 | No byte stream removes an account or changes its password |
| `Socket.VirtualSocket.RecvPendingData` | src/dll/win32/ws2_32.rs:95-141 | What a receive or peek returns and leaves, in every branch |
| `Socket.RecvKeepsStream` | src/dll/win32/ws2_32.rs:83-141 | A receive removes a prefix of the pending bytes, a peek returns one and removes nothing; end of stream only when nothing is pending and the sender is gone; pending bytes are always returned |
| `Socket.RecvRule` | src/dll/win32/ws2_32.rs:95-141 | A receive takes from its buffer alone when that holds enough, else at most one queued message more, and says end of stream only with an empty buffer |
| `Socket.VirtualSocket.Poll` | src/dll/win32/kernel32/sync.rs:504-522 | Polling moves at most one message into an empty buffer and reports readiness |
| `Socket.PollKeepsStream` | src/dll/win32/ws2_32.rs:640-662 | Polling changes no pending byte and reports readable iff bytes are pending or the sender is gone |
| `Socket.PollRule` | src/dll/win32/kernel32/sync.rs:504-522 | A poll moves the first message into an empty buffer and otherwise nothing |
| `Socket.VirtualSocket.DrainChannel` | src/dll/win32/ws2_32.rs:1303-1325 | Event enumeration moves every queued message into the buffer |
| `Socket.DrainKeepsStream` | src/dll/win32/ws2_32.rs:1303-1325 | Event enumeration changes no pending byte |
| `Socket.BytesDroppedIff` | src/dll/win32/ws2_32.rs:95-141 | With no channel, a receive loses bytes iff the buffer is nonempty but shorter than the request |
| `PacketLogger.Logger.DrainCompleteFrames` | src/server/packet_logger.rs:48-90 | Frames returned and bytes kept after each delivery; a peek or empty delivery changes nothing |
| `PacketLogger.DrainInTwo` | src/server/packet_logger.rs:48-90 | Draining as bytes arrive gives the frames and the rest of draining all at once |
| `PacketLogger.DrainPrefix` | src/server/packet_logger.rs:66-87 | On any prefix of a stream of frames the logger finds exactly the first frames and keeps a proper part of the next |
| `PacketLogger.DrainLossless` | src/server/packet_logger.rs:66-87 | On such a stream it never skips a byte to resynchronise |
| `PacketLogger.DrainSound` | src/server/packet_logger.rs:66-87 | On any bytes only whole frames are found, and what is kept is the end of the data and not yet a frame |
| `PacketLogger.JunkSkipped` | src/server/packet_logger.rs:73-79 | Bytes no header can start with are skipped one by one up to the next frame |
| `EndToEnd.StepKeepsInv` | src/dll/win32/ws2_32.rs:83-141 | Every arrival, receive, peek, poll and drain keeps delivered plus pending equal to sent, and the log equal to draining what was delivered |
| `EndToEnd.RunKeepsStream` | src/dll/win32/ws2_32.rs:518-569 | After every run the delivered bytes followed by the pending ones are the sent bytes: none lost, doubled or reordered |
| `EndToEnd.RunHistory` | src/dll/win32/ws2_32.rs:83-141 | Sent is every arrival and delivered every received byte, both in order |
| `EndToEnd.RunHangUp` | src/dll/win32/ws2_32.rs:83-141 | The sender is gone iff it hung up |
| `EndToEnd.NothingReceivedMeansDrained` | src/dll/win32/ws2_32.rs:518-569 | A receive comes back without data iff nothing is pending, and reports the end iff moreover the sender is gone; then everything sent was delivered |
| `EndToEnd.LoggedFramesArePrefix` | src/server/packet_logger.rs:48-90 | For every client stream and every way of reading, the log holds exactly the first frames the server sent, no byte is skipped, and the rest is a proper part of the next frame |
| `WindowTree.AcyclicIff` | src/ui/win_event.rs:122-145 | The parent links are acyclic iff every walk up leaves the map within as many steps as there are windows |
| `WindowTree.RootWithinBound` | src/ui/win_event.rs:127-142 | A child chain that reaches a root is shorter than the map is large, so the loop bound never cuts it |
| `Windows.WinEvent.WindowScreenOrigin` | src/ui/win_event.rs:122-145 | Answers iff the child chain reaches a window in screen coordinates, and then with the recursive sum of offsets and insets |
| `Windows.WinEvent.EffectiveVisibility` | src/ui/win_event.rs:155-175 | True iff the chain reaches such a window and every window on it is visible |
| `Windows.WinEvent.ChildWindows` | src/ui/win_event.rs:75-85 | Every direct child once, in z-order |
| `Windows.WinEvent.SubtreePostorder` | src/ui/win_event.rs:106-119 | Terminates on every acyclic tree and lists each descendant once, children before parents |
| `Windows.WinEvent.SubtreePreorder` | src/ui/win_event.rs:88-103 | The same with parents before children; empty for a handle without a window |
| `Windows.WinEvent.DestroyWindow` | src/ui/win_event.rs:318-334 | Removes exactly the subtree and reports it children first; no window keeps a removed parent; the main window is forgotten iff it was inside; the host still agrees |
| `Windows.WinEvent.CreateWindow` | src/ui/win_event.rs:258-265 | Only the first top-level window ever registered becomes the main one; an unused handle keeps the tree acyclic and the host in agreement |
| `Windows.WinEvent.RealizeWindow` | src/ui/win_event.rs:268-315 | The host gets the window in its own coordinates and effective visibility, and agreement is kept |
| `Windows.WinEvent.ShowWindow` | src/ui/win_event.rs:366-372 | After showing or hiding, the host agrees on the window and on every window below it |
| `Windows.WinEvent.MoveWindow` | src/ui/win_event.rs:423-432 | A move changes one window; telling the host about that one is enough |
| `Windows.WinEvent.SetWindowPos` | src/ui/win_event.rs:458-526 | Bit by bit: 0x2 keeps the position, 0x1 the size, 0x4 the stack, 0x40 shows; otherwise the arguments are taken as signed numbers and the window goes where asked among its siblings; nothing else about any window changes; the host agrees afterwards if it did before |
| `Windows.WinEvent.Restack` | src/ui/win_event.rs:470-502 | The renumbering loop: the new list of children is the old one restacked; a handle without a window keeps the top-level order |
| `Windows.WinEvent.Place` | src/ui/win_event.rs:504-525 | Position, size and visibility follow the flags bit by bit; visibility of the subtree is reported iff the window became visible, then its own geometry |
| `Windows.PlacedFields` | src/ui/win_event.rs:504-520 | Flag 0x2 keeps the position and 0x1 the size; without them the arguments are taken as signed 32 bit numbers; 0x40 shows; everything else stays |
| `Windows.ToI32` | src/ui/win_event.rs:504-512 | The cast to a signed number keeps the value modulo 2^32 |
| `Windows.WinEvent.SyncSubtreeVisibility` | src/ui/win_event.rs:208-215 | One command per window of the subtree, with its effective visibility |
| `WindowOrder.RestackedMeaning` | src/ui/win_event.rs:481-494 | Restacking keeps the order of the others and ends on top, at the bottom, or directly above the named sibling |
| `WindowOrder.ChildListUnique` | src/ui/win_event.rs:75-85 | Z-order and handle settle the list of children: there is only one |
| `WindowOrder.RestackedChildren` | src/ui/win_event.rs:470-502 | Numbering the restacked siblings makes that order the list of children, and disturbs no other parent |
| `WindowHost.VisibleAboveUnchanged` | src/ui/win_event.rs:155-175 | Changing one window can only change the visibility of windows below it |
| `WindowHost.OriginRule` | src/ui/win_event.rs:122-145 | A window that is no true child lies on the screen at its own offset, owner or not; a true child inside the frame of its parent |
| `WindowHost.VisibleRule` | src/ui/win_event.rs:155-175 | A window is seen iff it is visible and, for a true child, its parent is seen |
| `WindowHost.ShowsRestoreAgreement` | src/ui/win_event.rs:208-215 | Telling the host about the subtree is enough after a visibility change at its root |
| `WindowHost.PlacingRestoresAgreement` | src/ui/win_event.rs:504-525 | Subtree visibility, if it changed, and the window's own place restore agreement |
| `WindowHost.DestroysKeepAgreement` | src/ui/win_event.rs:318-334 | Destroying a subtree changes nothing for the windows that stay |
| `WindowHost.HostedAfterShows` | src/ui/win_frame.rs:1015-1047 | The host window after a batch of show commands; a window the host does not have stays absent |
| `FrameInference.LongestEmptyInterval` | src/dll/win32/gdi32/drawing.rs:64-87 | The leftmost of the longest empty runs, none iff the row is full |
| `FrameInference.LongestUnique` | src/dll/win32/gdi32/drawing.rs:64-87 | That run is unique |
| `FrameInference.Occupancy` | src/dll/win32/gdi32/drawing.rs:104-126 | The grid marks exactly the window pixels covered by the clip rectangles |
| `FrameInference.ScanRows` | src/dll/win32/gdi32/drawing.rs:132-163 | The row scan lists exactly the maximal groups of rows with the same inner empty run |
| `FrameInference.BestGroup` | src/dll/win32/gdi32/drawing.rs:165-170 | The chosen group qualifies, no qualifying group is larger and none as large lies lower; none is chosen iff none qualifies |
| `FrameInference.GroupIsHole` | src/dll/win32/gdi32/drawing.rs:165-189 | The qualifying groups are exactly the maximal holes: inside the border, each row having those columns as its longest empty run, and not the rows next to them |
| `FrameInference.HoleIsFree` | src/dll/win32/gdi32/drawing.rs:132-190 | No clip rectangle reaches into a hole |
| `FrameInference.InferGuestFrame` | src/dll/win32/gdi32/drawing.rs:90-190 | For windows of more than two and at most 4000000 pixels that a rectangle meets: the insets of the maximal hole of largest area, the lowest of them, and nothing iff there is none |
## Left out

- Integer widths: coordinates, sizes and error terms are unbounded integers; `Raster.ErrBounded` gives the line length up to which the error arithmetic is exact in 32 bits, `DibMasks.ProductsFitIff` the mask width up to which the codec products are, and heap addresses are bounded by the heap range. Bitmap index arithmetic, window offset sums and masks wider than 24 bits can wrap in 32 bits and are not modelled as wrapping.
- Raster.FillRect: covers the brush part of `draw_rect`; its pen part, text, `bit_blt` and cursors are not modelled.
- RegionOps.GdiTable.CombineRgn: the unknown-mode result is stated through the bounding box of both lists, including the seed values used for empty lists; `GetRgnBox` and device-context bookkeeping are not modelled, since they only add easy members.
- DibBuffer.DibSection.LineTo: stands for every sync, draw, flush call; guest memory is a byte array of exactly the bitmap's size, and header parsing, RLE decoding and memory faults are not modelled. Truncated buffers occur only in `DibBuffer.WriteDibPixel`.
- DibBuffer.ExactCellRoundTrips: for 16 and 32 bit masks the condition is sufficient, not necessary; `DibBuffer.SyncFlushSyncIff` is exact for every bitmap, in terms of the round trip of its cells.
- Dib.NearestPaletteIndex: palette entries are colours; entries past index 255 are clamped as the source does.
- Heap.GuestHeap.Alloc: free blocks are kept as half-open address spans instead of address and size pairs; cloning the context, which copies the cursor but shares the block table, is not modelled.
- MirrorRuns.StepKeepsInv: a GPU draw command stands for an arbitrary effect, and the operations a call queues are assumed to reproduce what it painted; uploads are concrete. `MirrorRuns.ReleasedFrameIsFaithful` does without that assumption. Surfaces have at least one pixel. Forgetting a surface and guards for handles that are not surfaces are not modelled.
- MirrorRuns.FramesAreFaithful: drawing calls on one surface run one at a time, through a DC that stays open until they have queued what they drew, and a render looks at the DC count when it acts. The source reads that count before it locks the pixels (src/ui/render/mod.rs:876-882), so a DC may be opened in between; such late renders are covered by `MirrorRuns.ReleasedFrameIsFaithful` and `MirrorRuns.RenderBetweenPaintAndQueue` only. What follows the look is one step.
- Mirror.SurfaceSync.QueueDrawCommand: the four draw-command constructors (fill, line, text mask, blit) are one abstract operation.
- Domain.AuthRules: strings are byte strings, without the lossy UTF-8 conversion; the version file is a parameter.
- Server.ServerRuntime.Send: a guest that hangs up is modelled as a capacity, the number of packets it takes before it does; chunks that arrive after the handler returned are ignored.
- Socket.VirtualSocket.RecvPendingData: distributing the bytes over WSARecv's buffers, retry scheduling, error codes and the wait and wake machinery around `select` and events are not modelled; no progress or wake-up property is claimed.
- EndToEnd.LoggedFramesArePrefix: one connection and one direction; the logger's other streams are independent entries of its map.
- PacketLogger.Logger.DrainCompleteFrames: the hex formatting of frames is not modelled.
- Windows.WinEvent.ShowWindow: parent links are assumed acyclic, as the recursive walks need; the other `ShowWindow` commands only add minimise and maximise flags. `SetWindowLongA`, which changes style and visibility directly (src/dll/win32/user32/window.rs:864-935), is not part of this model, so host agreement is claimed for the operations in the table only.
- Windows.WinEvent.CreateWindow: acyclicity and host agreement are claimed for handles nothing refers to yet, which is what the handle counter hands out; the effect on the table is claimed for all.
- Windows.WinEvent.MoveWindow: `resize_window` and `sync_host_window_position`, which copy geometry from the host back into the table, are not modelled; nor is the host's own rule that keeps the main window visible during start-up. Commands are taken to reach the host in order.
- WindowTree.AcyclicIff: no claim is made about walks down a cyclic table, where the source would recurse for ever.
- FrameInference.InferGuestFrame: the effect on the window's stored frame metrics is not modelled.
- Unicorn execution, hooks, PE loading, file access, winit, wgpu, fonts, audio and dialogs are foreign code or user interface.
- Stub APIs (registry, shell, IMM, COM), stock objects, device capabilities and plain getters and setters would only add easy members.
