# Modern Industrialization texture, pipe-interface and render helpers in Dafny

This project models three small pieces of the Modern Industrialization mod
for Minecraft and proves properties about them.

- **TextureHelper**, the texture generator for materials.
  - `colorize` tints a greyscale image by the luminance of each pixel.
  - `blend` alpha-composites one image over another of the same size, and fails when the sizes differ.
  - `doubleIngot` overlays two copies of an ingot texture, one moved down and one moved up by an eighth of its height.
  - The helpers that split a packed ARGB pixel into channels and pack it back.
- **FluidPipeInterface**, the state behind a fluid pipe's configuration screen.
  - That state is the network fluid, the connection type and the priority.
  - `toBuf` writes the three fields to a packet, and `ofBuf` reads them back into a stand-alone object whose getters and setters work on its own copy.
- **RenderHelper**, the non-drawing logic of the render helpers.
  - The slot layout of the pre-built overlay and cube quads (24 and 6 slots).
  - The fill clamping and fluid heights used when a tank's fluid is drawn.
  - The GUI hit test `isPointWithinRectangle`.

Modules:

- `JavaInt` (`java_int.dfy`) covers Java `int` semantics over unbounded integers.
  - `Int32` holds signed values and `Word` holds 32-bit patterns.
  - `Wrap32` models wrap-around.
  - `DoubleToInt` models the saturating, truncating `(int)` cast of a `double`.
- `Pixels` (`pixels.dfy`) covers the channel extractors and `fromArgb`.
  - A pixel is the unsigned 32-bit pattern of the Java `int`.
- `TextureHelper` (`texture_helper.dfy`) models the three image operations as methods over `array2<Word>`, indexed `[x, y]`.
  - Each operation is specified by functions on single pixels and on columns.
  - Lemmas state what those functions mean.
- `PacketBuf` (`packet_buf.dfy`) models the packet buffer.
  - It is a class holding a byte sequence and a reader index.
  - It reads and writes ints big-endian.
- `FluidPipeInterface` (`fluid_pipe_interface.dfy`) contains:
  - the wire format as `Encode`/`Decode` functions, with a round-trip lemma;
  - the decoded object as a class with getters and setters;
  - `toBuf` and `ofBuf` as methods on the buffer.
- `RenderHelper` (`render_helper.dfy`) contains the quad tables, the tank fill and the hit test.
- `Wrappers` (`wrappers.dfy`) defines `Option` and `Outcome`.

## Model

| member | source | states |
|---|---|---|
| JavaInt.DoubleToInt | src/main/java/aztech/modern_industrialization/materials/textures/TextureHelper.java:118-120 | The `(int)` cast of a double truncates toward zero and saturates at the int range. |
| Pixels.GetA | src/main/java/aztech/modern_industrialization/materials/textures/TextureHelper.java:101-103 | The alpha channel, bits 24-31, is between 0 and 255. |
| Pixels.GetR | src/main/java/aztech/modern_industrialization/materials/textures/TextureHelper.java:105-107 | The red channel, bits 0-7, is between 0 and 255. |
| Pixels.GetG | src/main/java/aztech/modern_industrialization/materials/textures/TextureHelper.java:109-111 | The green channel, bits 8-15, is between 0 and 255. |
| Pixels.GetB | src/main/java/aztech/modern_industrialization/materials/textures/TextureHelper.java:113-115 | The blue channel, bits 16-23, is between 0 and 255. |
| Pixels.FromArgb | src/main/java/aztech/modern_industrialization/materials/textures/TextureHelper.java:122-124 | Packing four channels puts alpha in the top byte. |
| Pixels.PackUnpack | src/main/java/aztech/modern_industrialization/materials/textures/TextureHelper.java:101-124 | Each extractor applied to a packed pixel returns the channel that was packed. |
| Pixels.UnpackPack | src/main/java/aztech/modern_industrialization/materials/textures/TextureHelper.java:101-124 | Repacking the four extracted channels gives back the original pixel. |
| Pixels.FromArgbReal | src/main/java/aztech/modern_industrialization/materials/textures/TextureHelper.java:117-120 | Alpha is kept exactly. Each colour channel is the truncation of its double value in [0, 256). |
| TextureHelper.Luminance | src/main/java/aztech/modern_industrialization/materials/textures/TextureHelper.java:34-35 | The relative luminance of a pixel lies in [0, 1]. |
| TextureHelper.Scaled | src/main/java/aztech/modern_industrialization/materials/textures/TextureHelper.java:36 | A tint scaled by the luminance lies between 0 and the tint. It is the tint at luminance 1 and 0 at luminance 0. |
| TextureHelper.Colorized | src/main/java/aztech/modern_industrialization/materials/textures/TextureHelper.java:33-36 | A colorized pixel keeps its alpha. No channel exceeds its tint. |
| TextureHelper.ColorizeWhiteAndBlack | src/main/java/aztech/modern_industrialization/materials/textures/TextureHelper.java:33-36 | A white pixel becomes the tint, each colour channel at most one below it. A black pixel becomes black. Alpha is kept in both cases. |
| TextureHelper.Colorize | src/main/java/aztech/modern_industrialization/materials/textures/TextureHelper.java:30-39 | Every pixel of the image is replaced by its colorized value. |
| TextureHelper.Opacity | src/main/java/aztech/modern_industrialization/materials/textures/TextureHelper.java:57-58 | A pixel's alpha as a fraction lies in [0, 1]. |
| TextureHelper.CompositeOpacity | src/main/java/aztech/modern_industrialization/materials/textures/TextureHelper.java:59 | The composite opacity is at least each input opacity and at most 1. It is 0 exactly when both inputs are 0. |
| TextureHelper.WeightedAverage | src/main/java/aztech/modern_industrialization/materials/textures/TextureHelper.java:61 | The alpha-weighted average of two channel values lies between them. |
| TextureHelper.WeightedAverageOneSided | src/main/java/aztech/modern_industrialization/materials/textures/TextureHelper.java:61 | With one weight zero, the average is the other value. |
| TextureHelper.MergeChannel | src/main/java/aztech/modern_industrialization/materials/textures/TextureHelper.java:60-61 | A merged channel lies between the two inputs, or at most one below the smaller. It is 0 when both pixels are fully transparent (the NaN cast). |
| TextureHelper.MergeUnderOpaqueTop | src/main/java/aztech/modern_industrialization/materials/textures/TextureHelper.java:59-61 | Under an opaque top pixel, the merged channel is the top's. |
| TextureHelper.MergeOverTransparentTop | src/main/java/aztech/modern_industrialization/materials/textures/TextureHelper.java:59-61 | Under a transparent top pixel, over a visible source pixel, the merged channel is the source's or one below it. Over an opaque source pixel it is exactly the source's. |
| TextureHelper.Blended | src/main/java/aztech/modern_industrialization/materials/textures/TextureHelper.java:55-63 | Two invisible pixels give 0. The result is at least as opaque as either input. Each colour channel lies between the inputs' or at most one below the smaller, allowing for rounding. |
| TextureHelper.BlendOpaqueTop | src/main/java/aztech/modern_industrialization/materials/textures/TextureHelper.java:55-63 | An opaque top pixel replaces the source pixel. |
| TextureHelper.BlendTransparentTop | src/main/java/aztech/modern_industrialization/materials/textures/TextureHelper.java:55-63 | A transparent top pixel leaves an opaque source pixel unchanged. A partly transparent source pixel keeps its alpha, and each colour channel is kept or loses one unit. Over an invisible source pixel it gives 0. |
| TextureHelper.CompositeEachPixel | src/main/java/aztech/modern_industrialization/materials/textures/TextureHelper.java:53-65 | Every source pixel becomes the composite of its old value and the old top pixel at the same place, even when both images are the same array. |
| TextureHelper.Blend | src/main/java/aztech/modern_industrialization/materials/textures/TextureHelper.java:44-66 | A width mismatch fails first and a height mismatch second; either failure leaves the source unchanged. It succeeds exactly when the sizes match, and then every pixel is blended. When top is a different image from source, top is not modified. |
| TextureHelper.ShiftDown | src/main/java/aztech/modern_industrialization/materials/textures/TextureHelper.java:73-81 | Row y of a column moved down by s is old row y-s when y >= s, else 0. |
| TextureHelper.ShiftUp | src/main/java/aztech/modern_industrialization/materials/textures/TextureHelper.java:86-94 | Row y of a column moved up by s is old row y+s when it exists, else 0. |
| TextureHelper.ShiftUpUndoesShiftDown | src/main/java/aztech/modern_industrialization/materials/textures/TextureHelper.java:72-94 | Shifting up undoes shifting down by the same amount exactly when the last s rows were blank. |
| TextureHelper.ShiftDownUndoesShiftUp | src/main/java/aztech/modern_industrialization/materials/textures/TextureHelper.java:72-94 | Shifting down undoes shifting up by the same amount exactly when the first s rows were blank. |
| TextureHelper.ShiftDownTwice | src/main/java/aztech/modern_industrialization/materials/textures/TextureHelper.java:73-81 | Two downward shifts add up. |
| TextureHelper.ShiftUpTwice | src/main/java/aztech/modern_industrialization/materials/textures/TextureHelper.java:86-94 | Two upward shifts add up. |
| TextureHelper.IngotShift | src/main/java/aztech/modern_industrialization/materials/textures/TextureHelper.java:72 | The shift is the height divided by 8, rounded down. |
| TextureHelper.CopyFrom | src/main/java/aztech/modern_industrialization/materials/textures/TextureHelper.java:70-71 | Every pixel of the destination becomes the source's. The source is unchanged. |
| TextureHelper.ShiftColumnsDown | src/main/java/aztech/modern_industrialization/materials/textures/TextureHelper.java:73-81 | The in-place bottom-up loop leaves every column equal to its old value moved down. |
| TextureHelper.ShiftColumnsUp | src/main/java/aztech/modern_industrialization/materials/textures/TextureHelper.java:85-94 | The in-place top-down loop leaves every column equal to its old value moved up. |
| TextureHelper.DoubleIngot | src/main/java/aztech/modern_industrialization/materials/textures/TextureHelper.java:68-99 | Every pixel becomes the up-shifted copy blended over the down-shifted copy, both shifted by an eighth of the height. |
| PacketBuf.EncodeInt | src/main/java/aztech/modern_industrialization/pipes/fluid/FluidPipeInterface.java:83-84 | An int is written as four bytes whose big-endian value is its bit pattern. |
| PacketBuf.DecodeInt | src/main/java/aztech/modern_industrialization/pipes/fluid/FluidPipeInterface.java:41-42 | Reading an int succeeds exactly when four bytes are available, and gives the int with that big-endian pattern. |
| PacketBuf.IntRoundTrip | src/main/java/aztech/modern_industrialization/pipes/fluid/FluidPipeInterface.java:41-42 | An int written and read back is the same int, whatever follows. |
| PacketBuf.PacketByteBuf.WriteInt | src/main/java/aztech/modern_industrialization/pipes/fluid/FluidPipeInterface.java:83-84 | Appends the int's four bytes and does not move the reader. |
| PacketBuf.PacketByteBuf.ReadInt | src/main/java/aztech/modern_industrialization/pipes/fluid/FluidPipeInterface.java:41-42 | Returns the decoded int and moves the reader past it; with fewer than four bytes it fails and the reader stays. |
| FluidPipeInterface.Encode | src/main/java/aztech/modern_industrialization/pipes/fluid/FluidPipeInterface.java:81-85 | The message is the fluid's bytes followed by two 4-byte ints. |
| FluidPipeInterface.Decode | src/main/java/aztech/modern_industrialization/pipes/fluid/FluidPipeInterface.java:39-42 | Decoding never consumes more bytes than it was given. |
| FluidPipeInterface.DecodeReadsInOrder | src/main/java/aztech/modern_industrialization/pipes/fluid/FluidPipeInterface.java:40-42 | Decoding reads the fluid, then the connection type, then the priority. It fails exactly when one of those reads fails. |
| FluidPipeInterface.RoundTrip | src/main/java/aztech/modern_industrialization/pipes/fluid/FluidPipeInterface.java:39-85 | Decoding an encoded state, whatever follows it, gives back the state and consumes exactly the encoded length. |
| FluidPipeInterface.DecodedInterface.constructor | src/main/java/aztech/modern_industrialization/pipes/fluid/FluidPipeInterface.java:40-43 | A new decoded object holds the three values it was given. |
| FluidPipeInterface.DecodedInterface.GetNetworkFluid | src/main/java/aztech/modern_industrialization/pipes/fluid/FluidPipeInterface.java:44-47 | Returns the stored fluid. |
| FluidPipeInterface.DecodedInterface.SetNetworkFluid | src/main/java/aztech/modern_industrialization/pipes/fluid/FluidPipeInterface.java:49-52 | Replaces the fluid and leaves the other two fields unchanged. |
| FluidPipeInterface.DecodedInterface.GetConnectionType | src/main/java/aztech/modern_industrialization/pipes/fluid/FluidPipeInterface.java:54-57 | Returns the stored connection type. |
| FluidPipeInterface.DecodedInterface.SetConnectionType | src/main/java/aztech/modern_industrialization/pipes/fluid/FluidPipeInterface.java:59-62 | Replaces the connection type and leaves the other two fields unchanged. |
| FluidPipeInterface.DecodedInterface.GetPriority | src/main/java/aztech/modern_industrialization/pipes/fluid/FluidPipeInterface.java:64-67 | Returns the stored priority. |
| FluidPipeInterface.DecodedInterface.SetPriority | src/main/java/aztech/modern_industrialization/pipes/fluid/FluidPipeInterface.java:69-72 | Replaces the priority and leaves the other two fields unchanged. |
| FluidPipeInterface.DecodedInterface.CanUse | src/main/java/aztech/modern_industrialization/pipes/fluid/FluidPipeInterface.java:74-77 | Every player may use a decoded interface. |
| FluidPipeInterface.DecodedInterface.ToBuf | src/main/java/aztech/modern_industrialization/pipes/fluid/FluidPipeInterface.java:81-85 | Appends exactly the encoding of the current state, in the order fluid, type, priority. |
| FluidPipeInterface.OfBuf | src/main/java/aztech/modern_industrialization/pipes/fluid/FluidPipeInterface.java:39-79 | It fails exactly when decoding the unread bytes fails. Otherwise it returns a fresh object holding the decoded state, and the reader moves by the decoded length. |
| FluidPipeInterface.Resend | src/main/java/aztech/modern_industrialization/pipes/fluid/FluidPipeInterface.java:39-85 | A state written with `toBuf` and read back with `ofBuf` arrives unchanged. The buffer is left fully read. |
| RenderHelper.Id | src/main/java/aztech/modern_industrialization/util/RenderHelper.java:67 | Face ids are below 6. |
| RenderHelper.DirectionsById | src/main/java/aztech/modern_industrialization/util/RenderHelper.java:62 | The faces are listed in id order, each once. |
| RenderHelper.OverlayQuad | src/main/java/aztech/modern_industrialization/util/RenderHelper.java:65-77 | Each strip is flush with the face and lies within it. The bottom and top strips span the face and are W high. The left and right strips are W wide and fill the gap between them. |
| RenderHelper.OverlayCoversBorder | src/main/java/aztech/modern_industrialization/util/RenderHelper.java:65-77 | A point of the face is on one of the four strips exactly when it is within W of the face's border. |
| RenderHelper.OverlayStripsDisjoint | src/main/java/aztech/modern_industrialization/util/RenderHelper.java:65-77 | The interiors of two different strips never overlap. |
| RenderHelper.OverlaySlot | src/main/java/aztech/modern_industrialization/util/RenderHelper.java:67-79 | Every overlay slot index is below 24. |
| RenderHelper.OverlaySlotsBijective | src/main/java/aztech/modern_industrialization/util/RenderHelper.java:67-79 | Distinct (face, strip) pairs get distinct slots, and every slot belongs to some pair. |
| RenderHelper.BuildOverlayQuads | src/main/java/aztech/modern_industrialization/util/RenderHelper.java:58-81 | The table has 24 slots, each written exactly once and in order. Slot 4*id+k holds strip k of face id. |
| RenderHelper.CubeQuad | src/main/java/aztech/modern_industrialization/util/RenderHelper.java:98 | The cube quad is flush with its face and covers exactly the whole face. |
| RenderHelper.BuildCubeQuads | src/main/java/aztech/modern_industrialization/util/RenderHelper.java:92-101 | The table has 6 slots, each written exactly once. Slot id holds the full square of that face. |
| RenderHelper.ClampFill | src/main/java/aztech/modern_industrialization/util/RenderHelper.java:114-116 | The clamped fill lies within the tank walls and is unchanged when already inside them. |
| RenderHelper.ClampFillMonotonic | src/main/java/aztech/modern_industrialization/util/RenderHelper.java:114-116 | Clamping preserves the order of fill levels. |
| RenderHelper.FluidHeights | src/main/java/aztech/modern_industrialization/util/RenderHelper.java:114-124 | The bottom is at or below the top, both inside the walls, and the drawn height is the clamped fill minus the wall. A liquid rises from the bottom wall; a gas hangs from the top wall. |
| RenderHelper.IsPointWithinRectangle | src/main/java/aztech/modern_industrialization/util/RenderHelper.java:181-184 | When the int bounds do not overflow, a point passes exactly when it lies in the half-open rectangle grown by one on every side. |
| RenderHelper.WithinEdges | src/main/java/aztech/modern_industrialization/util/RenderHelper.java:181-184 | The grown rectangle's lower corner passes. Its far x and far y edges do not. |
| RenderHelper.RectangleWithin | src/main/java/aztech/modern_industrialization/util/RenderHelper.java:181-184 | Every point of the plain rectangle passes. |
| RenderHelper.OverflowEmptiesTest | src/main/java/aztech/modern_industrialization/util/RenderHelper.java:181-184 | At the top of the int range the right bound wraps around, so no point passes. |

## Left out

- `double` and `float` arithmetic is modelled with exact reals; rounding is not modelled, and NaN and infinite inputs are not modelled (a NaN fill passes `Math.min`/`Math.max` unclamped, and a NaN point coordinate always fails the rectangle test). The NaN of a 0/0 composite is modelled only where it matters: the `(int)` cast of that NaN gives 0.
- ColorizeWhiteAndBlack: allows each colour channel of a colorized white pixel to be one below the tint. In doubles the luminance of white is 0.9999999999999999, so a tint of (200, 100, 50) comes out as (199, 99, 49). The exact-real model would give the tint itself.
- MergeChannel: the lower bound allows one below the smaller input. In doubles, source alpha 0 and top alpha 3 with both values 11 give 10.
- MergeOverTransparentTop: promises the source's value exactly only for an opaque source, and otherwise allows one below it. In doubles, source alpha 3 with value 11 under a transparent top gives 10.
- BlendTransparentTop: promises the unchanged pixel only for an opaque source. For a partly transparent source, alpha is kept exactly but each colour channel may be one below, for the same rounding reason.
- Blended: its colour-channel bounds allow one unit below the smaller input, for the same rounding reason, although the exact-real composite meets them without it. Its alpha bound has no such allowance.
- FluidHeights: `TankW <= bottomHeight` holds of the exact-real model only. In `float` arithmetic a full gas tank gets `bottomHeight = 1 - fl(1 - TANK_W)`, one unit in the last place below `TANK_W`.
- `W` and `TANK_W` are taken at their decimal values, not at their nearest `float` values.
- Pixels.FromArgbReal: requires each colour component in [0, 256), as the comment on the source's `fromArgb` promises. Out-of-range doubles, whose cast would spill into other channels, are not modelled.
- Pixels.FromArgb: requires channel values 0-255. Larger ints, whose shifted bits would overlap in the OR, are not modelled.
- TextureHelper.Colorize: requires the tint components to be channel values 0-255. The source does not check this; it relies on its callers.
- TextureHelper.IngotShift: the 32-bit overflow of `height * 2` is not modelled; image heights are far below 2^30.
- Image allocation and `close` are left out. `copyFrom` is modelled only between images of equal size, which is the only way the code uses it.
- Pixels are the 32-bit pattern of the Java `int`. The signed view, with `a << 24` negative for alpha >= 128, is related to it through `JavaInt.Bits` and `Wrap32`.
- The fluid key's own packet format is abstract. The round trip assumes it reads back what it wrote (`RoundTrips`) and never reads past its input (`Bounded`).
- FluidPipeInterface.OfBuf: a read past the end of the buffer, which throws in the Java code, is modelled as a `None` result. The reader position after such a failure is not specified.
- Only the anonymous object built by `ofBuf` is modelled. Other implementations of the interface, and the screens that use it, are not part of this model.
- The connection type and priority are read and written as arbitrary ints. Nothing in the code restricts them to the small non-negative values the screens use, so the model does not either.
- The drawing calls are left out because they only hand data to the renderer: `drawOverlay`, `drawCube`, the quad emission in `drawFluidInTank`, `drawFluidInGui`, `quadWithAlpha` and `forceChunkRemesh`. Overlay and cube quads are modelled by their `square` coordinates rather than as baked quads.
- The machine block entity (`ElectricMachineBlockEntity.java`) is not part of this model.
