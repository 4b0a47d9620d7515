# RayTracingMinecraft core, modelled in Dafny

A Rust ray tracer renders a small voxel scene of axis-aligned boxes with
textured materials. This project models its core:

- the colour type, with 24-bit hex packing, the saturating `+`, the clamping
  `* f32` and the inherent `add` / `+=`;
- the BMP writer, as a pure producer of bytes;
- the texture grid and its two lookups;
- material diffuse selection;
- the orbit camera and its change flag, including the frame loop's rule that
  renders only after a change;
- the box's slab intersection, normal and UV classification;
- the shading skeleton of `main.rs`: `offset_origin`, `reflect`, `refract`,
  `cast_shadow` and `cast_ray`.

Modules, one per file:

| file | module | source |
|---|---|---|
| `wrappers.dfy` | `Wrappers` | `Option` |
| `numeric.dfy` | `Numeric` | `f32::min`, `max`, `abs`, `clamp` and the saturating `as usize` cast |
| `color.dfy` | `Colors` | `src/color.rs` |
| `vectors.dfy` | `Vectors` | `Vec3` over `real` |
| `rowmajor.dfy` | `RowMajor` | arithmetic of the `y * width + x` layout |
| `bmp.dfy` | `Bmp` | `src/bmp.rs` |
| `texture.dfy` | `Textures` | `src/texture.rs` |
| `material.dfy` | `Materials` | `src/material.rs` |
| `intersect.dfy` | `Intersections` | the `Intersect` record and `Intersect::empty()` |
| `cube.dfy` | `Cubes` | `src/cube.rs` |
| `optics.dfy` | `Optics` | `reflect` and `refract` of `src/main.rs` |
| `shading.dfy` | `Shading` | `offset_origin`, `cast_shadow` and `cast_ray` of `src/main.rs` |
| `boxscene.dfy` | `BoxScenes` | the `&[Cube]` scene that `cast_ray` scans, with `Cube::ray_intersect` |
| `camera.dfy` | `Cameras` | `src/camera.rs` and the frame loop of `src/main.rs` |

Representation choices:

- `f32` is modelled as `real`, and `u8`/`u32` as integer subset types.
- Bit operations are written arithmetically: `>> k` is division by `2^k`,
  `& 0xFF` is `% 0x100`, and an `|` of disjoint fields is their sum.
- Rust's `as usize` of a float saturates at 0 and truncates. Rust's float `%`
  truncates toward zero. Both are written out.
- `normalize`, `magnitude`, `sqrt`, `powf`, `atan2`, `sin` and `cos` are
  never given a meaning. They reach the model as function-typed fields of a
  record (`Shading.Numerics`, `Cameras.Trig`). A lemma that needs one of
  them to behave assumes so in its `requires`, for example an exact square
  root or sin² + cos² = 1.
- `cast_ray` works over an abstract sequence of objects and an abstract
  intersection function (`Shading.Scene`). `BoxScenes.BoxScene` fills that
  function in with `BoxScenes.BoxIntersect`, the total form of
  `Cube::ray_intersect`. `BoxScenes.BoxSceneValid` shows that a scene of boxes
  with usable materials meets `Scene.Valid`.
- `Shading.Scene` also carries a `RefractionRule`. Under `AsWritten`,
  `cast_ray` refracts with `Optics.RefractAsWritten`, which is the program's
  `refract`. `Corrected` is a variant that uses `Optics.Refract` instead (see
  Findings). All the `Shading` lemmas hold under either rule, unless they say
  otherwise.

Two behaviours of the code that a reader might not expect:

- `cast_shadow` returns `1 - min(ratio², 1)` for the first occluder in scan
  order, whatever its material, even a transparent one. It breaks out of the
  loop there, even when a later object is nearer (`Shading.ShadowScan`,
  `Shading.ShadowFollowsScanOrder`).
- `refract` uses the index ratio `eta_t` for a ray entering the surface and
  `1 / eta_t` for one leaving it. `cosi` is minus the clamped dot product, so
  the test `cosi < 0.0` holds only when the ray travels along the outward
  normal, out of the object; that is the branch commented "entering" (see
  Findings).

## Model

| member | source | states |
|---|---|---|
| Numeric.Clamp | src/color.rs:64 | `f32::clamp`: the result lies in [lo, hi], equals x inside the range, and equals the nearer bound outside it |
| Numeric.AsUsize | src/material.rs:53-54 | the float-to-`usize` cast: a non-positive value gives 0, any other value is truncated to the integer below it |
| Colors.New | src/color.rs:14-16 | the colour holds exactly the three given channels |
| Colors.FromHex | src/color.rs:19-24 | blue is the low byte of the hex value |
| Colors.ToHex | src/color.rs:31-33 | the packed value is below 2^24 and its low byte is blue |
| Colors.Black | src/color.rs:26-28 | `black()` satisfies `is_black` |
| Colors.FromHexToHex | src/color.rs:19-33 | unpacking a packed colour gives the colour back |
| Colors.ToHexFromHex | src/color.rs:19-33 | packing an unpacked value gives the value modulo 2^24 (`h & 0xFFFFFF`) |
| Colors.HexChannelPositions | src/color.rs:19-33 | red packs to and unpacks from bits 16..24 (`r·2^16`), green from bits 8..16 (`g·2^8`) |
| Colors.IsBlackIffZeroHex | src/color.rs:31-38 | a colour is black exactly when it packs to 0 |
| Colors.Add | src/color.rs:47-53 | each channel of `+` is the exact sum when it is at most 255 and 255 otherwise, and never falls below either operand |
| Colors.AddCommutative | src/color.rs:47-53 | `a + b == b + a` |
| Colors.AddAssociative | src/color.rs:47-53 | `(a + b) + c == a + (b + c)` for the saturating sum |
| Colors.AddBlackIdentity | src/color.rs:47-53 | black is a left and right identity of `+` |
| Colors.ToByte | src/color.rs:64-66 | the `as u8` of a float channel lies within 1 below `clamp(x, 0, 255)`: the clamped value truncated |
| Colors.Scale | src/color.rs:62-68 | each channel of `c * s` is the truncation of `clamp(ch * s, 0, 255)` |
| Colors.ScaleNonPositiveIsBlack | src/color.rs:62-68 | a scalar `s <= 0` yields black for every colour |
| Colors.ScaleByOne | src/color.rs:62-68 | `c * 1.0 == c` |
| Colors.ScaleAtMostOneDarkens | src/color.rs:62-68 | a scalar in [0, 1] never raises a channel |
| Colors.ScaleBlack | src/color.rs:62-68 | black times any scalar is black |
| Colors.AddInherent | src/color.rs:80-94 | the inherent `add` / `+=` overflows (None) exactly when some channel sum exceeds 255, and is otherwise the exact channel-wise sum |
| Colors.AddWrapping | src/color.rs:80-94 | in a release build each of red, green and blue is the exact sum when it is at most 255, and the sum minus 256 when it overflows |
| Colors.AddInherentAgreesWithAdd | src/color.rs:80-94 | wherever the inherent add is defined, it equals the saturating `+` |
| Colors.AddInherentOverflows | src/color.rs:82 | (200,0,0) add (100,0,0) overflows: a panic in debug, red 44 in release, red 255 under `+` |
| Bmp.LeU32 | src/bmp.rs:49-51 | `to_le_bytes` of a `u32` is 4 bytes long |
| Bmp.DecodeLeU32 | src/bmp.rs:49-51 | the 4 bytes written decode, least significant first, to the value modulo 2^32 |
| Bmp.LeU16 | src/bmp.rs:60-61 | `to_le_bytes` of a `u16` is 2 bytes, which decode least significant first to the value modulo 2^16 |
| Bmp.FileHeader | src/bmp.rs:46-51 | the file header is 14 bytes |
| Bmp.InfoGeometry | src/bmp.rs:54-61 | the first part of the info header is 16 bytes |
| Bmp.InfoSizes | src/bmp.rs:64-71 | the rest of the info header is 24 bytes |
| Bmp.Header | src/bmp.rs:26-73 | the header is exactly 54 bytes and starts with 'B', 'M' |
| Bmp.ParseHeader | src/bmp.rs:26-73 | a reference reader, not part of the program, inverse to the header writer: it accepts exactly the inputs that have at least 54 bytes and begin with "BM" |
| Bmp.ParseFileHeader | src/bmp.rs:32-51 | the file header reads back as file size mod 2^32, reserved 0 and pixel offset 54 |
| Bmp.ParseInfoGeometry | src/bmp.rs:35-61 | the info header reads back as size 40, the width and height mod 2^32, 1 plane and 24 bits per pixel |
| Bmp.ParseInfoSizes | src/bmp.rs:38-71 | compression 0, the image size mod 2^32, zero resolution and zero colour counts |
| Bmp.ParseHeaderOfHeader | src/bmp.rs:26-73 | reading back a written header yields every field of the header |
| Bmp.HeaderRoundTrip | src/bmp.rs:32-56 | below 2^32, width and height round-trip, the image size is `w*h*3`, and the file size is the image size plus 54 |
| Bmp.Bgr | src/bmp.rs:86-90 | each pixel is written as 3 bytes which, read back least significant first, are the pixel's low 24 bits (blue first, red last) |
| Bmp.RowBytes | src/bmp.rs:84-91 | a row of n pixels is 3n bytes |
| Bmp.RowsBytes | src/bmp.rs:83-92 | n rows are 3·width·n bytes |
| Bmp.PixelData | src/bmp.rs:75-94 | `write_pixel_data` writes exactly 3 bytes per pixel, `3·w·h` in all, with no row padding (the contents are stated by Bmp.PixelDataLayout) |
| Bmp.SourceIndex | src/bmp.rs:83-86 | the framebuffer index read for output triple k lies inside the `width*height` buffer |
| Bmp.PixelDataLayout | src/bmp.rs:83-92 | the pixel data is exactly `3*w*h` bytes, with no row padding, and triple k is B, G, R of pixel `(h-1-k/w)*w + k%w` |
| Bmp.BmpFile | src/bmp.rs:8-24 | the file is `54 + 3·w·h` bytes: the header, then the pixel data |
| Bmp.BmpFileSize | src/bmp.rs:8-24 | the file is the 54 header bytes followed by the pixel data, and its size field equals its length |
| Bmp.ParseHeaderPrefix | src/bmp.rs:4-73 | the reference reader of the header writer looks only at the first `BMP_HEADER_SIZE` (54) bytes |
| Bmp.RowBytesAt | src/bmp.rs:84-90 | byte `3x + c` of a row is byte c of B, G, R of pixel x |
| Bmp.RowsBytesAt | src/bmp.rs:83-90 | byte `3k + c` of the rows is byte c of B, G, R of the framebuffer pixel `SourceIndex(k)` |
| Textures.MagentaChannels | src/texture.rs:51 | `from_hex(0xFF00FF)` is (255, 0, 255) |
| Textures.PixelColor | src/texture.rs:33-34 | a texel's channels equal the source pixel's RGB |
| Textures.New | src/texture.rs:15-37 | the grid has `width*height` cells, and looking up any in-range (x, y) gives the colour of image pixel (x, y) |
| Textures.LoadColumn | src/texture.rs:31-36 | loading column x keeps the grid size and extends the loaded columns from x to x + 1 |
| Textures.GetColor | src/texture.rs:49-55 | out of range is the magenta sentinel; in range, the index `y*width+x` is inside the grid and the cell there is returned |
| Textures.GetColorCellsDistinct | src/texture.rs:53 | distinct in-range pixels occupy distinct cells |
| Textures.UvPixel | src/texture.rs:59-64 | after clamping, the pixel coordinates never exceed width and height |
| Textures.UvPixelRange | src/texture.rs:59-64 | the column is in range exactly when u < 1 (after clamping) and width > 0, and the row exactly when v > 0 and height > 0; v ≥ 1 reads row 0 and u ≤ 0 reads column 0 |
| Textures.GetColorUv | src/texture.rs:57-68 | `get_color_uv` returns a cell of the grid or the magenta sentinel, and the sentinel whenever u ≥ 1 or v ≤ 0 |
| Textures.GetColorUvEdgesAreSentinel | src/texture.rs:57-67 | any u ≥ 1 or v ≤ 0 returns the magenta sentinel |
| Textures.GetColorUvEdgeCounterexample | src/texture.rs:63-67 | on a 1x1 black texture, u = 1 returns magenta rather than the only texel |
| Textures.GetColorUvClamped | src/texture.rs:57-68 | the corrected lookup always returns one of the texture's cells |
| Textures.GetColorUvClampedEdges | src/texture.rs:57-68 | the corrected lookup reads the corner texels at the corners of [0,1]², and never yields magenta unless the texture holds it |
| Materials.New | src/material.rs:18-32 | the given fields, no texture flag and no texture |
| Materials.NewWithTexture | src/material.rs:34-48 | white diffuse, texture flag set, `Some(texture)` and the given fields |
| Materials.Black | src/material.rs:61-70 | black diffuse, zero specular, zero albedo, index 0 and no texture |
| Materials.GetDiffuseColor | src/material.rs:50-59 | without the flag or without a texture, the flat diffuse colour is returned |
| Materials.TexelCoords | src/material.rs:53-54 | for u (v) in [0, 1] and a non-empty texture, the column (row) read is at most width-1 (height-1) |
| Materials.NewIgnoresUv | src/material.rs:50-59 | a material from `new` shows its diffuse colour at every (u, v) |
| Materials.BlackIsBlackEverywhere | src/material.rs:61-70 | the black material is black at every (u, v) |
| Materials.TexelCoordsLowEdges | src/material.rs:53-54 | u ≤ 0 or width 1 reads column 0, and v ≥ 1 or height 1 reads row 0 |
| Materials.TexelCoordsInRange | src/material.rs:53-55 | for u, v in [0, 1], x ≤ width-1 and y ≤ height-1 |
| Materials.TexturedReadsCell | src/material.rs:50-56 | a textured material with u, v in [0, 1] returns a cell of the grid, never the sentinel |
| Materials.TexelCoordsCorners | src/material.rs:53-54 | v = 1 maps to row 0 and v = 0 to row height-1; u = 0 and u = 1 map to the first and last columns |
| Intersections.Empty | src/main.rs:153 | the empty intersection is not intersecting and its material is well formed |
| Cubes.FirstMatch | src/cube.rs:13-31 | the face chosen is the first in the test order whose plane is within 1e-4 of the point |
| Cubes.CalculateNormal | src/cube.rs:13-31 | the normal belongs to the first face matched in the order -x, +x, -y, +y, -z (default +z) and is an axis unit vector |
| Cubes.GetUv | src/cube.rs:33-65 | the UV comes from the first face matched in the order +y, -y, -x, +x, -z (default back) |
| Cubes.FractionInUnit | src/cube.rs:36-37 | a coordinate between the bounds maps to [0, 1], whichever bound is larger |
| Cubes.GetUvInUnit | src/cube.rs:36-62 | for a point inside a non-degenerate box, both u and v lie in [0, 1] |
| Cubes.NormalAndUvFacesDiffer | src/cube.rs:13-39 | at an edge point the normal test picks -x while the UV test picks +y |
| Cubes.Position | src/cube.rs:67-69 | the position is equidistant from min and max, and lies in the box |
| Cubes.Sorted | src/cube.rs:79-81 | the swap orders the pair, and the result is the pair itself or the pair swapped |
| Cubes.Slab | src/cube.rs:76-81 | each slab interval has entry ≤ exit |
| Cubes.SlabContains | src/cube.rs:76-88 | the ray point at t lies between an axis's bounds exactly when t lies in that axis's slab |
| Cubes.RayIntersect | src/cube.rs:75-130 | every miss is `Intersect::empty()`; a hit lies at origin + dir·distance and carries the box material, `calculate_normal` and `get_uv` |
| Cubes.InBoxBetweenEntryExit | src/cube.rs:76-109 | the ray point at t is in the box exactly when t lies between the largest entry and the smallest exit |
| Cubes.RayIntersectInterval | src/cube.rs:90-115 | a hit happens exactly when entry ≤ exit and exit ≥ 0, and its distance is the entry |
| Cubes.RayIntersectHitsIffReachable | src/cube.rs:90-113 | a hit is reported exactly when some point of the forward ray (t ≥ 0) lies in the box |
| Cubes.RayIntersectNearest | src/cube.rs:108-123 | the reported point lies in the box, and no point of the line in the box has a smaller t |
| Cubes.RayIntersectFromInside | src/cube.rs:111-123 | from inside the unit box the hit has negative distance -0.5, behind the origin |
| Cubes.RayIntersectSwapY | src/cube.rs:83-88 | swapping a box's y bounds (as the scene's boxes do) changes neither the hit nor its distance and point |
| Optics.Reflect | src/main.rs:87-89 | `reflect` keeps the cross product with the normal, and about a unit normal reverses the component along it |
| Optics.ReflectKeepsTangent | src/main.rs:87-89 | reflection keeps the component across the normal (`r × n == i × n`) |
| Optics.ReflectFlipsNormalComponent | src/main.rs:87-89 | for a unit normal, `reflect(i, n)·n == -(i·n)` |
| Optics.ReflectInvolution | src/main.rs:87-89 | reflecting twice about a unit normal gives i back |
| Optics.ReflectPreservesLength | src/main.rs:87-89 | reflection about a unit normal preserves length |
| Optics.UnitCosineBound | src/main.rs:92 | the dot of two unit vectors lies in [-1, 1], so the clamp has no effect on unit inputs |
| Optics.OrientAsWritten | src/main.rs:92-106 | the code's orientation always yields a non-negative cosine |
| Optics.Orient | src/main.rs:94-106 | the corrected orientation yields a non-negative cosine |
| Optics.OrientSwapsEta | src/main.rs:96-106 | the code and the correction agree on cosine and normal, and their index ratios are reciprocal |
| Optics.OrientedCosine | src/main.rs:92-106 | for unit vectors, the incident ray's dot with the oriented normal is minus the oriented cosine, which is at most 1 |
| Optics.BendSnell | src/main.rs:114 | the bent ray's tangential part is eta times the incident one's (Snell's law) |
| Optics.RefractOriented | src/main.rs:108-115 | the shared tail of `refract`: the outgoing ray's cross product with the oriented normal is the incident one's under total reflection (k < 0), and eta times it otherwise |
| Optics.RefractAsWritten | src/main.rs:91-116 | the program's `refract` obeys that law with the orientation and index ratio the code computes (`OrientAsWritten`) |
| Optics.Refract | src/main.rs:91-116 | the corrected `refract` obeys it with the corrected ratio (`Orient`) |
| Optics.RefractAsWrittenUnit | src/main.rs:91-116 | with an exact square root, the program's `refract` of a unit ray about a unit normal is a unit ray |
| Optics.RefractUnit | src/main.rs:91-116 | the same for the corrected refraction |
| Optics.RefractOrientedUnit | src/main.rs:108-115 | the shared tail (reflect when k < 0, bend otherwise) keeps a unit ray unit, for any orientation whose cosine matches the ray |
| Optics.BendUnit | src/main.rs:108-115 | with k ≥ 0 and an exact square root, the bent ray is unit |
| Optics.RefractAsWrittenBranchBySide | src/main.rs:91-115 | the program's `refract` leaves on the incident side of its oriented normal exactly when its k < 0 (total internal reflection) |
| Optics.RefractBranchBySide | src/main.rs:91-115 | the same for the corrected refraction |
| Optics.RefractOrientedBranchBySide | src/main.rs:108-115 | the shared tail leaves on the incident side of the oriented normal exactly when k < 0 |
| Optics.ReflectSide | src/main.rs:110-112 | the total-reflection branch leaves on the incident side |
| Optics.BendSide | src/main.rs:113-115 | with k > 0, the bent ray crosses the surface |
| Optics.NoTotalReflectionOnEntry | src/main.rs:96-108 | with the corrected ratio, a ray entering a denser medium (index ≥ 1) never has k < 0 |
| Optics.SteepRayGeometry | src/main.rs:92 | the example ray and normal are unit, the ray travels against the normal, and the negated clamped cosine is 0.6 |
| Optics.SteepRayEntering | src/main.rs:92-108 | on that ray into glass (1.5), the code's k is negative and the corrected k is not |
| Optics.RefractAsWrittenReflectsOnEntry | src/main.rs:91-116 | the code reflects that entering ray instead of transmitting it |
| Optics.RefractBendsOnEntry | src/main.rs:91-116 | the corrected refraction bends that ray |
| Optics.NormalIncidencePassesThrough | src/main.rs:91-116 | with the program's orientation and with the corrected one, a ray along either normal direction passes straight through |
| Optics.HeadOnBend | src/main.rs:113-115 | at cosine 1 the bend returns the incident ray, whatever the index ratio |
| Shading.OffsetOrigin | src/main.rs:78-85 | the origin moves by ∓1e-4 along the normal, toward the side `dir` points to, so the displacement has a non-negative component along `dir` |
| Shading.Hits | src/main.rs:156-157 | one intersection result per object, in scan order |
| Shading.Nearest | src/main.rs:153-162 | None exactly when nothing intersects; otherwise an intersecting hit of minimal distance, strictly nearer than every earlier hit (ties keep the first) |
| Shading.NearestHit | src/main.rs:153-167 | the chosen hit intersects exactly when some object does |
| Shading.NearestHitWellFormed | src/main.rs:153-162 | in a valid scene the chosen hit (or the empty record) has a well-formed material |
| Shading.FirstOccluder | src/main.rs:129-135 | the first object in scan order that hits closer than the light, or None when no object does |
| Shading.Falloff | src/main.rs:131-133 | the intensity `1 - min(ratio², 1)` lies in [0, 1] |
| Shading.ShadowScan | src/main.rs:127-138 | the intensity lies in [0, 1], and is 0 when nothing occludes |
| Shading.ShadowScanStopsAtFirst | src/main.rs:129-135 | once an occluder is found, objects after it do not change the shadow |
| Shading.ShadowFollowsScanOrder | src/main.rs:129-135 | a far occluder listed first decides the shadow, though the nearest-hit scan would pick the nearer one |
| Shading.CastShadow | src/main.rs:118-139 | the shadow intensity lies in [0, 1] |
| Shading.DirectLight | src/main.rs:169-181 | the diffuse plus specular light is black when the point is fully shadowed or the light has no positive intensity, and when the material has no diffuse or specular weight |
| Shading.ReflectedRay | src/main.rs:186-187 | the mirror ray's origin is moved off the hit point toward the side its direction points to: the offset has a non-negative component along the direction |
| Shading.RefractedRay | src/main.rs:195-196 | the transmitted ray starts off the surface on the side it heads to, and obeys Snell's law with the scene's orientation rule (the program's under `AsWritten`) |
| Shading.Composite | src/main.rs:200 | the weighting returns the direct light when both weights are 0, and is never darker in any channel than any one of its three weighted terms |
| Shading.CompositeOfPlainMaterial | src/main.rs:200 | with zero reflectivity and transparency, the final weighting returns the direct light unchanged |
| Shading.CastRay | src/main.rs:141-201 | depth > 3 returns the sky colour; so does a ray no object intersects; the recursion terminates with measure 4 - depth; the refracted ray follows the scene's rule, `AsWritten` being the program |
| Shading.OpaqueSurfaceComposite | src/main.rs:183-200 | with reflectivity and transparency ≤ 0, both recursive terms stay black |
| Shading.OpaqueSurfaceDoesNotRecurse | src/main.rs:183-200 | with reflectivity and transparency ≤ 0, the result is the weighted direct light, with no recursive call |
| Shading.OpaqueSurfaceIgnoresDepth | src/main.rs:149-200 | such a surface looks the same at every depth up to the cap |
| Shading.MirrorShowsReflection | src/main.rs:183-200 | a perfect mirror shows exactly what its reflected ray sees one level deeper |
| Shading.MirrorAtLastLevelShowsSky | src/main.rs:149-189 | a mirror met at depth 3 shows the sky colour |
| Shading.GlassShowsRefraction | src/main.rs:192-200 | a fully transparent surface shows exactly what its refracted ray sees one level deeper |
| Shading.GlassEntryDirection | src/main.rs:91-116 | on the steep example ray entering glass (1.5), the program's `cast_ray` sends the refracted ray along the mirror reflection, back above the surface; the corrected rule bends it |
| BoxScenes.BoxIntersect | src/cube.rs:75-130 | agrees with `ray_intersect` on the rays and boxes it models; a miss is the empty record; a hit carries the box material and lies on the ray |
| BoxScenes.BoxScene | src/main.rs:141-160 | the scene's objects are the boxes in the given order, and it intersects each with `BoxIntersect` |
| BoxScenes.BoxSceneValid | src/main.rs:144-157 | boxes whose materials are consistent, with a non-zero index when transparent, make a valid scene |
| BoxScenes.BoxSceneInvalid | src/main.rs:144-157 | a box with an unusable material that some ray hits makes the scene invalid |
| Cameras.New | src/camera.rs:15-25 | the given fields, flagged as changed |
| Cameras.Apply | src/main.rs:424-444 | one key step (an `Input`: an orbit or a zoom) moves only the eye and sets the flag |
| Cameras.IsChanged | src/camera.rs:62-68 | returns the prior flag, leaves it false and changes no other field |
| Cameras.IsChangedIsEdgeTriggered | src/camera.rs:62-68 | a second poll without a mutation between reports false and changes nothing |
| Cameras.FRem | src/camera.rs:49 | float `%` by a positive m lies in (-m, m), keeps the sign of the dividend, and differs from it by a truncated multiple of m |
| Cameras.OrbitAngles | src/camera.rs:41-50 | the new yaw is the old yaw plus the step, reduced into (-2π, 2π); the new pitch lies in [-π/2+0.1, π/2-0.1] and is the old pitch plus the step when that is in range, else the nearer bound |
| Cameras.Orbit | src/camera.rs:40-60 | orbit sets the flag and changes no field but `eye` |
| Cameras.OrbitKeepsRadius | src/camera.rs:41-56 | where sin² + cos² = 1, the new eye is at the old radius from the center |
| Cameras.Zoom | src/camera.rs:70-74 | zoom sets the flag and changes no field but `eye` |
| Cameras.ZoomAlongSight | src/camera.rs:70-73 | with an exact `normalize`, zoom keeps the eye on its line of sight and changes its distance to the center from d to abs(d - amount) |
| Cameras.ApplyAll | src/main.rs:424-444 | after a frame's key steps, the flag is set exactly when it was set before or some key was pressed |
| Cameras.Frame | src/main.rs:446-449 | after a frame's poll, the flag is clear |
| Cameras.Renders | src/main.rs:418-449 | one decision per frame; the first frame renders exactly when it has a key or the camera starts flagged |
| Cameras.RendersExactlyOnChange | src/main.rs:418-449 | a frame renders exactly when one of its keys moved the camera, or when it is the first frame of a newly constructed camera |

## Left out

- File output, the window, key polling and sleeping are left out. The model produces the BMP bytes; `write_bmp_file`'s `File`/`BufWriter` handling is not modelled. The frame loop is modelled as a sequence of frames, each a list of key steps.
- `main`'s scene literal, `render`'s per-pixel camera mapping (`tan`, `normalize`), the `Framebuffer`, and the `Lazy`/`Arc` statics that load textures from files: these are I/O and data, not logic.
- `Texture::new`'s image decoding is a call into the `image` crate. The decoded image is an input: its dimensions and a pixel accessor.
- `Camera::basis_change` is floating-point geometry, and `sphere.rs` is not compiled into the program.
- `Display` formatting of colours.
- `ray_intersect.rs` is not part of this model. `Intersect` is reconstructed from its use in `src/cube.rs`. `Intersect::empty()` is known only to be non-intersecting, so its other fields are placeholders.
- f32 rounding, NaN and infinities are not modelled: every float is an exact real.
- Cubes.RayIntersect: requires every component of the ray direction to be non-zero (`AxisFree`) and the box to be non-degenerate. In Rust a zero component divides by zero and gives infinite or NaN slabs, which the model does not follow.
- Cubes.GetUv: requires a non-degenerate box. On a flat box the Rust division gives NaN or infinity.
- Shading.CastRay: requires every hit with positive transparency to have a non-zero refractive index (`Scene.Valid`). In Rust an index of 0 makes `1.0 / eta_t` infinite.
- Optics.Refract: requires `eta_t != 0` for the same reason.
- Shading.CastShadow: `normalize` and `magnitude` are uninterpreted, so only the [0, 1] bound of the shadow intensity is stated, not its value.
- Shading.DirectLight: `normalize`, `powf` and `sqrt` are uninterpreted, so the contract states when the direct light is black, not its exact colour. The shading contracts speak of structure (which branch, which ray, which weighting) rather than of exact colours.
- Cameras.Orbit: `atan2`, `sin`, `cos`, `sqrt` and `magnitude` are uninterpreted. The radius is shown to be preserved only under the sin² + cos² = 1 hypothesis of Cameras.OrbitKeepsRadius.
- Cameras.Zoom: `normalize` is uninterpreted. The distance claim of Cameras.ZoomAlongSight assumes that it divides by the exact length.
- Textures.New: the `usize` overflow of `width * height` is not modelled; sizes are unbounded naturals.
- Numeric.AsUsize: the cast's upper saturation at `usize::MAX` is not modelled.
- Bmp.Header: the `usize` product `width * height * 3` (src/bmp.rs:32, 39) panics on overflow in a debug build. Sizes are unbounded naturals here, and only the later `as u32` truncation is modelled.
- Bmp.ParseHeader and Bmp.ParseHeaderPrefix: the program has no reader. These define the reader inverse to the writer, so that the header's fields can be stated as a round trip.
- BoxScenes.BoxIntersect: a ray with a zero direction component, or a flat box, reports no hit. The Rust division gives infinite or NaN slabs there, which the model does not follow.
- Bmp.PixelData: requires at least `width * height` pixels in the buffer. A shorter buffer makes the Rust indexing panic.

## Findings

| source | as written | input that shows it | evidently intended | confidence | as-written member | corrected member |
|---|---|---|---|---|---|---|
| src/color.rs:80-94 | `(self.r + other.r).min(255)` adds in `u8` before taking the minimum, so the minimum never takes effect and a sum above 255 overflows (a panic in debug, wrap-around in release) | `c += Color::new(100,0,0)` with `c = Color::new(200,0,0)`, or `Color::add(&c, Color::new(100,0,0))` (the method-call form `c.add(…)` reaches the `Add` trait's saturating `add` instead) | a channel-wise sum capped at 255, as the `+` operator computes it (Colors.AddInherentAgreesWithAdd) | not executed | Colors.AddInherentOverflows | Colors.Add |
| src/texture.rs:57-68 | `x = (u * width) as usize` after clamping u to [0, 1], so u = 1 gives x = width; likewise v = 0 gives y = height | a 1x1 texture looked up at u = 1.0, v = 0.5 returns magenta | the edge texel, as the clamp's comment promises (Textures.GetColorUvClampedEdges) | not executed | Textures.GetColorUvEdgeCounterexample | Textures.GetColorUvClamped |
| src/main.rs:91-106 | `cosi = -incident.dot(normal).max(-1.0).min(1.0)` is positive for a ray travelling against the outward normal, into the object, yet the test `cosi < 0.0` picks the branch commented "entering" (`eta = 1/eta_t`) only for a negative `cosi`, a ray leaving along the normal. So an entering ray takes the branch commented "leaving" and uses `eta = eta_t` | ray (0.8, -0.6, 0) against normal (0, 1, 0) with `eta_t` 1.5: k = 1 - 2.25·0.64 < 0, so it is reflected | `eta = 1/eta_t` on entry, as the "entering" comment says; a ray entering a denser medium never totally reflects (Optics.NoTotalReflectionOnEntry) | not executed | Optics.RefractAsWrittenReflectsOnEntry | Optics.Orient |

How the two halves of each row are used in the rest of the model:

- `Optics.Refract`, built on `Optics.Orient`, is what `Shading.CastRay` uses under the `Corrected` rule. The program is the `AsWritten` rule, so the shading lemmas that are not about refraction hold for both, and `Shading.GlassEntryDirection` shows where they differ.
- `Shading.DirectLight` and `Shading.Composite` use `Colors.Add`, because `cast_ray` uses the `+` operator, not the inherent `add`.
- `Materials.GetDiffuseColor` reads the texture through the material's own index arithmetic (src/material.rs:50-59), not through `Texture::get_color_uv`.
- `Optics.RefractAsWritten`, `Colors.AddInherent` and `Textures.GetColorUv` model the code as written.
