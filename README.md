# A verified model of the qt-raytracer core

This project models the exact, statable logic of the Qt path tracer `qt-raytracer` in
Dafny and proves what that logic promises. The surrounding floating-point shading, the
GPU back ends and the Qt plumbing are outside the model.

- **Geometry and data structures** (`include/raytracer/RayTracer.h`):
  - vector operations, `clamp`, `reflect` and `Ray::at`;
  - `set_face_normal`, `Sphere::hit` and `Sphere::bounding_box`;
  - `surrounding_box` and the AABB slab test;
  - `HitableList` with its closest-hit loop and its bounding-box fold;
  - the recursive `BVHNode` builder, which sorts a sub-range of an array in place, and `BVHNode::hit`;
  - the `scatter` rules of the three materials;
  - the random-number pipeline: `splitmix64`, `init_thread_rng_state`, `xorshift64star`, `random_double` and the rejection samplers.
- **Tiled CPU rendering and the display side**:
  - the scene-graph item `RayTracerFboItem` (`RayTracerFboItem.cpp`): its worker's tile grid, tile buffers, pixel packing and progress; the validated copy of a finished tile into the image; the pending-upload queue; the tile-size and upload heuristics; the clamping setters and the start/stop/finish state;
  - the legacy widget (`src/legacy/RenderWidget.cpp`), which reports one scanline at a time and throttles repaints.
- **The SPIR-V header script** (`scripts/spv_to_header.py`): the bytes are read as
  little-endian 32-bit words, a ragged length is rejected, and the header is written with
  eight-digit hexadecimal literals.
- **Graphics-API names** (`main.cpp`):
  - `parseGraphicsApi` and `graphicsApiToString`;
  - the normalising `GraphicsBackendController`.

How the modelling is set up:

- A `double` is a Dafny `real`.
- `std::sqrt` is a parameter `sqrt` with the property `IsSqrt`: for `x >= 0`, `sqrt(x) >= 0` and `sqrt(x) * sqrt(x) == x`.
- The 64-bit generator works on `bv64`, so its wrap-around arithmetic is exact.
- Pixels are `bv32` words.
- A `QImage` is an `array<bv32>` in row-major order with its width and height.
- The worker threads are replaced by one sequential worker. A function `stopped: nat -> bool` says whether the stop flag is seen before each tile claim.
- The colour of each pixel comes from a parameter `shade: Shader`. Camera rays, `ray_color` and sampling stay inside that parameter.

Modules, one file each:

| module | file | what it holds |
|---|---|---|
| `Wrappers` | `wrappers.dfy` | `Option` and `Result` |
| `Vec3Math` | `vec3.dfy` | vectors, rays, `clamp`, `reflect` |
| `Rng` | `rng.dfy` | splitmix64, seeds, xorshift64*, samplers |
| `Boxes` | `aabb.dfy` | boxes, their union, the slab test |
| `Shapes` | `shapes.dfy` | spheres, hit records, face normals |
| `HitableLists` | `hitable_list.dfy` | the object list |
| `Bvh` | `bvh.dfy` | BVH construction and traversal |
| `Materials` | `materials.dfy` | scatter rules |
| `Text` | `text.dfy` | `trimmed().toLower()` |
| `GraphicsApis` | `graphics_api.dfy` | API names and the backend controller |
| `SpvHeader` | `spv_header.dfy` | the header script |
| `Tiles` | `tiles.dfy` | tile-grid arithmetic and progress |
| `Pixels` | `pixels.dfy` | ARGB packing |
| `Images` | `images.dfy` | scanline copies into an image |
| `RenderWorkers` | `render_worker.dfy` | the item's CPU worker |
| `FboItems` | `fbo_item.dfy` | `RayTracerFboItem` |
| `LegacyWidgets` | `legacy_widget.dfy` | the legacy worker and widget |

## Model

| member | source | states |
|---|---|---|
| Vec3Math.Clamp | include/raytracer/RayTracer.h:57-61 | the result lies in `[min, max]`, is `x` when `x` is inside, `min` below and `max` above |
| Vec3Math.CrossOrthogonal | include/raytracer/RayTracer.h:141-149 | `dot` is symmetric and `cross(u, v)` is orthogonal to both `u` and `v` |
| Vec3Math.UnitVectorIsUnit | include/raytracer/RayTracer.h:151-153 | for a non-zero vector, `unit_vector` has length 1 and scaling it by the length gives the vector back |
| Vec3Math.ReflectProperties | include/raytracer/RayTracer.h:175-177 | for a unit normal, `reflect` negates the normal component, keeps the length and is its own inverse |
| Vec3Math.AtAdditive | include/raytracer/RayTracer.h:196-198 | `r.at(0)` is the origin, and `r.at(s + t)` is `r.at(s)` moved by `t` directions |
| Rng.SplitMixRoundTrip | include/raytracer/RayTracer.h:25-30 | `splitmix64` has an explicit inverse, so no output is lost |
| Rng.SplitMixInjective | include/raytracer/RayTracer.h:25-30 | distinct inputs give distinct `splitmix64` outputs |
| Rng.SeedFrom | include/raytracer/RayTracer.h:34-37 | the derived seed is never 0, and it is the mixed value whenever that value is non-zero |
| Rng.SeedsDistinct | include/raytracer/RayTracer.h:32-38 | two counter values give two different seeds unless a mixed value hits the zero replacement |
| Rng.SeedCounter.constructor | include/raytracer/RayTracer.h:33 | the counter starts at 0x123456789abcdef0 |
| Rng.SeedCounter.InitThreadRngState | include/raytracer/RayTracer.h:32-38 | the counter advances by 0x9e3779b97f4a7c15 and the returned seed is the non-zero seed of the old counter value |
| Rng.XorShiftRoundTrip | include/raytracer/RayTracer.h:40-43 | the three xor-shift steps on the state have an explicit inverse, and a non-zero state stays non-zero |
| Rng.XorShiftKeepsNonZero | include/raytracer/RayTracer.h:40-43 | a non-zero generator state never becomes zero |
| Rng.RandomSource.constructor | include/raytracer/RayTracer.h:48 | the generator starts from a non-zero seed |
| Rng.RandomSource.NextU64 | include/raytracer/RayTracer.h:40-45 | the state advances by the xor-shift steps in place; the result is the new state times 0x2545F4914F6CDD1D |
| Rng.Top53 | include/raytracer/RayTracer.h:50 | `r >> 11` is below 2^53 |
| Rng.RandomDouble | include/raytracer/RayTracer.h:47-51 | `random_double` lies in `[0, 1)` and is exactly `(r >> 11) * 2^-53` |
| Rng.RandomSource.NextDouble | include/raytracer/RayTracer.h:47-51 | draws one generator value and maps it into `[0, 1)` |
| Rng.Lerp | include/raytracer/RayTracer.h:53-55 | `min + (max - min) * u` lies in `[min, max)` for `min < max` |
| Rng.RandomDoubleIn | include/raytracer/RayTracer.h:53-55 | `random_double(min, max)` lies in `[min, max)` for `min < max` and is `min` when they are equal |
| Rng.RandomSource.NextDoubleIn | include/raytracer/RayTracer.h:53-55 | one draw, mapped into `[min, max)` |
| Rng.RandomSource.NextVec3In | include/raytracer/RayTracer.h:104-106 | three successive draws give x, y and z, each in `[min, max)` |
| Rng.RandomSource.RandomInUnitSphere | include/raytracer/RayTracer.h:155-161 | a returned point lies in the cube `[-1, 1)^3` with squared length below 1. It is the first candidate `Vec3::random(-1, 1)` draws from the old state that is not rejected, and the state is the one just after that draw. `None` means all `maxTries` candidates were rejected, with the state after all of them |
| Rng.RandomSource.RandomInUnitDisk | include/raytracer/RayTracer.h:163-169 | a returned point has z = 0, x and y in `[-1, 1)` and squared length below 1. It is the first candidate of two draws (x, then y) that is not rejected, and the state is the one just after it. `None` means all `maxTries` candidates were rejected, with the state after all of them |
| Rng.BallOutcomeDetermined | include/raytracer/RayTracer.h:155-161 | at most one candidate is the first accepted one, and none is when all of the first `n` are rejected, so the sphere sampler's result is determined by the starting state |
| Rng.DiskOutcomeDetermined | include/raytracer/RayTracer.h:163-169 | the same uniqueness for the disk sampler's candidates |
| Rng.RandomSource.RandomUnitVector | include/raytracer/RayTracer.h:171-173 | a returned vector has length exactly 1 and is the `unit_vector` of the first accepted sphere candidate, with the state just after it. `None` means the candidates all were rejected or the accepted one was zero |
| Shapes.SetFaceNormal | include/raytracer/RayTracer.h:215-218 | `front_face` holds iff the ray runs against the outward normal; the stored normal is the outward normal or its negation, faces the ray and keeps its length |
| Shapes.OnSphereIffQuadratic | include/raytracer/RayTracer.h:290-294 | `r.at(t)` lies on the sphere iff `t` is a root of `a t^2 + 2 half_b t + c` |
| Shapes.RootsOnSphere | include/raytracer/RayTracer.h:290-305 | a negative discriminant means no intersection; otherwise the near root is at most the far root, and they are exactly the two intersection parameters |
| Shapes.SphereHitSound | include/raytracer/RayTracer.h:289-314 | a reported hit lies on the sphere within `[t_min, t_max]`; its point is `r.at(t)`, its material the sphere's, and its normal a unit vector facing the ray |
| Shapes.SphereHitNearest | include/raytracer/RayTracer.h:296-305 | whenever some intersection lies in range, a hit is reported, and its `t` is at most that intersection's |
| Shapes.BoxesOf | include/raytracer/RayTracer.h:316-322 | each sphere's entry is its `bounding_box` |
| Shapes.SphereBoxEnclosesBall | include/raytracer/RayTracer.h:316-322 | the sphere's box is centred on the sphere with side `2 * radius` and contains every point of the ball |
| Boxes.SurroundingBox | include/raytracer/RayTracer.h:251-265 | the result encloses both boxes, and each of its faces is a face of one of them |
| Boxes.SurroundingBoxIsLeast | include/raytracer/RayTracer.h:251-265 | every box that encloses both inputs encloses their surrounding box |
| Boxes.SurroundingBoxAlgebra | include/raytracer/RayTracer.h:251-265 | `surrounding_box` is commutative and idempotent, and absorbs an enclosed box |
| Boxes.UnionUnique | include/raytracer/RayTracer.h:251-265 | a collection of boxes has at most one union |
| Boxes.UnionOfConcat | include/raytracer/RayTracer.h:251-265 | the surrounding box of two unions is the union of the concatenated collections |
| Boxes.UnionBoxIsUnion | include/raytracer/RayTracer.h:355-372 | folding `surrounding_box` from the first box computes the union of the collection |
| Boxes.UnionBoxOfSameElements | include/raytracer/RayTracer.h:413-418 | the fold depends only on which boxes occur, not on their order |
| Boxes.UnionBoxConcat | include/raytracer/RayTracer.h:417-428 | the fold over two consecutive ranges is the surrounding box of the two folds |
| Boxes.Hit | include/raytracer/RayTracer.h:229-244 | the axis loop of `AABB::hit` computes the slab test, including rays with a zero direction component |
| Boxes.SlabStepMeaning | include/raytracer/RayTracer.h:231-241 | one axis step keeps exactly the parameters of the window at which the ray is inside that slab, and rejects only when none remain |
| Boxes.BoxHitIffInside | include/raytracer/RayTracer.h:229-244 | `AABB::hit` holds iff the ray is inside the box at some parameter strictly between `t_min` and `t_max` |
| Boxes.BoxHitClosedRange | include/raytracer/RayTracer.h:229-244 | when `t_min < t_max`, `AABB::hit` accepts a ray that is strictly inside the box at any parameter of the closed range `[t_min, t_max]`, ends included |
| Boxes.StrictlyContainedIsInside | include/raytracer/RayTracer.h:229-244 | a point strictly inside the box counts as inside for the slab test |
| HitableLists.HitableList.constructor | include/raytracer/RayTracer.h:326 | a new list is empty |
| HitableLists.HitableList.Single | include/raytracer/RayTracer.h:327 | the one-object constructor holds exactly that object |
| HitableLists.HitableList.Clear | include/raytracer/RayTracer.h:329 | `clear` empties the list |
| HitableLists.HitableList.Add | include/raytracer/RayTracer.h:330 | `add` appends the object at the end |
| HitableLists.HitableList.Hit | include/raytracer/RayTracer.h:339-353 | the loop reports no hit iff no object meets the ray within range; otherwise the record is an object's record at the least such `t` |
| HitableLists.NextChild | include/raytracer/RayTracer.h:344-350 | searching one more object with the bound shrunk to the nearest hit so far keeps the nearest hit among the objects searched |
| HitableLists.SurroundChildren | include/raytracer/RayTracer.h:355-372 | the fold gives no box iff the list is empty or some child has none, and otherwise the union of all child boxes |
| HitableLists.HitableList.BoundingBox | include/raytracer/RayTracer.h:355-372 | a list of spheres has a box iff it is non-empty, and it is the union of the spheres' boxes |
| Bvh.AxisOf | include/raytracer/RayTracer.h:394 | `int(3 * u)` for `u` in `[0, 1)` is an axis 0, 1 or 2 |
| Bvh.BoxCompare | include/raytracer/RayTracer.h:446-453 | `box_compare` orders two spheres by `center - radius` on the axis |
| Bvh.SortRange | include/raytracer/RayTracer.h:413-414 | the sort leaves `[start, end)` ordered by the comparator's key and a permutation of what it was, and nothing outside the range changes |
| Bvh.InsertDown | include/raytracer/RayTracer.h:413-414 | inserting one element extends the sorted prefix of the range and only permutes the range |
| Bvh.Build | include/raytracer/RayTracer.h:393-429 | the constructor fails iff the range is empty; it only permutes `[start, end)`; the node holds exactly the range's objects with the union of their boxes, for any drawn axis; for one object, both children are that object; for two, they are ordered by the comparator; otherwise the halves of the sorted range go to the children |
| Bvh.BuildHalves | include/raytracer/RayTracer.h:412-419 | the sorted range is split at `start + span / 2`, and each child spans its half |
| Bvh.SpansOne | include/raytracer/RayTracer.h:402-403 | a node with the same sphere as both children spans that sphere, and its box is the sphere's box |
| Bvh.SpansTwo | include/raytracer/RayTracer.h:404-411 | a node over two spheres in either order spans both |
| Bvh.SpansJoin | include/raytracer/RayTracer.h:417-428 | two nodes over consecutive ranges make a node over their concatenation |
| Bvh.SpansPermutation | include/raytracer/RayTracer.h:413-418 | what a node spans depends only on the multiset of its range, so sorting does not change it |
| Bvh.CombineRearranged | include/raytracer/RayTracer.h:413-418 | sorting the range, then building each half, only permutes the range overall |
| Bvh.ElementBoxEnclosed | include/raytracer/RayTracer.h:420-428 | a node's box encloses the box of every sphere below it |
| Bvh.TreeHitSound | include/raytracer/RayTracer.h:431-439 | a reported hit is the record of some sphere of the tree, at a parameter in range |
| Bvh.TreeHitNearest | include/raytracer/RayTracer.h:431-439 | when `t_min < t_max` and a sphere of the tree meets the ray at a parameter in the closed range `[t_min, t_max]`, ends included, at a point strictly inside the sphere's box, a hit is reported with `t` at most that parameter |
| Materials.Scatter | include/raytracer/RayTracer.h:470-528 | the scattered ray starts at the hit point. Lambertian and dielectric always scatter; a dielectric has attenuation (1, 1, 1). Metal has the albedo as attenuation and scatters iff the new direction is on the normal's side |
| Materials.LambertianScatter | include/raytracer/RayTracer.h:477-484 | a Lambertian scatters from the hit point with the albedo; its direction is normal plus sample, or the normal when that sum is almost zero |
| Materials.LambertianDirectionUsable | include/raytracer/RayTracer.h:478-480 | with a unit normal, the scattered direction is never almost zero |
| Materials.MakeMetal | include/raytracer/RayTracer.h:492 | the fuzz is `f` below 1 and 1 otherwise, so it never exceeds 1 |
| Materials.MetalScatter | include/raytracer/RayTracer.h:494-499 | metal scatters from the hit point with the albedo, and accepts iff the direction is on the normal's side; with fuzz 0 the direction is the mirror reflection |
| Materials.MirrorMetalAccepted | include/raytracer/RayTracer.h:494-499 | a fuzz-free metal hit from the front with a unit normal always scatters, along a unit vector |
| Materials.DielectricScatter | include/raytracer/RayTracer.h:510-528 | a dielectric always scatters from the hit point, with attenuation (1, 1, 1) |
| Materials.DielectricDirectionUsable | include/raytracer/RayTracer.h:510-528 | at a unit normal, and whichever branch the draw selects, the dielectric's scattered direction has squared length at least 1, so it is never zero |
| Materials.RefractLengthAtLeastOne | include/raytracer/RayTracer.h:179-184 | `refract` of a unit direction at a unit normal has squared length at least 1, for every index ratio |
| Materials.ReflectanceBounds | include/raytracer/RayTracer.h:531-536 | Schlick's reflectance lies between `r0^2` and 1, is `r0^2` head-on and 1 at grazing incidence |
| Materials.RefractEqualIndices | include/raytracer/RayTracer.h:179-184 | refraction with index ratio 1 leaves a unit direction unchanged |
| Text.LowerChar | main.cpp:14 | lower-casing maps the ASCII capitals `A`..`Z` onto `a`..`z` and leaves every other character alone (non-ASCII capitals: see Left out) |
| Text.ToLowerMeaning | main.cpp:14 | `toLower` applies `LowerChar` to each character in place and keeps the length |
| Text.TrimStartMeaning | main.cpp:14 | the leading cut removes exactly a run of whitespace and stops at a non-space |
| Text.TrimEndMeaning | main.cpp:14 | the trailing cut removes exactly a run of whitespace and stops at a non-space |
| Text.TrimMeaning | main.cpp:14 | `trimmed` neither starts nor ends with whitespace, and is empty iff the input is all whitespace |
| Text.NormalizeMeaning | main.cpp:14 | a normalised name has no ASCII capitals, no surrounding whitespace, and is empty iff the input is all whitespace |
| Text.NormalizeFixed | main.cpp:14 | a name without ASCII capitals or surrounding whitespace is already normalised |
| Text.NormalizeIdempotent | main.cpp:14 | normalising twice is normalising once |
| GraphicsApis.ParseGraphicsApi | main.cpp:13-31 | parsing gives one of the five APIs; an unknown name gives OpenGL, and a known name gives the API that prints as that name |
| GraphicsApis.GraphicsApiToString | main.cpp:33-48 | printing gives one of the five names, and "opengl" for any other API |
| GraphicsApis.ParsePrintRoundTrip | main.cpp:13-48 | printing, then parsing, gives each of the five APIs back |
| GraphicsApis.ParseIgnoresCaseAndSpace | main.cpp:13-14 | `parse(s) == parse(trim(lower(s)))` |
| GraphicsApis.KnownNameNormalized | main.cpp:13-48 | the five names are already in normal form |
| GraphicsApis.GraphicsBackendController.constructor | main.cpp:56-58 | the target backend starts as the current backend |
| GraphicsApis.GraphicsBackendController.SetTargetBackend | main.cpp:68-75 | the target becomes the normalised name, unless that name is empty |
| GraphicsApis.GraphicsBackendController.ApplyAndRestart | main.cpp:77-80 | succeeds when the target already is the current backend, otherwise reports whether the relaunch started |
| SpvHeader.DecodeWords | scripts/spv_to_header.py:20-23 | decoding fails iff the length is not a multiple of 4; otherwise it gives `len / 4` words, word `i` being the little-endian value of bytes `4i..4i+3` |
| SpvHeader.Words | scripts/spv_to_header.py:23 | the `"<I"` comprehension gives `len / 4` words, each little-endian |
| SpvHeader.WordBytes | scripts/spv_to_header.py:23 | a word's four little-endian bytes read back as the word |
| SpvHeader.BytesRoundTrip | scripts/spv_to_header.py:23 | reading four bytes as a word, then splitting it, gives the bytes back |
| SpvHeader.EncodeDecode | scripts/spv_to_header.py:23 | splitting the decoded words back into bytes recovers the input |
| SpvHeader.WordsOfEncoding | scripts/spv_to_header.py:23 | decoding the bytes of a word sequence gives the words back |
| SpvHeader.DecodeEncode | scripts/spv_to_header.py:20-23 | the bytes of any word sequence are accepted and decode to it |
| SpvHeader.Hex | scripts/spv_to_header.py:37 | the padded hexadecimal rendering has exactly the requested number of hex digits |
| SpvHeader.ParseHexOfHex | scripts/spv_to_header.py:37 | a value below `16^n`, written with `n` digits, parses back to itself |
| SpvHeader.PaddedMinimalHex | scripts/spv_to_header.py:37 | zero-padding the shortest rendering to `n` digits equals the `n`-digit rendering |
| SpvHeader.Format08xOfWord | scripts/spv_to_header.py:37 | `{word:08x}` is eight lower-case hex digits that parse back to the word |
| SpvHeader.WordLineRoundTrip | scripts/spv_to_header.py:35-37 | word line `i` carries a four-space indent iff `i % 8 == 0`, and its literal parses back to the word |
| SpvHeader.HeaderLines | scripts/spv_to_header.py:25-48 | the list has the seven opening lines with the symbol, one line per word in order, then the six closing lines |
| SpvHeader.HeaderUnique | scripts/spv_to_header.py:25-48 | the header shape fixes every line |
| SpvHeader.HeaderWordsRecoverable | scripts/spv_to_header.py:35-48 | every word can be read back from its line, and the size line names `symbol + "Size"` |
| SpvHeader.Join | scripts/spv_to_header.py:50 | `"\n".join` gives the empty text for no lines, and otherwise a text as long as all the lines plus one newline between each pair of neighbours |
| SpvHeader.Convert | scripts/spv_to_header.py:19-50 | the script fails iff the length is not a multiple of 4, with its error message; otherwise the text is the joined header of the decoded words |
| Tiles.CeilDiv | RayTracerFboItem.cpp:67-68 | `(n + d - 1) / d` is the least `q` with `q * d >= n` |
| Tiles.TileRow | RayTracerFboItem.cpp:90-91 | the tile's row is below `tilesY`, and row and column recombine to the index |
| Tiles.TileRect | RayTracerFboItem.cpp:90-97 | tile `k`'s rectangle is non-empty, lies inside the image, is at most a tile wide and high, and starts on tile-size multiples |
| Tiles.PixelInItsTile | RayTracerFboItem.cpp:66-97 | every pixel lies in its tile, and that tile is below `totalTiles` |
| Tiles.TilesDisjoint | RayTracerFboItem.cpp:90-97 | two tiles that share a pixel are the same tile |
| Tiles.CoveredOnce | RayTracerFboItem.cpp:90-97 | a pixel belongs to tile `k` iff `k` is its tile: the tiles cover each pixel exactly once |
| Tiles.BufferSlot | RayTracerFboItem.cpp:99-122 | slot `tileRow * tileWidth + col` lies in the `tileWidth * tileHeight` buffer, and row and column are recovered from it, so slots are distinct |
| Tiles.CameraRow | RayTracerFboItem.cpp:102 | `height - 1 - line` lies in `[0, height)` |
| Tiles.Progress | RayTracerFboItem.cpp:132-133 | the progress percentage lies in `[0, 100]` and is 100 iff every tile is done |
| Tiles.ProgressMonotone | RayTracerFboItem.cpp:132-133 | more finished tiles never lower the progress |
| Pixels.ChannelByte | RayTracerFboItem.cpp:118-120 | `int(256 * clamp(c, 0, 0.999))` lies in `[0, 255]`: it is 0 for `c <= 0`, 255 for `c >= 0.999`, and the floor of `256 c` in between |
| Pixels.ChannelByteMonotone | RayTracerFboItem.cpp:118-120 | a brighter channel never packs to a smaller byte |
| Pixels.PackDecode | RayTracerFboItem.cpp:122-126 | the packed word has alpha 255, and its red, green and blue bytes are the channels packed |
| Pixels.PackInjective | RayTracerFboItem.cpp:122-126 | different channel triples pack to different words |
| Pixels.PixelOfDecode | RayTracerFboItem.cpp:114-126 | a shaded colour packs to an opaque word whose bytes are the three channel bytes |
| Images.CopyInto | RayTracerFboItem.cpp:376 | `memcpy` into the image writes the source at the offset and leaves everything else alone |
| Images.BlitRowsMeaning | RayTracerFboItem.cpp:373-377 | after `n` scanlines are copied, pixels of the first `n` tile rows hold their tile pixel and every other pixel is unchanged |
| Images.BlitBlock | RayTracerFboItem.cpp:373-377 | the scanline loop copies every row of the tile into its place |
| Images.ScanlineMeaning | src/legacy/RenderWidget.cpp:180-181 | copying one scanline changes exactly the pixels of that line in the copied columns |
| RenderWorkers.RenderWorker.constructor | RayTracerFboItem.cpp:32-39 | the worker keeps its sizes, samples and depth, and raises the tile size to at least 8 |
| RenderWorkers.RenderWorker.Stop | RayTracerFboItem.cpp:41-43 | `stop` sets the stop flag |
| RenderWorkers.TileBlock | RayTracerFboItem.cpp:90-97 | the block of tile `k` is non-empty and fits in the image |
| RenderWorkers.TileBlockCovers | RayTracerFboItem.cpp:90-97 | the block covers exactly the pixels of the tile's rectangle |
| RenderWorkers.PaintStep | RayTracerFboItem.cpp:122-126 | writing one pixel's word into its slot extends the painted row-major prefix of the buffer by that pixel |
| RenderWorkers.RenderTileRow | RayTracerFboItem.cpp:101-127 | the inner loop paints every pixel of one tile line, at camera row `height - 1 - line` |
| RenderWorkers.RenderTile | RayTracerFboItem.cpp:99-128 | the tile buffer has `tileWidth * tileHeight` slots, and every pixel of the tile holds its shaded, packed colour |
| RenderWorkers.RenderWorker.Render | RayTracerFboItem.cpp:84-133 | tile indices are claimed from 0 and each is emitted once, in order, with its rectangle and pixels. The loop ends at `totalTiles` or at the first claim that sees the stop flag. Progress after tile `k` is `100 (k + 1) / totalTiles` |
| RenderWorkers.RenderProgress | RayTracerFboItem.cpp:132-133 | the emitted progress never decreases, stays within `[0, 100]` and reaches 100 exactly at the last tile |
| FboItems.ClampInt | RayTracerFboItem.cpp:776 | `std::clamp` lies in `[lo, hi]` and is the value when it is inside |
| FboItems.ChooseTileSize | RayTracerFboItem.cpp:792-819 | the tile size lies in `[16, 40]` (within the clamp `[8, 48]`), is 16 for the software renderer, and is at most 32 for OpenGL and unknown APIs |
| FboItems.ChooseMaxUploadsPerFrame | RayTracerFboItem.cpp:821-848 | the upload budget lies in `[8, 30]` (within the clamp `[8, 40]`), is 8 for the software renderer and at least 16 otherwise |
| FboItems.HeuristicsMonotone | RayTracerFboItem.cpp:792-848 | more pixels never shrink the tile size or raise the upload budget |
| FboItems.TruncDiv | RayTracerFboItem.cpp:470 | C++ division truncates toward zero |
| FboItems.GpuProgress | RayTracerFboItem.cpp:468-470 | `min(100, frame * 100 / max(1, samples))` is at most 100, non-negative for a non-negative frame, and 100 iff the frame reached the target |
| FboItems.GpuProgressFull | RayTracerFboItem.cpp:468-473 | the percentage reaches 100 exactly when the frame reaches the target |
| FboItems.ComputeKernelMeaning | RayTracerFboItem.cpp:237-280 | the kernel is one of opengl, cuda, vulkan or none. OpenGL is chosen iff `auto` or `opengl` is asked for on an OpenGL window; CUDA and Vulkan iff asked for and initialised |
| FboItems.SelectKernel | RayTracerFboItem.cpp:237-280 | the flag sequence of `startRender` yields that kernel, and GPU mode iff there is one |
| FboItems.TileEventAccepted | RayTracerFboItem.cpp:355-369 | every tile the worker emits for the image's grid passes all of `onTileRendered`'s checks |
| FboItems.RenderedPixels | RayTracerFboItem.cpp:349-390 | after the worker's first `n` tiles are handled in order, each pixel of those tiles holds its shaded word, and every other pixel is unchanged |
| FboItems.FullRender | RayTracerFboItem.cpp:84-133 | after a complete run, every pixel of the black image holds its shaded word |
| FboItems.RayTracerFboItem.constructor | RayTracerFboItem.cpp:145-150 | the defaults 800 x 450, 10 samples, depth 10, backend `auto`, and a black 800 x 450 image |
| FboItems.RayTracerFboItem.SetRenderWidth | RayTracerFboItem.cpp:188-194 | the width becomes `max(64, v)`, and the change is signalled iff `v` differs from the old width |
| FboItems.RayTracerFboItem.SetRenderHeight | RayTracerFboItem.cpp:196-202 | the height becomes `max(64, v)`, and the change is signalled iff `v` differs |
| FboItems.RayTracerFboItem.SetSamples | RayTracerFboItem.cpp:204-210 | samples become `max(1, v)`, and the change is signalled iff `v` differs |
| FboItems.RayTracerFboItem.SetMaxDepth | RayTracerFboItem.cpp:212-218 | the depth becomes `max(1, v)`, and the change is signalled iff `v` differs |
| FboItems.RayTracerFboItem.SetComputeBackend | RayTracerFboItem.cpp:220-227 | the backend becomes the normalised name unless that is empty; the change is signalled iff it is non-empty and new |
| FboItems.RayTracerFboItem.SetProgress | RayTracerFboItem.cpp:775-782 | progress becomes the value clamped to `[0, 100]`, and the change is signalled iff it changed |
| FboItems.RayTracerFboItem.SetRendering | RayTracerFboItem.cpp:767-773 | the flag takes the value, and the change is signalled iff it changed |
| FboItems.RayTracerFboItem.StartRender | RayTracerFboItem.cpp:229-331 | does nothing while rendering. Otherwise it chooses the kernel, resets the repaint count and progress, sets the tile size, the upload budget and the rendering flag; on the CPU path it also makes a fresh black image and a worker with the item's settings |
| FboItems.RayTracerFboItem.ChooseKernel | RayTracerFboItem.cpp:237-280 | the active kernel and GPU mode follow the normalised backend |
| FboItems.RayTracerFboItem.BeginRender | RayTracerFboItem.cpp:282-294 | the common start: counters reset, heuristics applied, progress 0, rendering on |
| FboItems.RayTracerFboItem.ResetImage | RayTracerFboItem.cpp:296-302 | a fresh black image of the render size, an empty upload queue, and a full upload due |
| FboItems.RayTracerFboItem.StartCpuRender | RayTracerFboItem.cpp:296-330 | the CPU path of `startRender`: black image, reset state, new worker |
| FboItems.RayTracerFboItem.StopRender | RayTracerFboItem.cpp:333-347 | GPU mode and rendering end, the worker is dropped, and a running worker is asked to stop |
| FboItems.RayTracerFboItem.OnWorkerProgressUpdated | RayTracerFboItem.cpp:392-394 | progress becomes the clamped value |
| FboItems.RayTracerFboItem.OnWorkerFinished | RayTracerFboItem.cpp:396-426 | progress is 100, rendering is off and the worker is gone |
| FboItems.RayTracerFboItem.OnTileRendered | RayTracerFboItem.cpp:349-390 | a tile failing any check (corner inside the image, positive size, fits, pixel count) leaves image, queue and repaint count unchanged; an accepted tile has each of its scanlines copied into its place, is appended to the upload queue and requests one repaint |
| FboItems.RayTracerFboItem.DrainUploads | RayTracerFboItem.cpp:633-659 | a pending full upload clears the flag and the queue. Otherwise the first `min(maxUploads, n)` entries are taken in order; taken plus remaining is the old queue, and more remain iff the remainder is non-empty |
| LegacyWidgets.RowPixelsAt | src/legacy/RenderWidget.cpp:94-95 | slot `i - xStart` of a scanline holds the shaded word of column `i` |
| LegacyWidgets.RenderRow | src/legacy/RenderWidget.cpp:75-96 | the pixel loop fills the row buffer with the shaded words of the line |
| LegacyWidgets.RenderTileRows | src/legacy/RenderWidget.cpp:73-99 | a tile emits one scanline event per line, top to bottom |
| LegacyWidgets.LegacyRenderWorker.constructor | src/legacy/RenderWidget.cpp:11-14 | the worker keeps its size, samples and depth |
| LegacyWidgets.LegacyRenderWorker.Stop | src/legacy/RenderWidget.cpp:16-18 | `stop` sets the stop flag |
| LegacyWidgets.LegacyRenderWorker.Render | src/legacy/RenderWidget.cpp:42-103 | with tiles of 16, claimed from 0 until `totalTiles` or the first stopped claim, the events are the scanlines of those tiles in order; progress after tile `k` is `100 (k + 1) / totalTiles` |
| LegacyWidgets.TileBlocksCover | src/legacy/RenderWidget.cpp:66-71 | the first `t` tiles cover exactly the pixels whose tile index is below `t` |
| LegacyWidgets.ApplyRowAt | src/legacy/RenderWidget.cpp:173-181 | an accepted scanline writes exactly columns `[xStart, xStart + n)` of its line; a rejected one changes nothing |
| LegacyWidgets.BlockRowsMeaning | src/legacy/RenderWidget.cpp:73-99 | after a tile's first `n` scanlines are handled, those lines of the tile hold their shaded words and everything else is unchanged |
| LegacyWidgets.BlocksMeaning | src/legacy/RenderWidget.cpp:60-103 | after the scanlines of several tiles are handled, every covered pixel holds its shaded word and every other pixel is unchanged |
| LegacyWidgets.RowsUpToMeaning | src/legacy/RenderWidget.cpp:60-103 | after the scanlines of the first `t` tiles, pixels of those tiles are shaded and the rest are unchanged |
| LegacyWidgets.LegacyFullRender | src/legacy/RenderWidget.cpp:60-103 | a run without stop shades every pixel of the black image: each pixel is emitted, and none is left out |
| LegacyWidgets.LegacyEmitsEachPixelOnce | src/legacy/RenderWidget.cpp:60-103 | in a run without stop, every pixel of the image is carried by exactly one scanline event, and that event carries the pixel's shaded word |
| LegacyWidgets.RenderWidget.constructor | src/legacy/RenderWidget.cpp:116-121 | the defaults 800 x 450, 10 samples, depth 10, a black image, and no worker |
| LegacyWidgets.RenderWidget.SetResolution | RenderWidget.h:50 | the resolution is stored as given |
| LegacyWidgets.RenderWidget.SetSamples | RenderWidget.h:51 | samples are stored as given |
| LegacyWidgets.RenderWidget.SetDepth | RenderWidget.h:52 | the depth is stored as given |
| LegacyWidgets.RenderWidget.StartRender | src/legacy/RenderWidget.cpp:132-158 | does nothing while rendering. Otherwise: a fresh black image of the set size, texture dirty, throttle and repaint counters reset, a worker with the settings, and rendering on |
| LegacyWidgets.RenderWidget.ResetImage | src/legacy/RenderWidget.cpp:135-136 | a fresh black image of the set size (0 x 0 when a side is not positive) |
| LegacyWidgets.RenderWidget.StopRender | src/legacy/RenderWidget.cpp:160-167 | only a running render with a worker is affected: the worker is asked to stop and the flag clears |
| LegacyWidgets.RenderWidget.UpdateTile | src/legacy/RenderWidget.cpp:173-190 | a rejected scanline changes nothing. An accepted one is copied into its line and marks the texture dirty; a repaint is requested, recording the time, iff 16 ms have passed since the last one |
| LegacyWidgets.RenderWidget.CopyRow | src/legacy/RenderWidget.cpp:180-181 | the `memcpy` writes the scanline into its line of the image |
| LegacyWidgets.RenderWidget.Throttle | src/legacy/RenderWidget.cpp:184-189 | the repaint count rises and the time is recorded iff `elapsed - last >= 16` |
| LegacyWidgets.RenderWidget.OnWorkerFinished | src/legacy/RenderWidget.cpp:192-213 | one more repaint request, rendering off, worker gone |

## Left out

- Concurrency: the thread pool, the atomics, `QThread` and queued signal delivery are not modelled. One worker claims tiles in order, and the stop flag's arrival is the parameter `stopped`. Signals become returned sequences of events, which the item's handlers consume in order.
- The GPU back ends (OpenGL compute, CUDA, Vulkan): their initialisation outcomes are the inputs `cudaReady` and `vulkanReady`. Their frame counter enters only through `GpuProgress`.
- Scene-graph texture creation, `glTexSubImage2D`, the letterbox rectangle and legacy GL painting are foreign API calls and are not modelled. `DrainUploads` covers the queue split that feeds them.
- Floating point is modelled as exact reals. Rounding, NaN and infinities are not modelled, except in the slab test. There, a zero direction component is modelled as IEEE division makes it behave.
- `sqrt` is a parameter with the square-root property. `pow` appears only as the fifth power in Schlick's formula.
- The camera, `ray_color`, `random_scene` and the per-pixel sampling loop are not modelled: they are determined by floating point and random draws. The averaged, gamma-corrected colour of a pixel is the `shade` parameter.
- The refraction and Schlick reflectance branch choice inside `DielectricScatter` takes its random draw as the parameter `u`. The material samples of Lambertian and Metal are parameters too.
- The render statistics text and its timers are not modelled. The throttle's elapsed time is the parameter `elapsedMs`.
- Rng.RandomSource.RandomInUnitSphere, RandomInUnitDisk and RandomUnitVector: the rejection loops run at most `maxTries` draws and return `None` when they run out, because the source loops without a bound.
- Rng.RandomSource.RandomUnitVector: also returns `None` for a zero sample, where the source would divide by zero.
- The sampler candidates (`BallCandidate`, `DiskCandidate`) draw their coordinates x, then y, then z. The source passes the draws as arguments of one `Vec3` constructor call, and C++ leaves the evaluation order of those arguments unspecified.
- Rng.SeedCounter.InitThreadRngState: the thread id hash is the parameter `threadHash`.
- Shapes.SphereHitSound, Shapes.SphereHitNearest, Bvh.TreeHitSound and HitableLists.HitableList.Hit require a non-zero radius and a non-zero ray direction, because the source divides by both. These are exactly the cases where IEEE would produce infinities.
- Materials.MetalScatter and Materials.DielectricScatter require a non-zero incoming direction, which `unit_vector` divides by. DielectricScatter also requires `ir` to be neither 0 nor -1, which `1/ir` and Schlick's `1 + ref_idx` divide by.
- Bvh.TreeHitNearest: proved for intersections strictly inside the sphere's box. It excludes the six points where a sphere touches its box, since the slab test's open interval may prune a tangent hit there. It also excludes the degenerate range `t_min == t_max`: a node's slab test then rejects before any sphere is tried, although a single sphere would accept a hit at exactly that parameter.
- HitableLists.HitableList.Hit and Bvh.Build: the objects are spheres, which is what the renderer's scene holds. `SurroundChildren` takes the children's `bounding_box` results as abstract inputs.
- Bvh.SortRange: insertion sort stands in for `std::sort`. Only the sort's contract (sorted and a permutation of the range, the rest untouched) is relied on.
- LegacyWidgets.LegacyRenderWorker.Render requires a non-negative image size, which holds at its only call site: the main window's spin boxes range over 100..3840 and 100..2160. A negative size is not modelled. There, C++ truncating division makes each tile count zero or negative. When both counts are negative (as at -32 x -32) their product is positive, so tiles are claimed that cover no pixel, no scanline is emitted, and progress still reaches 100.
- LegacyWidgets.RenderWidget.ResetImage: a `QImage` with a non-positive side is null, and is modelled as 0 x 0.
- Text.LowerChar: only the ASCII capitals `A`..`Z` are lowered. `QString::toLower` applies the Unicode case mapping to the other capitals as well, for example `Ä` to `ä` and the Kelvin sign U+212A to `k`, and that mapping is not modelled. So a backend name written with such a capital is normalised differently: `VUL\u212AAN` parses as `vulkan` in the program but as OpenGL in the model.
- ToLowerMeaning: states the ASCII-only mapping of `LowerChar`, not the full Unicode lower-casing of `QString::toLower`.
- NormalizeFixed: holds for names without ASCII capitals. A name with a non-ASCII capital such as `Ä` is fixed by the model's normalisation but not by the program's.
- FboItems.ChooseTileSize and FboItems.ChooseMaxUploadsPerFrame: the model multiplies with unbounded integers. The source computes `width * height` in a C++ `int`, which overflows above about 46341 x 46341 pixels, and the setters impose no upper bound. The bounds proved do not depend on the product, but `HeuristicsMonotone` does not describe the overflowing case.
- Materials.MakeMetal: the constructor clamps the fuzz only from above (`f < 1 ? f : 1`), so a negative fuzz is kept.
- The tile buffers `tileData` and `tileRowData` are local sequences rather than `QVector` arrays. They have no aliasing, so nothing is lost.
- File reading and writing and argument parsing in `scripts/spv_to_header.py` are not modelled. The input bytes and the symbol are parameters, and the joined text is the result.
- `main()` and the process relaunch in `applyAndRestart` are not modelled. Whether the relaunch started is the parameter `launched`.
- The property getters, `releaseResources`, `updatePaintNode` apart from the upload drain, and the MainWindow layout are not modelled. They hold no logic beyond reading fields or calling Qt.
