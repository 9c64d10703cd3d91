# Image-to-point-cloud decoder of of-image2abc, in Dafny

The viewer loads an RGBA image in which every group of four horizontally
adjacent pixels encodes one 3D point. Each of the first three pixels holds one
32-bit float coordinate: its channels r, g, b and a are the float's bytes 0 to 3.
The fourth pixel of the group is padding. `ofApp::setup` clears the mesh and
walks the image group by group. The outer loop visits columns 0, 4, 8, …. The
inner loop visits every row. Each candidate point is decoded with
`unpackFloat` and appended to the mesh only if `isWithinBounds` accepts it.
`isWithinBounds` checks each coordinate against its own closed interval
(`xLimits`, `yLimits`, `zLimits`).

The project models that decoder and proves its contracts:

- `channels.dfy` (`Channels`): pixel channels, the four byte stores into the
  `packedfloat` union and `unpackFloat`. The step that reads four bytes as an
  IEEE-754 binary32 value is a parameter `asFloat: Bytes4 -> real`.
- `bounds.dfy` (`Bounds`): the three limit constants and `isWithinBounds`.
  The `glm::vec2` limits are floats, so `-0.9` is modelled as the nearest
  binary32 value, -0.89999997615814208984375. The other limits are exact.
- `extraction.dfy` (`Extraction`): the image, the candidate point of a group
  and row, and `Extract`, the vertex list as a value. `BuildMesh` and
  `ScanGroup` are the loop nest, proved to compute `Extract`. They take the
  per-pixel decoder as a parameter. The source's decoder is
  `UnpackWith(asFloat)`, which is `unpackFloat`.
- `scan_reference.dfy` (`ScanReference`): an independent description of the
  output. It lists every candidate in loop-nest order and filters that list by
  the region test. Lemmas connect `Extract` to this description and derive
  soundness, completeness, order, the count bound and the irrelevance of the
  padding pixel.
- `scenarios.dfy` (`Scenarios`): a one-row, eight-pixel image with one group
  inside the region and one outside.

The output is column-group-major: all rows of group 0, then all rows of group
4, and so on. No group near the right edge is skipped.

The code reads columns i+1, i+2 and i+3 for every i < width, so it reads past
the row when the width is not a multiple of 4. The model therefore requires a
width that is a multiple of 4 (`GroupsInRange`) and adds no skip rule.

`BuildMesh` adds a group's retained points to the mesh once that group's inner
loop has finished. The source adds them one at a time. The resulting vertex
list is the same.

## Model

| member | source | states |
|---|---|---|
| `Channels.PackInto` | src/ofApp.cpp:19-23 | After the four stores into the union, byte k holds channel k (r, g, b, a). Splitting the bytes back into channels returns the pixel unchanged, whatever the union held before. |
| `Channels.BytePlacement` | src/ofApp.cpp:20-23 | The stored bytes are exactly [r, g, b, a] at positions 0 to 3. |
| `Channels.UnpackFloat` | src/ofApp.cpp:18-26 | `unpackFloat` returns the float reading of exactly the bytes r, g, b, a, in that order. |
| `Channels.PackIgnoresPrior` | src/ofApp.cpp:19-23 | The union is uninitialised, but all four bytes are overwritten, so its earlier contents never affect the result. |
| `Channels.RepackBytes` | src/ofApp.cpp:18-25 | The other direction of the round trip: any 4-byte pattern, split into channels and stored again, is reproduced. |
| `Channels.PackInjective` | src/ofApp.cpp:18-25 | Different pixels give different bit patterns. |
| `Bounds.WithinBounds` | src/ofApp.cpp:28-42 | True if and only if x is in [xLimits.x, xLimits.y], y is in [yLimits.x, yLimits.y] and z is in [zLimits.x, zLimits.y], all intervals closed. |
| `Bounds.EndpointsIncluded` | src/ofApp.cpp:28-42 | Points at the lower and upper corners of the region are accepted: both ends of every interval are inclusive. |
| `Bounds.AnyAxisRejects` | src/ofApp.cpp:29-39 | A coordinate outside its own interval makes the test false, whatever the other two coordinates are. |
| `Bounds.YCheckedAgainstYLimits` | src/ofApp.cpp:33-35 | y is checked against `yLimits`, not against the `zLimits` declared just before it: 1.0 is rejected as y although it lies in the z interval, and -0.5 is accepted. |
| `Bounds.YLowerLimitIsFloat` | src/ofApp.cpp:11 | The stored lower y limit is the float nearest -0.9, -15099494 / 2^24. A y at that value is accepted; the next float below it, -15099495 / 2^24, is rejected. |
| `Extraction.UnpackWith` | src/ofApp.cpp:71-73 | The source's pixel decoder reads each pixel through its bytes r, g, b, a. |
| `Extraction.CandidateChannels` | src/ofApp.cpp:66-73 | The candidate at (i, j) takes x, y and z from the bytes of pixels (i, j), (i+1, j) and (i+2, j). |
| `Extraction.Column` | src/ofApp.cpp:63-78 | One group's inner loop adds at most one vertex per row. |
| `Extraction.ScanGroup` | src/ofApp.cpp:63-78 | The inner loop over rows 0..h-1 of one group appends exactly that group's retained candidates, in row order. |
| `Extraction.BuildMesh` | src/ofApp.cpp:57-79 | The mesh is cleared, then the loop nest produces exactly `Extract(img)`. The previous mesh contents have no effect, so two runs on the same image give the same vertex list. |
| `ScanReference.CandidatesLength` | src/ofApp.cpp:62-63 | There is one candidate per column group and row: (w/4)·h in all. |
| `ScanReference.ScanIndexOrder` | src/ofApp.cpp:62-63 | Loop-nest order: an earlier group comes before a later one, and within a group an earlier row comes first. |
| `ScanReference.CandidatePosition` | src/ofApp.cpp:62-73 | Candidate (i, j) is entry (i/4)·h + j of the full candidate list. |
| `ScanReference.CandidatesAreAll` | src/ofApp.cpp:62-73 | The candidate list holds exactly the candidates of groups starting at columns i with i % 4 == 0. |
| `ScanReference.ExtractIsRetainedCandidates` | src/ofApp.cpp:62-79 | The vertex list is the full candidate list, filtered by `isWithinBounds`, with order kept. |
| `ScanReference.ExtractSound` | src/ofApp.cpp:75-77 | Every vertex added to the mesh passes `isWithinBounds`. |
| `ScanReference.ExtractMembership` | src/ofApp.cpp:62-77 | A point is in the mesh if and only if it is some group's candidate and lies in the region. In-region candidates are never dropped and nothing else is added. |
| `ScanReference.ExtractKeepsScanOrder` | src/ofApp.cpp:62-76 | If two candidates are both in the region, the one visited first by the loop nest comes first in the mesh. |
| `ScanReference.ExtractCountBound` | src/ofApp.cpp:62-63 | The mesh has at most ((w + 3) / 4) · h vertices. |
| `ScanReference.ExtractIgnoresPadding` | src/ofApp.cpp:66-73 | Pixel (i+3, j) of every group has no influence: images that differ only in those pixels give the same vertex list. |
| `ScanReference.RetainKeepsOrder` | src/ofApp.cpp:75-76 | Filtering keeps relative order: of two retained candidates, the earlier one is placed earlier. |
| `ScanReference.RetainMembership` | src/ofApp.cpp:75-76 | A candidate is kept if and only if it passes the region test. |
| `Scenarios.TwoGroupRow` | src/ofApp.cpp:62-79 | On a 1-row, 8-pixel image whose first group decodes to (0, 0, 1.5) and second to (10, 10, 10), the mesh is [(0, 0, 1.5)]. |

## Left out

- Rendering, camera setup, depth test, grid, help text, `drawInteractionArea` and the key and mouse handlers (src/ofApp.cpp:46-53, 81-218): viewer code with no decoding logic.
- `img.load` and the internals of `img.getColor`: image file I/O and library behaviour. The image is an input value of RGBA pixels.
- The IEEE-754 meaning of the four bytes: NaN, infinities, signed zero and the platform's byte order within the word. `asFloat` maps bytes to a `real`, so every coordinate compares with the limits. With real floats, a NaN coordinate would make both comparisons false and pass the test. The model does not show this.
- Reading `p.f` after writing `p.bytes` (src/ofApp.cpp:20-25) is undefined behaviour in C++. The model takes that read to be a fixed function `asFloat` of the four stored bytes. `Extraction.BuildMesh`'s "two runs give the same vertex list" rests on that choice.
- Images whose width is not a multiple of 4: the source reads outside the image there (undefined behaviour), and the model excludes them by precondition.
- Animated-mesh export over a frame sequence, triangle stitching, texture coordinates and geometry-file writing: none of these appear in src/ofApp.cpp.
