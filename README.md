# Hybrid background remover: mask compositing

The program is a small Streamlit page. The user uploads an image and paints on
a drawing canvas laid over it. Red rectangles mark regions to cut away. Green
brush strokes mark regions to rescue. The page then bakes those marks into the
image's alpha channel and offers the result as a PNG.

This project models the one piece of logic in that page, the compositing step
(`app.py`, lines 68-89):

- the canvas's RGBA array is turned into two boolean areas. A pixel is "red"
  when its R channel is above 0 and its G channel is 0. A pixel is "green" when
  its G channel is above 0, whatever its R channel;
- the image's RGBA array is changed in place by two masked assignments. The
  red area gets alpha 0, then the green area gets alpha 255. A red pixel
  needs G == 0 and a green pixel needs G > 0, so no canvas pixel is in both
  areas: the second assignment never overwrites the first, and running them
  in the other order gives the same image.

Modules:

- `Pixels` (`pixels.dfy`): the `Pixel` datatype with four 0..255 channels and
  the two colour tests `IsErase` and `IsRestore`. It also has `MaskedAssign`,
  what one masked assignment does to one pixel, and `Composited`, what both
  assignments do to one pixel in program order.
- `Images` (`images.dfy`): whole images as values (`seq<seq<Pixel>>`). The
  masked assignment on a whole image is `MaskedAssignImage`, and both
  assignments together are `CompositeImage`. Lemmas state idempotence, the
  blank-canvas identity and the fact that only R and G of the canvas matter.
- `Compositor` (`compositor.dfy`): the in-place step over `array2<Pixel>`.
  `AssignAlphaWhere` is one masked assignment, written as a row-by-row loop.
  `Composite` runs the two assignments in source order. Both are proved
  against the value-level functions of `Images`.

The canvas is created at the image's own width and height (`app.py:57-58`), so
`Composite` requires the canvas array and the image array to have the same
dimensions. The two arrays may even be the same array. Only alpha is written
and the colour tests read only red and green, so the outcome is the same.
Because the canvas is built at the image's own size, no resampling happens
between canvas and image.

## Model

| member | source | states |
|---|---|---|
| `Pixels.IsErase` | app.py:77 | A canvas pixel is in the red (erase) area when its R channel is above 0 and its G channel is 0; such a pixel is never also in the green area. |
| `Pixels.IsRestore` | app.py:79 | A canvas pixel is in the green (restore) area exactly when its G channel is non-zero, whatever its R channel. |
| `Pixels.MaskedAssign` | app.py:83-86 | One masked assignment on one pixel keeps R, G and B. It sets alpha to the assigned value when the canvas pixel is in the area, and leaves the pixel unchanged otherwise. |
| `Pixels.Composited` | app.py:77-86 | After both assignments a pixel keeps its R, G and B. Its alpha is 0 when its canvas pixel is red (R > 0, G == 0). Its alpha is 255 when the canvas pixel is green (G > 0), whatever its R. Otherwise the original alpha is kept exactly. |
| `Pixels.EraseRestoreExclusive` | app.py:77-79 | No canvas pixel is both red and green: the red test needs G == 0, the green test needs G > 0. |
| `Pixels.PassOrderIrrelevant` | app.py:83-86 | Because the two areas are disjoint, running the green assignment before the red one would give the same pixel. |
| `Pixels.MaskedAssignReadsOnlyRG` | app.py:77-79 | Two canvas pixels with equal R and G lead to the same masked assignment result; B and A of the canvas are never read. |
| `Pixels.CompositedIdempotent` | app.py:83-86 | Compositing an already composited pixel with the same canvas pixel changes nothing. |
| `Images.MaskedAssignRow` | app.py:83-86 | The masked assignment on one row keeps the row's length and changes each pixel only according to its own canvas pixel. |
| `Images.MaskedAssignImage` | app.py:83-86 | `img[area, 3] = v` on a whole image keeps the image's shape. Each pixel gets alpha `v` if its canvas pixel is in the area and is unchanged otherwise. |
| `Images.CompositeImage` | app.py:77-86 | The red-then-green pair of assignments keeps the image's geometry and leaves each pixel exactly as `Composited` states. |
| `Images.MaskedAssignImageReadsOnlyRG` | app.py:77-79 | Two canvases that agree on R and G at every pixel give the same image after a masked assignment. |
| `Images.CompositeIdempotent` | app.py:83-86 | Applying the same canvas to the composited image a second time yields the identical image. |
| `Images.BlankMaskIsIdentity` | app.py:77-86 | A canvas with no red and no green pixel leaves the image unchanged. |
| `Compositor.Snapshot` | app.py:83-86 | The abstraction function the method contracts use: the grid value of a pixel array has the array's height and width and holds the array's pixel at every position. It models no statement of the program. |
| `Compositor.AssignAlphaWhere` | app.py:83-86 | The in-place masked assignment leaves the image array equal to `MaskedAssignImage` of its old contents and the old canvas. It keeps R and G of the canvas, even when the canvas and image are one array. |
| `Compositor.Composite` | app.py:70-89 | The in-place step leaves the image array equal to `CompositeImage` of its old contents and the canvas. Each pixel equals `Composited` of its old value and its canvas pixel. The canvas must have the image's dimensions, and those dimensions are kept. |

## Left out

- The page setup, text, columns, tool radio button, brush slider and captions (`app.py:7-48`, `63-64`, `92`, `108`): presentation only.
- The drawing canvas widget (`app.py:51-61`): an external component. Its output is taken as an arbitrary RGBA array of the image's size. How it rasterises strokes and the semi-transparent red fill is not modelled.
- Decoding the upload and converting it to RGBA (`app.py:21`), and the conversions between images and arrays (`app.py:73`, `89`): foreign library calls. `Compositor.Snapshot` is only the abstraction function that lets the method contracts speak of an array's contents as a value; it does not model these conversions.
- PNG encoding and the download button (`app.py:96-106`): I/O.
- The `image_data is None` check (`app.py:68`, `107-108`): page flow only. When no canvas data exists nothing is composited, which needs no model.
- Unequal canvas and image dimensions: the page always builds the canvas at the image's size, so `Compositor.Composite` requires equal dimensions instead of modelling the array library's shape error.
