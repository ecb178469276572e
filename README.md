# Simple background remover

A Dafny model of the non-AI background remover in `app.py` of the ZetaConvert
backend. It has two functions:

- `avg_corner_bg` takes the per-channel mean of the RGB values of the four
  corner pixels. Alpha is ignored.
- `remove_bg_simple` does the removal:
  - It clamps the user tolerance to [0, 100].
  - It maps the tolerance to the threshold `int(1.5 * tol)`, which lies in [0, 150].
  - It builds a new RGBA image of the same size.
  - Every pixel keeps its R, G and B.
  - A pixel's alpha becomes 0 when its Manhattan RGB distance to the corner
    mean is at most the threshold. Otherwise the pixel keeps its alpha.

This is a global colour replace, one pixel at a time. There is no flood fill
and no connectivity.

Everything is in `app.dfy`, module `App`:

- A pixel is a `Pixel` of four `Byte` channels (0..255).
- An image is an `array2<Pixel>` indexed `[x, y]`, like Pillow's pixel access
  object. `Length0` is the width and `Length1` the height.
- The reference colour is an `Rgb` of three `real`s.
- `RemoveBgSimple` fills a fresh `array2` with the same nested `y`/`x` loops as
  the source.
- Its result is specified by the predicate `IsRemoval`. The lemmas state their
  properties in terms of that predicate.

The float arithmetic of the source is exact for every input it can see. Each
corner mean is an integer sum of at most 1020 divided by 4. `1.5 * tol` is a
multiple of 0.5 for an integer `tol` in [0, 100]. The model therefore uses
Dafny's exact `real`. The threshold is the floor of `1.5 * tol`. `Threshold`
proves that it equals `(3 * tol) / 2`. Python's `int()` truncates toward zero,
which is the floor here because `tol >= 0`.

The docstring at app.py:27 says the tolerance is mapped to 0-255. The code at
app.py:31 maps it to 0..150, and the model follows the code.

The tolerance defaults to 30 (app.py:24), and so does the `tolerance`
parameter of `RemoveBgSimple`.

## Model

| member | source | states |
|---|---|---|
| App.ChannelSum | app.py:19-21 | the sum of one channel over n pixels lies in [0, 255·n] |
| App.ChannelSumBounds | app.py:19-21 | if every pixel's channel lies in [lo, hi], the sum over n pixels lies in [n·lo, n·hi] |
| App.ChannelSumAgrees | app.py:18-21 | the sum depends only on that channel of each pixel: alpha and the other channels play no part |
| App.AvgCornerBg | app.py:5-22 | every channel of the reference colour lies in [0, 255] |
| App.CornerMeanWithinRange | app.py:11-22 | each channel of the reference colour lies between the smallest and the largest value of that channel over the four corners |
| App.AvgCornerBgOnlyCorners | app.py:11-21 | two images whose four corners have the same RGB get the same reference colour, whatever their alpha, their other pixels and their size |
| App.ClampTolerance | app.py:29 | the tolerance is in [0, 100]: unchanged inside that range, 0 below it, 100 above it |
| App.Threshold | app.py:30-31 | the threshold `int(1.5 * tol)` equals `(3 * tol) / 2` and lies in [0, 150] |
| App.Distance | app.py:45-46 | the Manhattan RGB distance is non-negative, and it is zero exactly when the pixel's RGB equals the reference colour |
| App.RemovePixel | app.py:44-51 | the output pixel has the input's RGB; its alpha is 0 exactly when the pixel is within the threshold or was already transparent; a pixel beyond the threshold is copied unchanged |
| App.RemoveBgSimple | app.py:24-52 | the result is a fresh image of the same width and height, and each pixel is the per-pixel rule applied to the input pixel and the corner mean (`IsRemoval`) |
| App.BackgroundMonotone | app.py:29-48 | a pixel within the threshold at tolerance t1 is also within it at any tolerance t2 ≥ t1 |
| App.MonotoneInTolerance | app.py:29-51 | every pixel transparent in the result at t1 is also transparent in the result at t2 ≥ t1 |
| App.RemovePixelTwice | app.py:44-51 | applying the per-pixel rule twice with the same reference colour and threshold gives the same pixel as applying it once |
| App.RemovalKeepsBackground | app.py:11-51 | the result has the same corner mean as the input |
| App.Idempotent | app.py:24-52 | removing the background again from the result changes no pixel |
| App.UniformImageCleared | app.py:18-51 | an image whose pixels all have one RGB becomes fully transparent at every tolerance, including 0 |
| App.ZeroToleranceKeepsOthers | app.py:29-51 | at a tolerance ≤ 0, only pixels whose RGB is exactly the corner mean are cleared, and every other pixel is copied unchanged |

## Left out

- Mode conversion (`img.convert("RGBA")`), `img.load()` and `Image.new(...)`
  (app.py:7-9, 32-33, 36, 39-40) are Pillow calls. The input is taken as an
  already-RGBA pixel grid and the output as a freshly allocated grid. An RGB
  image that Pillow converts gets alpha 255 before the model sees it.
- `int(tolerance)` on a float or non-numeric value (app.py:29) is not modelled.
  The tolerance is an integer parameter.
- Floating point: the mean and `1.5 * tol` are exact `real`s. This matches IEEE
  doubles for every input the code can receive.
- A zero-width or zero-height image: the corner reads at app.py:12-15 need
  `w >= 1` and `h >= 1`. Those are the `requires` of `AvgCornerBg` and
  `RemoveBgSimple`. The source would fail on such an image rather than handle it.
- The file's imports, which app.py:1 stands for (Pillow's `Image`, used at
  app.py:39), are library code. The model covers only the two functions in
  app.py.
