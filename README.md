# Image Processing Tool: session state, noise injection and parameter rules

This is a Dafny model of the logic that the image-processing desktop application
(`project_image.py`) implements itself. The application holds two pixel buffers: the image
as loaded (`original_cv`) and the image shown (`current_cv`). It injects salt, pepper or
"salt & pepper" noise by writing extreme values into randomly drawn pixels of a copy of the
shown image. It resets the shown image to the loaded one. It also forces a requested filter
window size to be odd (`k | 1`) and clips filter responses to the byte range before storing
them.

Layout:

- `pixels.dfy` (module `Pixels`): 8-bit samples, pixels as one sample per channel, and grids
  of pixels. It also holds the `np.clip(…, 0, 255)` step and the two channel conversions the
  handlers use: gray to RGB, and BGR to RGB.
- `mask_size.dfy` (module `MaskSize`): Python's `|` on unbounded integers, following
  two's-complement semantics, and the window rule `k | 1` built on it.
- `noise.dfy` (module `Noise`): a value-level reference for the noise loop. `Apply` replays
  the drawn coordinates one write after another. The lemmas give its closed form and the
  properties of salt, pepper and "both" noise.
- `session.dfy` (module `Session`): the class `ImageSession`. Its fields are the two nullable
  buffers (`array2?<Pixel>`), where null stands for `None`. Its methods are `Load`, `Reset`,
  `AddNoise` and `StoreGray`. `AddNoise` copies the buffer. Its loop, `Scatter`, writes the draws
  into the copy in place, as the source does. `Scatter` is proved against `Noise.Apply`.

Two consequences of the code that the model makes explicit:

- `add_noise` (project_image.py:148) has no guard against a missing image: `.copy()` on
  `None` raises before any field changes, and the handler is aborted. `AddNoise` models this
  with `ok == false` and an unchanged state.
- In "salt & pepper" mode the pepper write (lines 156-157) always follows the salt write on
  the same pixel. So every drawn pixel ends at 0, and "both" yields exactly the buffer
  "pepper" yields for the same draws (`Noise.BothIsPepper`).

Framing: `AddNoise`, `StoreGray` and `Reset` each promise that `original` is the same buffer
with the same pixels. `Reset` promises that the current buffer's pixels then equal the
original's. Together, after any sequence of these operations, a reset restores the loaded
image exactly.

## Model

| member | source | states |
|---|---|---|
| `Pixels.Clip` | project_image.py:226 | the clipped value is a byte, it equals the input exactly when the input is already in [0, 255], and no byte is nearer to the input |
| `Pixels.SwapRedBlueRoundTrip` | project_image.py:118 | converting a pixel from BGR to RGB and back gives the decoded pixel again |
| `Noise.NoDrawsCases` | project_image.py:150-152 | every zero or negative percentage gives `n <= 0`, and so does 0.5% of a 10x10 image |
| `MaskSize.MaskSize` | project_image.py:177 | the window side used for a request `k` is odd, lies in [k, k+1], and equals `k` exactly when `k` is odd |
| `MaskSize.BitOrOne` | project_image.py:177 | Python's bitwise or of any integer `k` with 1, negatives included, adds one to an even `k` and leaves an odd `k` unchanged |
| `MaskSize.BitOrZero` | project_image.py:177 | or-ing an integer with 0 gives the integer back |
| `MaskSize.SameWindowForEvenAndNextOdd` | project_image.py:177 | requesting `2m` and requesting `2m+1` give the same window, `2m+1` (a request of 4 behaves like 5) |
| `MaskSize.MaskSizeExamples` | project_image.py:177 | the default request 3 stays 3, and 4 becomes 5 |
| `Noise.HitValue` | project_image.py:154-157 | one iteration leaves the drawn pixel at 255 in every channel for salt, and at 0 in every channel for pepper and for both; "both" and "pepper" write the same pixel |
| `Noise.HitIdempotent` | project_image.py:152-157 | drawing the same coordinate again writes nothing new |
| `Noise.NoiseCountBounds` | project_image.py:150-152 | `int(h*w*percent)` lies in [0, h*w] for a percentage in [0, 1], is h*w for 1, and gives no iterations for a zero or negative percentage |
| `Noise.Apply` | project_image.py:152-157 | replaying the draws in order keeps the buffer's shape |
| `Noise.ApplyAt` | project_image.py:148-157 | after the loop, a pixel drawn at least once holds one iteration's write applied to its value before the call, and a pixel never drawn is unchanged |
| `Noise.NoDrawsNoChange` | project_image.py:150-152 | whenever `n = int(h*w*percent)` is 0 or less (a zero or negative percentage, or one too small for the image) there are no draws and the buffer is unchanged |
| `Noise.DrawnPixels` | project_image.py:154-157 | every drawn pixel ends at 255 in all channels for salt, and at 0 in all channels for pepper and for both |
| `Noise.BothIsPepper` | project_image.py:154-157 | for the same draws, "both" yields exactly the buffer "pepper" yields |
| `Noise.DrawnSetSize` | project_image.py:152-153 | draws with replacement name at most as many distinct pixels as there are draws |
| `Noise.ChangedAtMostDraws` | project_image.py:150-157 | only drawn pixels change, so at most n distinct pixels differ from the buffer before the call |
| `Noise.ExtremesStayExtreme` | project_image.py:152-157 | a buffer whose samples are all 0 or 255 keeps that under any noise, and pepper or both with at least one draw leaves a black pixel |
| `Session.ImageSession.constructor` | project_image.py:15-16 | a new session holds no image: both buffers are None |
| `Session.ImageSession.Load` | project_image.py:109-119 | no path changes nothing; an unreadable file reports the error and leaves both buffers as they were; a decoded image, converted from BGR to RGB, becomes the original, and the current buffer becomes a separate buffer with the same pixels |
| `Session.ImageSession.Reset` | project_image.py:244-247 | with an image loaded, the current buffer becomes a fresh buffer equal pixel for pixel to the unchanged original; without one nothing changes |
| `Session.ImageSession.AddNoise` | project_image.py:147-160 | without an image the handler aborts and nothing changes; otherwise the current buffer becomes a fresh buffer equal to `Noise.Apply` of its previous pixels and the draws, and the original keeps its pixels |
| `Session.Scatter` | project_image.py:152-157 | the loop leaves the buffer equal to `Noise.Apply` of its previous pixels and the draws |
| `Session.ImageSession.StoreGray` | project_image.py:199 | a filter's gray result becomes the current buffer with three equal channels per pixel, and the original keeps its pixels; without an image nothing changes (the same step ends the handlers at lines 227, 234 and 241) |

## Left out

- Tkinter: windows, buttons, dialogs, labels and the event loop (lines 20-107, 131-145, 162-176, 178-186, 256-259).
- Parsing of the dialog text: `float(entry.get()) / 100` and `int(entry.get())`. The model takes the parsed number. A parse error aborts the handler before any state changes.
- `display_image` (lines 123-129): the display scale and the resize only affect the screen.
- The filter, edge and enhancement arithmetic of the image library (lines 188-242): grayscale conversion, erosion, dilation, median, mean and Gaussian blur, Laplacian, Sobel, Prewitt and Roberts responses, and the high-boost and unsharp formulas. Its gray result is an input to `StoreGray`. `Clip` models the element-wise clip to [0, 255] on integers.
- Floating point: the noise percentage is an exact real, so float rounding in `h*w*percent` is not modelled. The float-to-uint8 truncation after a clip, the square roots of the gradient magnitudes and the uint8 wrap-around of `g - blur` are not modelled either.
- Random number generation (line 153): the drawn coordinates are an input sequence of in-range pairs, one per iteration, in drawing order.
- File I/O: the file dialogs, `cv2.imread` and `save_image` with `cv2.imwrite` (lines 110-114, 249-253). `Load` receives the dialog and decoder outcome. It requires a decoded image to have three channels, as the decoder's default colour mode guarantees.
- The status label text set after a load (line 121).
