# Poster pipeline core, modelled in Dafny

The pipeline turns a portrait photo into a two-tone poster. It runs in three stages:

1. **extract_face** (`extract_face.dfy`, module `ExtractFace`):
   - Normalise the channel layout to RGB.
   - Make the background transparent using the selfie-segmentation mask.
   - Find the face band: the landmark columns widened by a fifth on each side.
   - Find the first row that is not transparent inside the band.
   - Crop from that row down to a fifth of the face height below the chin.
2. **mosaic_image** (`mosaic_image.dfy`, module `MosaicImage`):
   - Scale the crop to 700 rows.
   - Make it blocky by nearest-neighbour shrinking to a 140-row grid and scaling back.
   - Paint every pixel red when its grey level is at most the mean grey level of the non-transparent pixels, and skin-coloured otherwise. Alpha is kept.
3. **overlay_images** (`overlay_images.dfy`, module `OverlayImages`):
   - Scale the mosaic to 400 rows.
   - Centre it horizontally on the background, with its top at row 50.
   - Alpha-blend its three colour channels into the background in place, using the feathered (blurred and clipped) alpha plane.

`images.dfy` (module `Images`) holds what the stages share:
- the `byte` sample type;
- `Raster`, the value of an H x W x C array, and `View`, the raster a buffer holds;
- numpy's slicing rule and Python's `int()` of a float;
- the nearest-neighbour resize rule.

`wrappers.dfy` holds `Option` and `Result`.

Outputs of external libraries become parameters:
- MediaPipe's segmentation probability: `segmentation(y, x)`. The mask is float32, so the threshold 0.1 is the float32 nearest to it, 13421773 / 2^27;
- MediaPipe's face landmarks: a `Face`, or `None` when no face was found;
- OpenCV's BGR-to-grey conversion: a `GrayFn`;
- OpenCV's Gaussian blur of the alpha plane: `feather(i, j)`.

Buffers that the source fills or updates in place are `array3<byte>` (or `array3<real>` for the float32 region). Numpy vectorised assignments are `forall` statements. Python loops are Dafny loops: the generator search for `top_y` and the `for c in range(3)` blending loop. Each method is proved against a value-level function (`CropSpec`, `TopY`, `Classify`, `Blend`, `Composite`), and the properties the code promises are proved as lemmas about those functions.

Where the code and its comments disagree, the model follows the code:
- The block size is 700 // 120 = 5 px, not 6 as the comments of `mosaic_image` say (module/mosaic_image.py:46, 60). The block grid is therefore 140 rows, not the 100 blocks the docstring names (module/mosaic_image.py:46).
- The background colour named `YELLOW_BGR`, and commented as yellow, is `[255, 255, 255]`, that is white (module/overlay_images.py:6-7).

Other facts about the code that the model keeps:
- A 3-D input with 1 channel raises. Only a 2-D array counts as grey.
- All three mosaic resizes use nearest-neighbour interpolation.
- An image with no non-transparent pixel has a NaN mean. Its colour channels stay 0 (neither red nor skin).
- Classification is idempotent on the full pixel values, not just on the colour set. This holds when red's grey level is below skin's, which any standard grey conversion gives.

## Model

| member | source | states |
|---|---|---|
| Images.Slice | module/extract_face.py:75 | The start and length of `a[i:j]`: in-range bounds select `[i, j)`; an inverted slice is empty; the selection never exceeds the dimension. |
| Images.Trunc | module/extract_face.py:62 | `int()` of a float truncates toward zero: for v >= 0 it is the floor, and for v < 0 it is the ceiling. |
| Images.NearestIndex | module/mosaic_image.py:57 | The source index of a nearest-neighbour resize is floor(i * n / m), and it lies inside the source. |
| Images.ResizeNearest | module/mosaic_image.py:57 | The resized raster has the requested shape, and each target pixel is the source pixel at the floor-scaled indices. |
| ExtractFace.ToRgb | module/extract_face.py:11-21 | It fails exactly on a 3-D input with neither 3 nor 4 channels, with the unsupported-format error. Otherwise it is a valid 3-channel raster of the input's size. |
| ExtractFace.ComposeBgra | module/extract_face.py:41-47 | The matted buffer is a valid 4-channel raster of the RGB image's size. |
| ExtractFace.ComposedColourAndAlpha | module/extract_face.py:41-47 | In the matted buffer, alpha is 255 exactly where the probability is above 0.1 and 0 exactly where it is not. The colour channels are the input's BGR, or the grey value replicated. |
| ExtractFace.RgbToBgra | module/extract_face.py:44 | A fresh H x W x 4 buffer with the channels reversed and alpha 255. |
| ExtractFace.ApplyMask | module/extract_face.py:47 | The alpha plane becomes mask * 255, and the colour planes are unchanged. |
| ExtractFace.SeqMin | module/extract_face.py:61 | `min(x_coords)` is a member of the list and at most every element. |
| ExtractFace.SeqMax | module/extract_face.py:61 | `max(x_coords)` is a member of the list and at least every element. |
| ExtractFace.FaceBand | module/extract_face.py:60-63 | The widened band stays inside [0, width]. |
| ExtractFace.MarginIsFifth | module/extract_face.py:62 | `int(d * 0.2)` equals d / 5 for a non-negative spread d. |
| ExtractFace.BandWidens | module/extract_face.py:61-63 | A non-inverted raw band is widened by spread / 5 on each side, then clamped. It contains the raw band. |
| ExtractFace.BandInsideImage | module/extract_face.py:61-63 | When the landmarks lie in [0, width], the band is not inverted, lies inside the image and covers every landmark. |
| ExtractFace.CoincidentLandmarksGiveEmptyBand | module/extract_face.py:61-63 | Landmarks that all share one column give the empty band (c, c). |
| ExtractFace.FirstVisibleFromIsLeast | module/extract_face.py:67-69 | The search from row y returns the least visible row at or after y, or 0 when there is none. |
| ExtractFace.TopYIsFirstVisibleRow | module/extract_face.py:67-69 | `top_y` is the least row with a non-transparent pixel in the band, and every row above it is transparent there. It is 0 when no row qualifies, in particular for an empty band. |
| ExtractFace.FindTopY | module/extract_face.py:67-69 | The row scan returns `TopY` of the buffer. |
| ExtractFace.BottomNotAboveTop | module/extract_face.py:66-71 | With the chin at or below `top_y`, `bottom_y` is at least `top_y` and at most chin + 0.2 * face height. |
| ExtractFace.CropSpec | module/extract_face.py:75 | The crop has the slice's row and column counts, and pixel (i, j) is the source pixel offset by the slice starts. |
| ExtractFace.CropShape | module/extract_face.py:75 | For a start inside the image and a band inside it, the crop has max(0, min(bottom, H) - top) rows and right - left columns, and pixel (i, j) is pixel (top + i, left + j). |
| ExtractFace.Crop | module/extract_face.py:75 | The copied buffer holds exactly `CropSpec` of the source buffer. |
| ExtractFace.CroppedIs | module/extract_face.py:75 | A buffer holding the slice's samples at matching offsets holds `CropSpec`. |
| ExtractFace.Extract | module/extract_face.py:5-90 | The checks run in the source's order: unsupported channels, then no face, then an empty landmark list, then an empty crop, which the debug `cv2.imwrite` of line 78 refuses. It succeeds exactly when none of these applies, and then the result is the matted buffer cropped to the face band, from `top_y` to `bottom_y`. |
| MosaicImage.RedCount | module/mosaic_image.py:35 | At most as many pixels are red as there are non-transparent ones. |
| MosaicImage.Recolor | module/mosaic_image.py:29-37 | The pixel keeps its alpha; with no non-transparent pixel its colour is zero. |
| MosaicImage.AllTransparentStaysBlack | module/mosaic_image.py:25-37 | In an image with no non-transparent pixel the mean is NaN, so every pixel's colour stays the zero of `np.zeros_like`. |
| MosaicImage.Classify | module/mosaic_image.py:28-37 | Same shape, 4 channels, and alpha copied pixel for pixel. |
| MosaicImage.ClassifyRedAndSkin | module/mosaic_image.py:11-39 | The buffer built by the zero fill, the alpha copy and the two masked assignments holds `Classify` of the input. |
| MosaicImage.OpaqueImageCounts | module/mosaic_image.py:25 | An image with a non-transparent pixel has a positive count for the mean. |
| MosaicImage.TwoColours | module/mosaic_image.py:33-37 | With a non-transparent pixel, every pixel's colour is exactly red or exactly skin. |
| MosaicImage.RedIffAtMostMean | module/mosaic_image.py:25-37 | A pixel is red if and only if its grey level is at most `mean_value`. It is skin if and only if its grey level is above it. |
| MosaicImage.AtMostQuotient | module/mosaic_image.py:25 | g <= s / c exactly when g * c <= s. This justifies the model's exact mean comparison. |
| MosaicImage.Monotone | module/mosaic_image.py:35-37 | A pixel no brighter than a red pixel is red. |
| MosaicImage.NoRedExceedsMean | module/mosaic_image.py:25 | If no non-transparent pixel is at or below s / c, their grey sum exceeds s * (their count) / c. |
| MosaicImage.RedCountPositive | module/mosaic_image.py:25-35 | At least one non-transparent pixel is at or below the mean. |
| MosaicImage.RedWitness | module/mosaic_image.py:35 | It returns the index of a non-transparent pixel at or below the threshold. |
| MosaicImage.SomeOpaquePixelIsRed | module/mosaic_image.py:25-35 | An image with a non-transparent pixel always gets a non-transparent red pixel. |
| MosaicImage.DarkestOpaqueIsRed | module/mosaic_image.py:35 | The darkest non-transparent pixel is red. |
| MosaicImage.PixelsOfRecolorRows | module/mosaic_image.py:35-37 | Recolouring row by row and then listing the pixels equals recolouring the pixel list. |
| MosaicImage.RecoloredStats | module/mosaic_image.py:25-37 | Recolouring keeps the non-transparent count. The grey sum becomes the red level per red pixel plus the skin level per skin pixel. |
| MosaicImage.RecolorStable | module/mosaic_image.py:35-37 | Under the recoloured image's mean, a red pixel stays red and a skin pixel stays skin. |
| MosaicImage.ClassifiedStats | module/mosaic_image.py:25-37 | The classified image has the same non-transparent count and at least one red pixel among those pixels. Its grey sum is the two colours' levels weighted by their counts. |
| MosaicImage.ClassifyIdempotent | module/mosaic_image.py:11-39 | When red is darker than skin, classifying a classified image returns it unchanged. |
| MosaicImage.NewWidthBounds | module/mosaic_image.py:56 | `new_w` is floor(orig_w * 700 / orig_h). |
| MosaicImage.MosaicGeometry | module/mosaic_image.py:52-71 | The sizing succeeds if and only if orig_h > 0 and the scaled width reaches one block; otherwise a resize fails. On success: new_h 700, block 5, mosaic_h 140, new_w the floor of orig_w * 700 / orig_h (Python's true division of two ints is correctly rounded, so for orig_w * 700 below 2^53 `int()` of it is this floor), and mosaic_w = new_w // 5 > 0. |
| MosaicImage.WideEnough | module/mosaic_image.py:67-70 | `mosaic_w` is positive exactly when 5 * orig_h <= orig_w * 700. |
| MosaicImage.Blocky | module/mosaic_image.py:57-71 | The three resizes give a 700-row image of width new_w with the input's channels. |
| MosaicImage.Mosaic | module/mosaic_image.py:42-75 | It fails exactly when the sizing fails. Otherwise a fresh buffer holds the classified blocky image. |
| MosaicImage.NearestIndexByFive | module/mosaic_image.py:70-71 | Scaling n samples up to 5n repeats each sample 5 times. |
| MosaicImage.BlockRowsRepeat | module/mosaic_image.py:66-71 | Each row of the blocky image equals the first row of its 5-row block. |
| MosaicImage.BlockColumnsRepeat | module/mosaic_image.py:67-71 | When new_w is a multiple of 5, each column equals the first column of its 5-column block. |
| MosaicImage.MosaicRowsRepeat | module/mosaic_image.py:70-74 | The mosaic's output keeps the 5-row blocks. |
| OverlayImages.CreateYellowBackground | module/overlay_images.py:15-20 | A valid height x width x 3 raster, every pixel `YELLOW_BGR`. |
| OverlayImages.ScaledWidthBounds | module/overlay_images.py:30-31 | `new_width` is floor(width * 400 / height). It is 0 exactly when width * 400 < height. |
| OverlayImages.Fit | module/overlay_images.py:26-56 | Errors follow the source's order: missing alpha if and only if not 4 channels; zero division if and only if height 0; empty resize if and only if the scaled width is 0. On success: x_start = (W - new_width) // 2 and the side gaps differ by at most 1. The region is rows [50, 450) of the background. Its columns are [x_start, x_end) when the overlay fits. The background has at least 3 channels. |
| OverlayImages.FitSucceeds | module/overlay_images.py:26-56 | The placement succeeds if and only if all of these hold: the overlay is RGBA; it scales to at least one column; it fits across the background or is one column wide; the background reaches row 450 and has at least 3 channels. |
| OverlayImages.WideOverlayIsCut | module/overlay_images.py:44-45 | An overlay wider than the background is cut by the column slice. |
| OverlayImages.DefaultCanvasFits | module/overlay_images.py:9-12 | On the 600 x 1024 x 3 canvas, an RGBA overlay is placed exactly when it scales to 1 to 1024 columns. |
| OverlayImages.Clip | module/overlay_images.py:51 | The clipped value lies in [0, 1], and values already in [0, 1] are kept. |
| OverlayImages.MixBetween | module/overlay_images.py:56 | bg * (1 - a) + fg * a lies between bg and fg for a in [0, 1]. |
| OverlayImages.BlendReal | module/overlay_images.py:56 | The blended float lies between the two samples. |
| OverlayImages.BlendChannel | module/overlay_images.py:56-59 | The truncated blend lies between the two samples. Alpha 0 keeps the background and alpha 1 gives the overlay. |
| OverlayImages.TruncBetween | module/overlay_images.py:59 | `astype(np.uint8)` of a value between two samples lies between them. |
| OverlayImages.Resized | module/overlay_images.py:35 | The resized overlay is a valid raster of 400 rows and new_width columns. |
| OverlayImages.Placed | module/overlay_images.py:42-45 | The placement of a successful fit, over an overlay of positive size. |
| OverlayImages.AlphaAt | module/overlay_images.py:48-51 | The feathered alpha lies in [0, 1]. |
| OverlayImages.Blend | module/overlay_images.py:54-59 | The blended background has the background's shape. |
| OverlayImages.Composite | module/overlay_images.py:22-60 | The composite has the background's shape. |
| OverlayImages.CompositePixel | module/overlay_images.py:54-59 | Outside the region, and in channels past the third, nothing changes. Inside, each colour channel lies between the background and overlay samples, keeps the background at alpha 0 and takes the overlay at alpha 1. |
| OverlayImages.HardEdges | module/overlay_images.py:48-59 | Without feathering, an opaque overlay pixel replaces the colour and a transparent one leaves the background. |
| OverlayImages.OverlayWithFeatheredEdges | module/overlay_images.py:22-60 | It fails exactly when the placement fails, with the same error, and leaves the background untouched. On success it returns the background, now holding `Composite` of its old value. |
| OverlayImages.BlendRegion | module/overlay_images.py:54-59 | It raises the loop's error, leaving the background unchanged. Otherwise the background becomes `Blend` of its old value. |
| OverlayImages.CopyRegion | module/overlay_images.py:54 | A fresh float buffer holding the region's samples. |
| OverlayImages.BlendChannels | module/overlay_images.py:55-56 | It raises the error one of the three passes raises. Otherwise channels 0 to 2 of the region hold the blend, and later channels are unchanged. |
| OverlayImages.WriteBack | module/overlay_images.py:59 | The region receives the truncated float buffer, and every other sample is unchanged. |
| OverlayImages.RegionHoldsSamples | module/overlay_images.py:56-59 | Every blended float truncates to a byte. |
| OverlayImages.RegionAfterIsSample | module/overlay_images.py:55-56 | Every sample of the region buffer, after any number of passes, truncates to a byte. |
| OverlayImages.WrittenBackIsBlend | module/overlay_images.py:59 | After the write-back, the background holds `Blend`. |
| OverlayImages.RegionSampleIsBlend | module/overlay_images.py:54-59 | Inside the region, the truncated float sample is the blended sample. |

## Left out

Not modelled at all:
- `module/radian_background.py`, `module/background.py` (`create_image`), `overlay_images()` and the `__main__` block of `module/overlay_images.py`, `app.py`, `process_image.py` and `static/js/scripts.js`. They are not part of this model: they are I/O glue and the background generator.
- MediaPipe's segmentation and face mesh are parameters. The conversion of landmark coordinates to whole pixels (`int(landmark.x * width)`) and the chin row are taken as given in `Face`. Opening and closing the detectors is resource handling and is left out.
- OpenCV's colour conversions are written out as channel permutations. The grey conversion and the Gaussian blur are parameters. The blur's kernel-size check on `blur_radius` is left out.
- `print`, the files `cv2.imwrite` writes and the exception re-raise are I/O or control plumbing and are left out. The one error `cv2.imwrite` adds, its refusal of an empty crop at line 78, is modelled as `EmptyCrop`.

Inputs outside the modelled shapes:
- A 1-D input and arrays of more than 3 dimensions are not modelled.
- A 2-D background, and a 2-D overlay (which raises at `overlay.shape[2]`), are not modelled.

Stated weaker or narrower than the source:
- Images.ResizeNearest: OpenCV's `INTER_NEAREST` is assumed to pick floor(i * n / m). OpenCV's rounding of the scale factor at sizes where it differs is not modelled.
- ExtractFace.BottomY: `chin_y + face_height * 0.2` is computed in float64, where 0.2 is not exactly one fifth. The model uses exact reals, so `bottom_y` can be one less than the source's where the float sum rounds up to an integer.
- ExtractFace.Crop: numpy returns a view that aliases the matted buffer. The model returns a copy, so aliasing is not captured.
- OverlayImages.ScaledWidthBounds: the source computes `int(width * (400 / height))` in floating point. The model uses the exact floor, which can differ by one where the float product rounds below an integer.
- OverlayImages.BlendChannels: the float32 region and the float64 alpha are exact reals. Rounding is not modelled.
- MosaicImage.Mosaic: requires a 4-channel input. With fewer channels the source raises while indexing alpha. With more, the extra channels of the result stay 0; this is not modelled.
- ExtractFace.Extract: for an input with no rows or no columns, OpenCV's colour conversion raises at once. The model goes on, and such an input still ends in an error, but in `NoFaceDetected`, `NoLandmarks` or `EmptyCrop` rather than in OpenCV's.
- MosaicImage.ClassifyRedAndSkin: the mean is compared exactly, as gray * count <= sum, not as a rounded float64 mean.
- MosaicImage.ClassifyRedAndSkin: OpenCV's grey conversion (module/mosaic_image.py:22) raises on an image with no rows or no columns. The model classifies such an image to an empty buffer. `Mosaic` never passes one, since its blocky image is 700 rows by at least 5 columns.
- OverlayImages.WriteBack: the write-back is a `forall` over every sample that leaves samples outside the region with their own value. This is equivalent to the slice assignment of line 59.
