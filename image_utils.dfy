/** Crop geometry of `getCroppedImage` (utils/imageUtils.ts): a crop drawn
    over the displayed image is scaled, axis by axis, to the image's natural
    pixels, checked for zero size, and copied one-to-one onto a canvas of the
    same size that is encoded as PNG. Canvas state is not modelled: the
    values the canvas steps receive are computed instead, and whether a 2D
    context and a blob were obtained is an input. Arithmetic is exact. */
module ImageUtils {
  import opened Wrappers

  const ZeroCropMessage := "Crop dimensions cannot be zero."
  const NoContextMessage := "Could not get canvas context."
  const EmptyCanvasMessage := "Canvas is empty"
  const PngMimeType := "image/png"

  /** The unit a crop selection says it is in; the cropping code ignores it. */
  datatype CropUnit = Px | Percent

  /** A crop selection: its fields are read as displayed-image pixels. */
  datatype Crop = Crop(unit: CropUnit, x: real, y: real, width: real, height: real)

  /** An image element: its laid-out (displayed) size and its natural size. */
  datatype ImageElement = ImageElement(width: real, height: real, naturalWidth: real, naturalHeight: real)

  datatype Rect = Rect(x: real, y: real, width: real, height: real)

  /** The arguments of the nine-argument `drawImage`: source and destination rectangles. */
  datatype DrawCall = DrawCall(source: Rect, dest: Rect)

  /** What the browser supplies: whether `getContext('2d')` gave a context and
      whether `toBlob` produced a blob. */
  datatype CanvasEnv = CanvasEnv(hasContext: bool, blobProduced: bool)

  /** The resulting `File`, with the canvas size and the draw call that filled it. */
  datatype CroppedFile = CroppedFile(name: string, mimeType: string, canvasWidth: real, canvasHeight: real, draw: DrawCall)

  /** The displayed image has been laid out with a non-zero size. */
  predicate Displayed(image: ImageElement)
  {
    image.width > 0.0 && image.height > 0.0
  }

  function ScaleX(image: ImageElement): (r: real)
    requires Displayed(image)
    ensures r * image.width == image.naturalWidth
  {
    image.naturalWidth / image.width
  }

  function ScaleY(image: ImageElement): (r: real)
    requires Displayed(image)
    ensures r * image.height == image.naturalHeight
  {
    image.naturalHeight / image.height
  }

  /** The crop in natural-image pixels: each field times its axis' scale. */
  function PixelCrop(image: ImageElement, crop: Crop): Rect
    requires Displayed(image)
  {
    Rect(crop.x * ScaleX(image), crop.y * ScaleY(image),
         crop.width * ScaleX(image), crop.height * ScaleY(image))
  }

  /** `getCroppedImage`: the zero-size check comes first, then the context,
      then the blob; on success the canvas has the pixel crop's size, the
      pixel crop is copied to (0, 0) at the same size, and the file is a
      PNG with the requested name. */
  function GetCroppedImage(image: ImageElement, crop: Crop, fileName: string, env: CanvasEnv)
    : (r: Result<CroppedFile, string>)
    requires Displayed(image)
    ensures r.Ok? ==> r.value.name == fileName && r.value.mimeType == PngMimeType
    ensures r.Ok? ==> r.value.canvasWidth != 0.0 && r.value.canvasHeight != 0.0
    ensures r.Ok? ==> r.value.draw.dest == Rect(0.0, 0.0, r.value.canvasWidth, r.value.canvasHeight)
    ensures r.Ok? ==> (r.value.draw.source.width == r.value.draw.dest.width
                       && r.value.draw.source.height == r.value.draw.dest.height)
  {
    var px := PixelCrop(image, crop);
    if px.width == 0.0 || px.height == 0.0 then Err(ZeroCropMessage)
    else if !env.hasContext then Err(NoContextMessage)
    else if !env.blobProduced then Err(EmptyCanvasMessage)
    else Ok(CroppedFile(fileName, PngMimeType, px.width, px.height,
                        DrawCall(px, Rect(0.0, 0.0, px.width, px.height))))
  }

  /** The scale factors are natural size over displayed size, and each pixel
      field stands to its crop field as the natural size to the displayed one. */
  lemma PixelCropProportional(image: ImageElement, crop: Crop)
    requires Displayed(image)
    ensures ScaleX(image) * image.width == image.naturalWidth
    ensures ScaleY(image) * image.height == image.naturalHeight
    ensures PixelCrop(image, crop).x * image.width == crop.x * image.naturalWidth
    ensures PixelCrop(image, crop).y * image.height == crop.y * image.naturalHeight
    ensures PixelCrop(image, crop).width * image.width == crop.width * image.naturalWidth
    ensures PixelCrop(image, crop).height * image.height == crop.height * image.naturalHeight
  {
  }

  /** Shown at natural size, the pixel crop is the crop itself. */
  lemma NaturalSizeIsIdentity(image: ImageElement, crop: Crop)
    requires Displayed(image)
    requires image.width == image.naturalWidth && image.height == image.naturalHeight
    ensures PixelCrop(image, crop) == Rect(crop.x, crop.y, crop.width, crop.height)
  {
  }

  /** Dividing the pixel crop by the scales gives the crop back (when the
      image has a natural size). */
  lemma PixelCropInverse(image: ImageElement, crop: Crop)
    requires Displayed(image) && image.naturalWidth > 0.0 && image.naturalHeight > 0.0
    ensures var px := PixelCrop(image, crop);
            px.x / ScaleX(image) == crop.x && px.y / ScaleY(image) == crop.y
            && px.width / ScaleX(image) == crop.width && px.height / ScaleY(image) == crop.height
  {
  }

  /** The scaled width or height is zero exactly when the crop's is or the
      image's natural one is. */
  lemma ZeroScaledIff(image: ImageElement, crop: Crop)
    requires Displayed(image)
    ensures PixelCrop(image, crop).width == 0.0 <==> (crop.width == 0.0 || image.naturalWidth == 0.0)
    ensures PixelCrop(image, crop).height == 0.0 <==> (crop.height == 0.0 || image.naturalHeight == 0.0)
  {
  }

  /** A zero-size crop is rejected with the zero-size message whatever the
      browser would have supplied: the check runs before any canvas work. */
  lemma ZeroCropRejectedFirst(image: ImageElement, crop: Crop, fileName: string, env: CanvasEnv)
    requires Displayed(image)
    requires crop.width == 0.0 || crop.height == 0.0
    ensures GetCroppedImage(image, crop, fileName, env) == Err(ZeroCropMessage)
  {
  }

  /** The outcome in every case: success exactly when the size is non-zero
      and the browser supplied both a context and a blob; otherwise the
      error of the first check that failed. */
  lemma CroppedImageOutcome(image: ImageElement, crop: Crop, fileName: string, env: CanvasEnv)
    requires Displayed(image)
    ensures var r := GetCroppedImage(image, crop, fileName, env);
            var zero := crop.width == 0.0 || image.naturalWidth == 0.0
                        || crop.height == 0.0 || image.naturalHeight == 0.0;
            (zero ==> r == Err(ZeroCropMessage))
            && (!zero && !env.hasContext ==> r == Err(NoContextMessage))
            && (!zero && env.hasContext && !env.blobProduced ==> r == Err(EmptyCanvasMessage))
            && (r.Ok? <==> !zero && env.hasContext && env.blobProduced)
  {
  }

  /** On success the canvas is the natural-pixel size of the crop and the
      draw copies the natural-pixel crop rectangle to the origin, unscaled. */
  lemma CroppedImageGeometry(image: ImageElement, crop: Crop, fileName: string, env: CanvasEnv)
    requires Displayed(image)
    requires GetCroppedImage(image, crop, fileName, env).Ok?
    ensures var f := GetCroppedImage(image, crop, fileName, env).value;
            f.canvasWidth * image.width == crop.width * image.naturalWidth
            && f.canvasHeight * image.height == crop.height * image.naturalHeight
            && f.draw.source.x * image.width == crop.x * image.naturalWidth
            && f.draw.source.y * image.height == crop.y * image.naturalHeight
            && f.draw.source == PixelCrop(image, crop)
  {
  }

  /** The crop's unit plays no part: the result is the same for every unit. */
  lemma UnitIgnored(image: ImageElement, crop: Crop, unit: CropUnit, fileName: string, env: CanvasEnv)
    requires Displayed(image)
    ensures GetCroppedImage(image, crop.(unit := unit), fileName, env) == GetCroppedImage(image, crop, fileName, env)
  {
    assert PixelCrop(image, crop.(unit := unit)) == PixelCrop(image, crop);
  }

  /** A crop lying inside the displayed image maps to a source rectangle
      lying inside the natural image. */
  lemma InsideStaysInside(image: ImageElement, crop: Crop)
    requires Displayed(image) && image.naturalWidth >= 0.0 && image.naturalHeight >= 0.0
    requires 0.0 <= crop.x && 0.0 <= crop.width && crop.x + crop.width <= image.width
    requires 0.0 <= crop.y && 0.0 <= crop.height && crop.y + crop.height <= image.height
    ensures var px := PixelCrop(image, crop);
            0.0 <= px.x && 0.0 <= px.width && px.x + px.width <= image.naturalWidth
            && 0.0 <= px.y && 0.0 <= px.height && px.y + px.height <= image.naturalHeight
  {
  }
}
