/** The image libraries the loader calls (ImageIO, the JavaFX `Image` constructor, AWT
    `BufferedImage`, and the PNG re-encoding bridge between the two) seen from outside: each
    is a function supplied with the environment, and only what the loader checks about its
    results is modelled. */
module ImageApi {
  import opened JavaTypes

  /** A JavaFX `Image`: its size (whole pixels) and its error flag. */
  datatype Image = Image(width: int, height: int, isError: bool)

  /** An AWT `BufferedImage`: its size. */
  datatype BufferedImage = BufferedImage(width: int32, height: int32)

  /** The world outside the loader. */
  datatype Environment = Environment(
    /** The bytes of a class-path resource, or `None` when `getResourceAsStream` gives null. */
    resource: string -> Option<ByteArray>,
    /** `ImageIO.read`: an image, null when no reader accepts the bytes, or an exception. */
    imageIORead: ByteArray -> JResult<BufferedImage>,
    /** `ImageConverter.bufferedImageToJavaFX`: null when the PNG round trip fails. */
    pngBridge: BufferedImage -> Option<Image>,
    /** `new Image(stream)`: JavaFX reports failures through the error flag. */
    javaFxLoad: ByteArray -> Image,
    /** `new BufferedImage(width, height, type)` followed by `setRGB` over the whole image;
        the last argument selects `TYPE_INT_ARGB` over `TYPE_INT_RGB`. */
    createRgbImage: (seq<int32>, int32, int32, bool) -> JResult<BufferedImage>)

  /** `ImageConverter.isValidBufferedImage`. */
  predicate IsValidBufferedImage(image: BufferedImage)
  {
    image.width > 0 && image.height > 0
  }

  /** `AssetManager.validateImage`: a non-null image with a positive size, so one that holds
      at least one pixel. */
  predicate ValidateImage(image: Option<Image>)
    ensures ValidateImage(image) ==> image.Some? && image.value.width * image.value.height >= 1
  {
    image.Some? && image.value.width > 0 && image.value.height > 0
  }

  /** What every loading strategy demands before it caches an image. */
  predicate Usable(image: Image)
  {
    !image.isError && ValidateImage(Some(image))
  }

  /** `RGBImageParser.rgbArrayToJavaFXImage`: null for a non-positive size or an array
      shorter than the 32-bit product `width * height`; otherwise the AWT image built from
      the pixels, bridged to JavaFX. */
  function RgbArrayToJavaFxImage(env: Environment, rgb: seq<int32>, width: int32, height: int32, processAlpha: bool): (r: JResult<Image>)
    ensures r.Ok? ==> width > 0 && height > 0 && |rgb| >= Wrap(width as int * height)
  {
    if width <= 0 || height <= 0 || |rgb| < Wrap(width as int * height) then Null
    else
      match env.createRgbImage(rgb, width, height, processAlpha)
      case Raised => Raised
      case Null => Null
      case Ok(buffered) =>
        match env.pngBridge(buffered)
        case None => Null
        case Some(image) => Ok(image)
  }
}
