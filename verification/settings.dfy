/** The settings loaded at start and saved at exit: the persisted record,
    and the values derived from it when it is loaded. */
module Settings {
  import opened Wrappers
  import opened Ints
  import Numeric
  import Color
  import LegacyImage
  import LegacyHotkey

  const DEFAULT_OFFSET_X: i32 := 0
  const DEFAULT_OFFSET_Y: i32 := 0
  const DEFAULT_SIZE: u32 := 4
  const DEFAULT_FPS: u32 := 60
  /** Red at 70% alpha. */
  const DEFAULT_COLOR: u32 := 0xB2FF0000

  /** A file path; only whether it is empty matters here. */
  type Path = string

  /** A decoded image: its size and ARGB pixels. */
  datatype Image = Image(width: u32, height: u32, data: seq<u32>)

  /** Why reading or decoding an image failed. */
  datatype IoError = IoError(message: string)

  /** What is written to and read from the configuration file. A missing
      frame rate reads as the default, and missing key bindings as the
      default bindings. */
  datatype PersistedSettings = PersistedSettings(
    windowDx: i32,
    windowDy: i32,
    windowWidth: u32,
    windowHeight: u32,
    color: u32,
    fps: u32,
    imagePath: Option<Path>,
    keyBindings: LegacyHotkey.KeyBindings)

  /** The settings of a fresh install: the window at the origin, 4 by 4,
      red at 70% alpha, 60 frames a second, no image, default bindings. */
  function DefaultPersisted(): (p: PersistedSettings)
    ensures p.fps != 0 && p.imagePath.None?
  {
    PersistedSettings(DEFAULT_OFFSET_X, DEFAULT_OFFSET_Y, DEFAULT_SIZE, DEFAULT_SIZE, DEFAULT_COLOR, DEFAULT_FPS,
                      None, LegacyHotkey.DefaultKeyBindings())
  }

  /** The persisted settings and what is derived from them: the colour as
      drawn, the crosshair image if any, and the frame interval in
      milliseconds. */
  datatype Settings = Settings(persisted: PersistedSettings, color: u32, image: Option<Image>, tickInterval: u64)

  /** The image path to load, if any: an empty path counts as none. */
  function ImagePathToLoad(p: PersistedSettings): (path: Option<Path>)
    ensures path.Some? <==> p.imagePath.Some? && p.imagePath.value != []
    ensures path.Some? ==> path.value == p.imagePath.value
  {
    match p.imagePath
    case Some(path) => if path == [] then None else Some(path)
    case None => None
  }

  /** Derive the loaded settings. The colour is premultiplied as the
      platform needs; the image comes from `loadPng`, and a failure to load
      it is dropped in favour of no image; the frame interval is the
      ceiling of 1000 over the frame rate, which must not be zero. */
  function Load(platform: Color.Platform, p: PersistedSettings, loadPng: Path -> Result<Image, IoError>): (s: Settings)
    requires p.fps != 0
    ensures s.persisted == p
    ensures s.color == LegacyImage.PremultiplyAlpha(platform, p.color)
    ensures s.image.Some? <==> ImagePathToLoad(p).Some? && loadPng(ImagePathToLoad(p).value).Success?
    ensures s.image.Some? ==> s.image.value == loadPng(ImagePathToLoad(p).value).value
    ensures Numeric.IsCeilQuotient(1000, p.fps as int, s.tickInterval as int)
  {
    var image := match ImagePathToLoad(p)
      case Some(path) => (match loadPng(path) case Success(img) => Some(img) case Failure(_) => None)
      case None => None;
    Settings(p, LegacyImage.PremultiplyAlpha(platform, p.color), image, Numeric.FpsToTickInterval(p.fps))
  }

  /** The settings used when no configuration file exists. */
  function DefaultSettings(platform: Color.Platform): (s: Settings)
    ensures s.persisted == DefaultPersisted() && s.image.None?
  {
    Settings(DefaultPersisted(), LegacyImage.PremultiplyAlpha(platform, DEFAULT_COLOR), None,
             Numeric.FpsToTickInterval(DEFAULT_FPS))
  }

  /** The defaults are what loading the default persisted settings gives,
      whatever the image loader would do; on Windows the colour is
      premultiplied to `0xB2B20000`, elsewhere it stays `0xB2FF0000`; the
      frame interval is 17 ms. */
  lemma DefaultIsLoadedDefault(platform: Color.Platform, loadPng: Path -> Result<Image, IoError>)
    ensures Load(platform, DefaultPersisted(), loadPng) == DefaultSettings(platform)
    ensures DefaultSettings(platform).color == if platform.Windows? then 0xB2B20000 else 0xB2FF0000
    ensures DefaultSettings(platform).tickInterval == 17
  {
    Numeric.SixtyFps();
    DefaultColorPremultiplied(platform);
  }

  lemma DefaultColorPremultiplied(platform: Color.Platform)
    ensures LegacyImage.PremultiplyAlpha(platform, DEFAULT_COLOR) == if platform.Windows? then 0xB2B20000 else 0xB2FF0000
  {
    var b := Color.Bytes(0, 0, 0xFF, 0xB2);
    Color.BytesRoundTrip(b);
    assert Color.FromLeBytes(b) == DEFAULT_COLOR;
    assert LegacyImage.TruncatedMultiply(0xFF, 0xB2) == 0xB2;
    assert LegacyImage.TruncatedMultiply(0, 0xB2) == 0;
    Color.BytesRoundTrip(Color.Bytes(0, 0, 0xB2, 0xB2));
  }

  /** The window size: the image's when there is one, the persisted size
      otherwise. */
  function Size(s: Settings): (size: (u32, u32))
    ensures s.image.Some? ==> size == (s.image.value.width, s.image.value.height)
    ensures s.image.None? ==> size == (s.persisted.windowWidth, s.persisted.windowHeight)
  {
    match s.image
    case Some(image) => (image.width, image.height)
    case None => (s.persisted.windowWidth, s.persisted.windowHeight)
  }

  /** Only a plain crosshair, not an image, can be resized. */
  predicate IsScalable(s: Settings)
  {
    s.image.None?
  }

  /** Resizing is possible exactly when the size comes from the persisted
      width and height. */
  lemma ScalableUsesPersistedSize(s: Settings)
    ensures IsScalable(s) <==> s.image.None?
    ensures IsScalable(s) ==> Size(s) == (s.persisted.windowWidth, s.persisted.windowHeight)
  {
  }

  /** Put back the settings the user can change in the app: the offset,
      the size and the image. Colour, frame rate and key bindings, which
      only the configuration file can change, stay. */
  function Reset(s: Settings): (r: Settings)
    ensures r.persisted.windowDx == DEFAULT_OFFSET_X && r.persisted.windowDy == DEFAULT_OFFSET_Y
    ensures r.persisted.windowWidth == DEFAULT_SIZE && r.persisted.windowHeight == DEFAULT_SIZE
    ensures r.persisted.imagePath.None? && r.image.None?
    ensures r.persisted.color == s.persisted.color && r.persisted.fps == s.persisted.fps
    ensures r.persisted.keyBindings == s.persisted.keyBindings
    ensures r.color == s.color && r.tickInterval == s.tickInterval
  {
    var p := s.persisted.(windowDx := DEFAULT_OFFSET_X, windowDy := DEFAULT_OFFSET_Y, windowWidth := DEFAULT_SIZE,
                          windowHeight := DEFAULT_SIZE, imagePath := None);
    s.(persisted := p, image := None)
  }

  /** After a reset the crosshair is scalable again and 4 by 4, and a
      second reset changes nothing. */
  lemma ResetFacts(s: Settings)
    ensures IsScalable(Reset(s)) && Size(Reset(s)) == (DEFAULT_SIZE, DEFAULT_SIZE)
    ensures Reset(Reset(s)) == Reset(s)
  {
  }

  /** Load an image chosen at run time. On success the image fixes the
      window to its size and stops resizing, the path is saved so that the
      next start loads it again (unless it is empty), and everything a
      reset keeps, as well as the window offset and saved size, stays; on
      failure the error is returned and nothing changes. */
  function LoadPng(s: Settings, path: Path, loadPng: Path -> Result<Image, IoError>): (r: (Settings, Result<(), IoError>))
    ensures loadPng(path).Failure? ==> r == (s, Failure(loadPng(path).error))
    ensures loadPng(path).Success? ==>
              var t, image := r.0, loadPng(path).value;
              && r.1 == Success(())
              && t.image == Some(image) && Size(t) == (image.width, image.height) && !IsScalable(t)
              && t.persisted.imagePath == Some(path)
              && ImagePathToLoad(t.persisted) == (if path == [] then None else Some(path))
              && Reset(t) == Reset(s)
              && t.persisted.windowDx == s.persisted.windowDx && t.persisted.windowDy == s.persisted.windowDy
              && t.persisted.windowWidth == s.persisted.windowWidth
              && t.persisted.windowHeight == s.persisted.windowHeight
  {
    match loadPng(path)
    case Failure(e) => (s, Failure(e))
    case Success(image) => (s.(persisted := s.persisted.(imagePath := Some(path)), image := Some(image)), Success(()))
  }

  /** A loaded image fixes the window to its size and stops resizing; a
      reset undoes it. */
  lemma LoadPngThenReset(s: Settings, path: Path, loadPng: Path -> Result<Image, IoError>)
    requires loadPng(path).Success?
    ensures var t := LoadPng(s, path, loadPng).0;
            !IsScalable(t) && Size(t) == (loadPng(path).value.width, loadPng(path).value.height)
    ensures Reset(LoadPng(s, path, loadPng).0) == Reset(s)
  {
  }

  /** A non-empty image path that the loader accepts, when the settings
      are loaded again, gives back the image it named. */
  lemma LoadedPathReloads(platform: Color.Platform, s: Settings, path: Path,
                          loadPng: Path -> Result<Image, IoError>)
    requires s.persisted.fps != 0 && path != [] && loadPng(path).Success?
    ensures var t := LoadPng(s, path, loadPng).0;
            Load(platform, t.persisted, loadPng).image == t.image
  {
  }
}
