/** `ScrapingConfig` of `core/config.py`: the scraper's settings with their
    defaults, and `__post_init__`, which fills in the two pattern lists a
    caller left as `None`. */
module Config {
  import opened Wrappers

  const DefaultNumberOfImages := 10
  const DefaultMaxMissed := 10
  const DefaultMinResolution: (int, int) := (0, 0)
  const DefaultMaxResolution: (int, int) := (9999, 9999)
  const DefaultImageSaveFormat := "jpg"
  /** 5.0 seconds. */
  const DefaultTimeoutSeconds: real := 5.0
  const DefaultScrollAttempts := 3
  /** Milliseconds. */
  const DefaultClickTimeout := 3000

  /** The thumbnail patterns `__post_init__` installs, in this order. */
  const DefaultThumbnailPatterns: seq<string> :=
    ["encrypted-tbn", "logo", "favicon", "/s90/", "/s100/", "/s150/", "=s64", "=s90", "=s100"]
  const DefaultLogoPatterns: seq<string> := ["logo", "favicon"]

  /** The value a pattern field has after `__post_init__`. */
  function PatternsOrDefault(given: Option<seq<string>>, default: seq<string>): (r: seq<string>)
    ensures given.Some? ==> r == given.value
    ensures given.None? ==> r == default
  {
    match given
    case Some(p) => p
    case None => default
  }

  class ScrapingConfig {
    var numberOfImages: int
    var maxMissed: int
    var headless: bool
    var minResolution: (int, int)
    var maxResolution: (int, int)
    var keepFilenames: bool
    var imageSaveFormat: string
    var timeoutSeconds: real
    var scrollAttempts: int
    var clickTimeout: int
    var photosDir: string
    var jsonDir: string
    var thumbnailPatterns: Option<seq<string>>
    var logoPatterns: Option<seq<string>>

    /** `ScrapingConfig()`: every field at its default. */
    constructor Default()
      ensures numberOfImages == DefaultNumberOfImages && maxMissed == DefaultMaxMissed
      ensures headless && !keepFilenames
      ensures minResolution == DefaultMinResolution && maxResolution == DefaultMaxResolution
      ensures imageSaveFormat == DefaultImageSaveFormat && timeoutSeconds == DefaultTimeoutSeconds
      ensures scrollAttempts == DefaultScrollAttempts && clickTimeout == DefaultClickTimeout
      ensures photosDir == "photos" && jsonDir == "google_search"
      ensures thumbnailPatterns == Some(DefaultThumbnailPatterns)
      ensures logoPatterns == Some(DefaultLogoPatterns)
    {
      numberOfImages := DefaultNumberOfImages;
      maxMissed := DefaultMaxMissed;
      headless := true;
      minResolution := DefaultMinResolution;
      maxResolution := DefaultMaxResolution;
      keepFilenames := false;
      imageSaveFormat := DefaultImageSaveFormat;
      timeoutSeconds := DefaultTimeoutSeconds;
      scrollAttempts := DefaultScrollAttempts;
      clickTimeout := DefaultClickTimeout;
      photosDir := "photos";
      jsonDir := "google_search";
      thumbnailPatterns := None;
      logoPatterns := None;
      new;
      PostInit();
    }

    /** The generated `__init__` with every field given, followed by
        `__post_init__`. */
    constructor (numberOfImages: int, maxMissed: int, headless: bool,
                 minResolution: (int, int), maxResolution: (int, int),
                 keepFilenames: bool, imageSaveFormat: string, timeoutSeconds: real,
                 scrollAttempts: int, clickTimeout: int, photosDir: string, jsonDir: string,
                 thumbnailPatterns: Option<seq<string>>, logoPatterns: Option<seq<string>>)
      ensures this.numberOfImages == numberOfImages && this.maxMissed == maxMissed
      ensures this.headless == headless && this.keepFilenames == keepFilenames
      ensures this.minResolution == minResolution && this.maxResolution == maxResolution
      ensures this.imageSaveFormat == imageSaveFormat && this.timeoutSeconds == timeoutSeconds
      ensures this.scrollAttempts == scrollAttempts && this.clickTimeout == clickTimeout
      ensures this.photosDir == photosDir && this.jsonDir == jsonDir
      ensures this.thumbnailPatterns == Some(PatternsOrDefault(thumbnailPatterns, DefaultThumbnailPatterns))
      ensures this.logoPatterns == Some(PatternsOrDefault(logoPatterns, DefaultLogoPatterns))
    {
      this.numberOfImages := numberOfImages;
      this.maxMissed := maxMissed;
      this.headless := headless;
      this.minResolution := minResolution;
      this.maxResolution := maxResolution;
      this.keepFilenames := keepFilenames;
      this.imageSaveFormat := imageSaveFormat;
      this.timeoutSeconds := timeoutSeconds;
      this.scrollAttempts := scrollAttempts;
      this.clickTimeout := clickTimeout;
      this.photosDir := photosDir;
      this.jsonDir := jsonDir;
      this.thumbnailPatterns := thumbnailPatterns;
      this.logoPatterns := logoPatterns;
      new;
      PostInit();
    }

    /** `__post_init__`: a missing pattern list gets its default; a list the
        caller supplied, and every other field, is left as it was. */
    method PostInit()
      modifies this
      ensures thumbnailPatterns == Some(PatternsOrDefault(old(thumbnailPatterns), DefaultThumbnailPatterns))
      ensures logoPatterns == Some(PatternsOrDefault(old(logoPatterns), DefaultLogoPatterns))
      ensures numberOfImages == old(numberOfImages) && maxMissed == old(maxMissed)
      ensures headless == old(headless) && keepFilenames == old(keepFilenames)
      ensures minResolution == old(minResolution) && maxResolution == old(maxResolution)
      ensures imageSaveFormat == old(imageSaveFormat) && timeoutSeconds == old(timeoutSeconds)
      ensures scrollAttempts == old(scrollAttempts) && clickTimeout == old(clickTimeout)
      ensures photosDir == old(photosDir) && jsonDir == old(jsonDir)
    {
      if thumbnailPatterns.None? {
        thumbnailPatterns := Some(DefaultThumbnailPatterns);
      }
      if logoPatterns.None? {
        logoPatterns := Some(DefaultLogoPatterns);
      }
    }
  }
}
