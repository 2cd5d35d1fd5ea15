/** The `VideoCapture(file_path)` wrapper: it classifies a source identifier by the text
    after its last '.', then by whether it is a webcam number, and picks the reader.
    The readers themselves are out of this module; its result is the tag of the reader
    that would be built and the argument it would be built from. */
module Dispatch {
  import opened Text

  /** The reader `VideoCapture` builds, with the argument handed to it. */
  datatype Source =
    | Webp(path: string)        // WebpFrames(file_path)
    | Gif(path: string)         // GifFrames(file_path)
    | Png(path: string)         // PngFrames(file_path)
    | VideoFile(path: string)   // cv2.VideoCapture(file_path) on a video file
    | Webcam(index: nat)        // cv2.VideoCapture(int(file_path))
    | Url(url: string)          // cv2.VideoCapture(file_path) on a stream URL

  /** The allow-list of video container extensions, compared case-sensitively. */
  const VideoExtensions: seq<string> := ["mp4", "avi", "mpeg", "wmv", "asf", "mov"]

  /** Every extension that is decided before the webcam test. */
  predicate IsKnownExtension(ext: string)
  {
    ext == "webp" || ext == "gif" || ext == "png" || ext in VideoExtensions
  }

  /** `file_path.split('.')[-1]`: the text after the last '.', or the whole path when it
      has no '.'. */
  function Extension(path: string): (ext: string)
    ensures '.' !in ext
    ensures |ext| <= |path| && path[|path| - |ext|..] == ext
    ensures '.' !in path <==> ext == path
    ensures '.' in path ==> |ext| < |path| && path[|path| - |ext| - 1] == '.'
  {
    LastPieceIsSuffix(path, '.');
    var parts := Split(path, '.');
    parts[|parts| - 1]
  }

  /** The classification made by `VideoCapture(file_path)`. The branches are tried in
      the source's order, so an extension wins over the webcam test. */
  function VideoCapture(filePath: string): (cap: Source)
    ensures cap.Webcam? ==> IsDigits(filePath) && cap.index == DecimalValue(filePath)
    ensures cap.Url? ==> cap.url == filePath
    ensures !cap.Webcam? && !cap.Url? ==> cap.path == filePath
  {
    var fileType := Extension(filePath);
    if fileType == "webp" then Webp(filePath)
    else if fileType == "gif" then Gif(filePath)
    else if fileType == "png" then Png(filePath)
    else if fileType in VideoExtensions then VideoFile(filePath)
    else if IsDigits(filePath) then Webcam(DecimalValue(filePath))
    else Url(filePath)
  }

  /** A '.'-free tail after the last '.' is the extension, whatever comes before. */
  lemma ExtensionAfterLastDot(stem: string, ext: string)
    requires '.' !in ext
    ensures Extension(stem + "." + ext) == ext
  {
    var path := stem + "." + ext;
    var got := Extension(path);
    assert path[|stem|] == '.';
    assert path[|stem| + 1..] == ext;
  }

  /** The three animated-image extensions win over everything after them: `"0.gif"`
      is a GIF even though its stem is a webcam number. */
  lemma AnimatedExtensionWins(stem: string)
    ensures VideoCapture(stem + ".webp") == Webp(stem + ".webp")
    ensures VideoCapture(stem + ".gif") == Gif(stem + ".gif")
    ensures VideoCapture(stem + ".png") == Png(stem + ".png")
  {
    ExtensionAfterLastDot(stem, "webp");
    assert stem + "." + "webp" == stem + ".webp";
    ExtensionAfterLastDot(stem, "gif");
    assert stem + "." + "gif" == stem + ".gif";
    ExtensionAfterLastDot(stem, "png");
    assert stem + "." + "png" == stem + ".png";
  }

  /** Any name ending in one of the six video extensions opens as a video file. */
  lemma VideoExtensionGivesFile(stem: string, ext: string)
    requires ext in VideoExtensions
    ensures VideoCapture(stem + "." + ext) == VideoFile(stem + "." + ext)
  {
    assert ext == "mp4" || ext == "avi" || ext == "mpeg" || ext == "wmv" || ext == "asf" || ext == "mov";
    assert ext != "webp" && ext != "gif" && ext != "png";
    assert '.' !in ext;
    ExtensionAfterLastDot(stem, ext);
  }

  /** A bare video extension, such as `"mp4"`, has no dot, is its own extension and so
      opens as a video file too. */
  lemma BareVideoExtensionGivesFile(ext: string)
    requires ext in VideoExtensions
    ensures VideoCapture(ext) == VideoFile(ext)
  {
    assert ext == "mp4" || ext == "avi" || ext == "mpeg" || ext == "wmv" || ext == "asf" || ext == "mov";
    assert ext != "webp" && ext != "gif" && ext != "png";
    assert '.' !in ext;
    assert Extension(ext) == ext;
  }

  /** The webcam branch is taken exactly for the non-empty all-digit strings, and the
      camera index is their decimal value. */
  lemma WebcamIffDigits(s: string)
    ensures VideoCapture(s).Webcam? <==> IsDigits(s)
    ensures IsDigits(s) ==> VideoCapture(s) == Webcam(DecimalValue(s))
  {
    if IsDigits(s) {
      assert s[0] != '.';
      assert '.' !in s;
      assert Extension(s) == s;
      assert !IsDigitChar('w') && !IsDigitChar('g') && !IsDigitChar('p') && !IsDigitChar('m');
      assert !IsDigitChar('a') && !IsDigitChar('a');
      assert !IsKnownExtension(s) by {
        assert s[0] != 'w' && s[0] != 'g' && s[0] != 'p' && s[0] != 'm' && s[0] != 'a';
      }
    }
  }

  /** The URL branch is the catch-all: it takes exactly the identifiers that neither
      carry a known extension nor are a webcam number. */
  lemma UrlIsCatchAll(s: string)
    ensures VideoCapture(s).Url? <==> !IsKnownExtension(Extension(s)) && !IsDigits(s)
  {
  }

  /** Which source an identifier opens is decided by the extension first, each known
      extension naming its own reader, and by the digit test second. */
  lemma ClassificationOrder(s: string)
    ensures Extension(s) == "webp" ==> VideoCapture(s) == Webp(s)
    ensures Extension(s) == "gif" ==> VideoCapture(s) == Gif(s)
    ensures Extension(s) == "png" ==> VideoCapture(s) == Png(s)
    ensures Extension(s) in VideoExtensions ==> VideoCapture(s) == VideoFile(s)
    ensures !IsKnownExtension(Extension(s)) ==>
      VideoCapture(s) == (if IsDigits(s) then Webcam(DecimalValue(s)) else Url(s))
  {
  }

  /** A webcam numbered `n` is reached by the decimal numeral of `n`, and leading
      zeros name the same camera. */
  lemma {:induction false} WebcamNumeral(n: nat)
    ensures VideoCapture(DecimalString(n)) == Webcam(n)
    ensures VideoCapture("0" + DecimalString(n)) == Webcam(n)
  {
    var s := DecimalString(n);
    WebcamIffDigits(s);
    DecimalRoundTrip(n);
    var z := "0" + s;
    assert IsDigits(z) by {
      forall i | 0 <= i < |z| ensures IsDigitChar(z[i]) {
        if i > 0 { assert z[i] == s[i - 1]; }
      }
    }
    WebcamIffDigits(z);
    LeadingZero(s);
  }

  /** Edge-case identifiers, each in its category (each example is a parameter pinned
      by a requires, so the proof goes through the general lemmas). */
  lemma ExampleGifWithDigitStem(path: string)
    requires path == "0.gif"
    ensures VideoCapture(path) == Gif(path)
  {
    AnimatedExtensionWins("0");
  }

  lemma ExampleWebp(path: string)
    requires path == "icon.webp"
    ensures VideoCapture(path) == Webp(path)
  {
    AnimatedExtensionWins("icon");
  }

  lemma ExampleBareExtension(path: string)
    requires path == "gif"
    ensures VideoCapture(path) == Gif(path)
  {
    assert '.' !in path;
  }

  lemma ExampleVideoFile(path: string)
    requires path == "clip.mp4"
    ensures VideoCapture(path) == VideoFile(path)
  {
    assert path == "clip" + "." + "mp4";
    VideoExtensionGivesFile("clip", "mp4");
  }

  lemma ExampleCaseSensitive(path: string)
    requires path == "a.GIF"
    ensures VideoCapture(path) == Url(path)
  {
    assert path == "a" + "." + "GIF";
    ExtensionAfterLastDot("a", "GIF");
    assert !IsKnownExtension("GIF");
    assert !IsDigitChar(path[0]);
  }

  lemma ExampleDecimalPoint(path: string)
    requires path == "1.5"
    ensures VideoCapture(path) == Url(path)
  {
    assert path == "1" + "." + "5";
    ExtensionAfterLastDot("1", "5");
    assert !IsKnownExtension("5");
    assert !IsDigitChar(path[1]);
  }

  lemma ExampleUrl(path: string)
    requires path == "rtsp://h/feed"
    ensures VideoCapture(path) == Url(path)
  {
    assert '.' !in path;
    assert Extension(path) == path;
    assert !IsKnownExtension(path) by { assert |path| > 4; }
    assert !IsDigitChar(path[0]);
  }

  lemma ExampleEmpty(path: string)
    requires path == ""
    ensures VideoCapture(path) == Url(path)
  {
    assert Extension(path) == path;
    assert !IsKnownExtension(path) && !IsDigits(path);
  }

  lemma ExampleWebcamZero(path: string)
    requires path == "0"
    ensures VideoCapture(path) == Webcam(0)
  {
    WebcamNumeral(0);
  }
}
