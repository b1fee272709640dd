// Media kinds and the names the feed derives from a server path
// (frontend/src/VideoFeed.tsx: getMediaType, the download/share file name
// and the overlay title), plus the start-up check on the server host.

module Media {
  import opened Strings

  /** The three values `getMediaType` returns. */
  datatype Kind = Video | Gif | Image

  /** The lower-cased text after the last '.', as `getMediaType` computes it. */
  function Extension(src: string): string
  {
    Lower(LastPiece(src, '.'))
  }

  /** `getMediaType(src)`: classify a path by its extension. */
  function MediaType(src: string): (k: Kind)
    ensures k == Video <==> Extension(src) in {"mp4", "webm", "ogg"}
    ensures k == Gif <==> Extension(src) == "gif"
  {
    var ext := Extension(src);
    if ext == "" then Image
    else if ext in {"mp4", "webm", "ogg"} then Video
    else if ext in {"gif"} then Gif
    else Image
  }

  /** Classification read off any string that is the text after the last '.'
      of `src` in the independent sense of `IsLastPiece`. */
  lemma MediaTypeByLastPiece(src: string, ext: string)
    requires IsLastPiece(src, '.', ext)
    ensures MediaType(src) == Video <==> Lower(ext) in {"mp4", "webm", "ogg"}
    ensures MediaType(src) == Gif <==> Lower(ext) == "gif"
    ensures MediaType(src) == Image <==> Lower(ext) !in {"mp4", "webm", "ogg", "gif"}
  {
    LastPieceIff(src, '.', ext);
  }

  /** A path without any '.' is classified by the whole path. */
  lemma MediaTypeNoDot(src: string)
    requires '.' !in src
    ensures Extension(src) == Lower(src)
  {
    SplitNoSeparator(src, '.');
  }

  /** A path ending in '.' has an empty extension and is an image. */
  lemma MediaTypeTrailingDot(src: string)
    requires |src| > 0 && src[|src| - 1] == '.'
    ensures Extension(src) == ""
    ensures MediaType(src) == Image
  {
    LastPieceIff(src, '.', "");
  }

  /** Matching ignores letter case. */
  lemma MediaTypeIgnoresCase(src: string)
    ensures Extension(Lower(src)) == Extension(src)
    ensures MediaType(Lower(src)) == MediaType(src)
  {
    LowerLastPiece(src, '.');
    LowerIdempotent(LastPiece(src, '.'));
  }

  /** "a.mp4" is a video. */
  lemma MediaTypeVideoExample()
    ensures MediaType("a.mp4") == Video
  {
    var s := "a.mp4";
    assert IsLastPiece(s, '.', "mp4") by { assert s[2..] == "mp4"; }
    assert Lower("mp4") == "mp4";
    MediaTypeByLastPiece(s, "mp4");
  }

  /** "b.GIF" is a gif: the extension is matched after lower-casing. */
  lemma MediaTypeGifExample()
    ensures MediaType("b.GIF") == Gif
  {
  }

  /** "c" has no extension and "d.heic" an unknown one: both are images. */
  lemma MediaTypeImageExamples()
    ensures MediaType("c") == Image
    ensures MediaType("d.heic") == Image
  {
    assert IsLastPiece("c", '.', "c");
    assert Lower("c") == "c";
    MediaTypeByLastPiece("c", "c");
    var s := "d.heic";
    assert IsLastPiece(s, '.', "heic") by { assert s[2..] == "heic"; }
    assert Lower("heic") == "heic";
    MediaTypeByLastPiece(s, "heic");
  }

  /** The listing endpoint also serves ".mov" files, matched in any letter
      case; whatever comes before the suffix, they are shown as images. */
  lemma MediaTypeMovIsImage(name: string, suffix: string)
    requires |suffix| == 3 && Lower(suffix) == "mov"
    ensures MediaType("/videos/" + name + "." + suffix) == Image
  {
    var s := "/videos/" + name + "." + suffix;
    assert '.' !in suffix by {
      forall i | 0 <= i < 3 ensures suffix[i] != '.' {
        assert Lower(suffix)[i] == LowerChar(suffix[i]);
      }
    }
    assert IsLastPiece(s, '.', suffix) by {
      assert s[|s| - 3..] == suffix;
      assert s[|s| - 4] == '.';
    }
    MediaTypeByLastPiece(s, suffix);
  }

  /** The file name used for a download or a shared file:
      `src.split("/").pop() || "file"`. */
  function DownloadName(src: string): (name: string)
    ensures name != ""
    ensures '/' !in name
    ensures LastPiece(src, '/') != "" ==> name == LastPiece(src, '/')
    ensures LastPiece(src, '/') == "" ==> name == "file"
  {
    var last := LastPiece(src, '/');
    SplitPiecesFree(src, '/', |Split(src, '/')| - 1);
    if last == "" then "file" else last
  }

  /** The download name described without `split`: the text after the last
      '/' when there is some, and "file" when the path is empty or ends in '/'. */
  lemma DownloadNameSpec(src: string)
    ensures (|src| == 0 || src[|src| - 1] == '/') ==> DownloadName(src) == "file"
    ensures |src| > 0 && src[|src| - 1] != '/' ==>
      IsLastPiece(src, '/', DownloadName(src)) &&
      DownloadName(src) == src[|src| - |DownloadName(src)|..]
  {
    LastPieceSpec(src, '/');
    if |src| == 0 || src[|src| - 1] == '/' {
      LastPieceIff(src, '/', "");
    }
  }

  /** The overlay title: `src.split("/").pop()?.split(".")[0] || ""`,
      the last path segment cut at its first '.'. */
  function Title(src: string): (title: string)
    ensures '/' !in title && '.' !in title
    ensures IsFirstPiece(LastPiece(src, '/'), '.', title)
  {
    var segment := LastPiece(src, '/');
    SplitPiecesFree(src, '/', |Split(src, '/')| - 1);
    FirstPieceSpec(segment, '.');
    FirstPiece(segment, '.')
  }

  /** The title is a prefix of the download name; when the last segment is
      empty both fall back, to "" and to "file". */
  lemma TitlePrefixOfName(src: string)
    ensures |Title(src)| <= |DownloadName(src)|
    ensures Title(src) == DownloadName(src)[..|Title(src)|]
  {
  }

  /** The last '/'-segment of "dir/segment" is "segment". */
  lemma LastSegmentUnderDirectory(dir: string, segment: string)
    requires '/' !in segment
    ensures LastPiece(dir + "/" + segment, '/') == segment
  {
    var s := dir + "/" + segment;
    assert IsLastPiece(s, '/', segment) by { assert s[|s| - |segment|..] == segment; }
    LastPieceIff(s, '/', segment);
  }

  /** A file under a directory is downloaded under its own name, and a
      directory path under "file". */
  lemma DownloadNameUnderDirectory(dir: string, name: string)
    requires name != "" && '/' !in name
    ensures DownloadName(dir + "/" + name) == name
    ensures DownloadName(dir + "/") == "file"
  {
    LastSegmentUnderDirectory(dir, name);
    LastSegmentUnderDirectory(dir, "");
    assert dir + "/" + "" == dir + "/";
  }

  /** The title of "dir/stem.rest" is "stem". */
  lemma TitleUnderDirectory(dir: string, stem: string, rest: string)
    requires '/' !in stem && '.' !in stem && '/' !in rest
    ensures Title(dir + "/" + (stem + "." + rest)) == stem
  {
    var segment := stem + "." + rest;
    assert '/' !in segment by {
      forall i | 0 <= i < |segment| ensures segment[i] != '/' {
        if i < |stem| { assert segment[i] == stem[i]; }
        else if i > |stem| { assert segment[i] == rest[i - |stem| - 1]; }
      }
    }
    LastSegmentUnderDirectory(dir, segment);
    assert IsFirstPiece(segment, '.', stem) by { assert segment[..|stem|] == stem; }
    FirstPieceIff(segment, '.', stem);
  }

  /** A segment that starts with '.' has the empty title. */
  lemma TitleOfDotSegment(dir: string, rest: string)
    requires '/' !in rest
    ensures Title(dir + "/" + ("." + rest)) == ""
  {
    var segment := "." + rest;
    assert '/' !in segment by {
      forall i | 0 <= i < |segment| ensures segment[i] != '/' {
        if i > 0 { assert segment[i] == rest[i - 1]; }
      }
    }
    LastSegmentUnderDirectory(dir, segment);
    FirstPieceIff(segment, '.', "");
  }

  /** Why configuration fails at start-up. */
  datatype ConfigError = HostNotDefined

  datatype Result<T> = Ok(value: T) | Err(error: ConfigError)

  /** `process.env.REACT_APP_SERVER_HOST || null`, then the throw when it is
      falsy: a missing or empty host refuses to start. */
  function ServerHost(env: Option<string>): (r: Result<string>)
    ensures r.Ok? <==> env.Some? && env.value != ""
    ensures r.Ok? ==> r.value == env.value
  {
    match env
    case Some(h) => if h == "" then Err(HostNotDefined) else Ok(h)
    case None => Err(HostNotDefined)
  }

  datatype Option<T> = None | Some(value: T)
}
