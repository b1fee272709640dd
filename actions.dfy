// The per-item actions of frontend/src/VideoFeed.tsx: `downloadMedia` and
// `shareMedia`, with every browser call reduced to the effect it requests
// and every possible failure made an explicit input.

module Actions {
  import opened Media

  /** What the core asks the browser to do. */
  datatype Effect =
    | FetchBytes(url: string)    // fetch(`${SERVER_HOST}${src}`)
    | ReadBlob                   // response.blob()
    | ShareFile(name: string)    // navigator.share({ files: [file] })
    | SaveAs(url: string, name: string)  // an <a download> clicked

  /** What the browser would do, decided before the call: whether
      `navigator.canShare` exists, what `canShare({ files: [] })` answers, and
      whether each awaited step resolves (true) or throws (false). */
  datatype Browser = Browser(
    hasCanShare: bool,
    canShareFiles: bool,
    fetchOk: bool,
    blobOk: bool,
    shareOk: bool)

  /** The guard `navigator.canShare && navigator.canShare({ files: [] })`. */
  predicate SharingSupported(b: Browser)
  {
    b.hasCanShare && b.canShareFiles
  }

  /** Every step of the share attempt resolves. */
  predicate ShareSucceeds(b: Browser)
  {
    SharingSupported(b) && b.fetchOk && b.blobOk && b.shareOk
  }

  /** `downloadMedia(src)`: an anchor to the media on the server, saved under
      the path's file name. */
  function Download(host: string, src: string): (e: Effect)
    ensures e.SaveAs? && e.name == DownloadName(src)
    ensures e.name != "" && '/' !in e.name
    ensures |host| <= |e.url| && e.url[..|host|] == host && e.url[|host|..] == src
  {
    SaveAs(host + src, DownloadName(src))
  }

  /** How many downloads a run of effects requests. */
  function Downloads(effects: seq<Effect>): nat
  {
    if |effects| == 0 then 0
    else (if effects[0].SaveAs? then 1 else 0) + Downloads(effects[1..])
  }

  /** How many share attempts a run of effects makes. */
  function ShareAttempts(effects: seq<Effect>): nat
  {
    if |effects| == 0 then 0
    else (if effects[0].ShareFile? then 1 else 0) + ShareAttempts(effects[1..])
  }

  /** Both counts add up over concatenation. */
  lemma {:induction false} CountsAppend(a: seq<Effect>, b: seq<Effect>)
    ensures Downloads(a + b) == Downloads(a) + Downloads(b)
    ensures ShareAttempts(a + b) == ShareAttempts(a) + ShareAttempts(b)
  {
    if |a| > 0 {
      CountsAppend(a[1..], b);
      assert (a + b)[1..] == a[1..] + b;
    } else {
      assert a + b == b;
    }
  }

  /** `shareMedia(src)`: try to share the file; when sharing is unsupported
      or any awaited step throws, download instead. Nothing is thrown to the
      caller, so the only outcome is the run of effects. */
  method ShareMedia(host: string, src: string, b: Browser) returns (effects: seq<Effect>)
    ensures Downloads(effects) == if ShareSucceeds(b) then 0 else 1
    ensures ShareAttempts(effects) == if SharingSupported(b) && b.fetchOk && b.blobOk then 1 else 0
    ensures !SharingSupported(b) ==> effects == [Download(host, src)]
    ensures SharingSupported(b) ==> effects[0] == FetchBytes(host + src)
    ensures forall k :: 0 <= k < |effects| && effects[k].SaveAs? ==>
      k == |effects| - 1 && effects[k] == Download(host, src)
    ensures forall k :: 0 <= k < |effects| && effects[k].ShareFile? ==>
      effects[k] == ShareFile(DownloadName(src))
  {
    if b.hasCanShare && b.canShareFiles {
      var url := host + src;
      effects := [FetchBytes(url)];
      var threw := !b.fetchOk;
      if !threw {
        CountsAppend(effects, [ReadBlob]);
        effects := effects + [ReadBlob];
        threw := !b.blobOk;
        if !threw {
          CountsAppend(effects, [ShareFile(DownloadName(src))]);
          effects := effects + [ShareFile(DownloadName(src))];
          threw := !b.shareOk;
        }
      }
      if threw {
        CountsAppend(effects, [Download(host, src)]);
        effects := effects + [Download(host, src)];
      }
    } else {
      effects := [Download(host, src)];
    }
  }

  /** The download button: exactly one download, of this item. */
  method DownloadMedia(host: string, src: string) returns (effects: seq<Effect>)
    ensures Downloads(effects) == 1 && ShareAttempts(effects) == 0
    ensures effects == [Download(host, src)]
  {
    effects := [Download(host, src)];
  }
}
