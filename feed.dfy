// The feed controller of frontend/src/VideoFeed.tsx without React, the DOM
// or the network: the media list, the loading flag, the fit mode, the
// per-item handle array, and the two IntersectionObserver callbacks.

module Feed {
  import opened Media

  /** How many items one listing request asks for (BATCH_SIZE). */
  const BATCH_SIZE: nat := 10
  /** Fetch again when at most this many items remain ahead (FETCH_AHEAD). */
  const FETCH_AHEAD: nat := 3

  // ---------------------------------------------------------------- the list

  /** The list after the responses `batches` arrive, in order, each applied
      as `setMediaFiles((prev) => [...prev, ...data.videos])`. */
  function Appended(feed: seq<string>, batches: seq<seq<string>>): seq<string>
    decreases |batches|
  {
    if |batches| == 0 then feed else Appended(feed + batches[0], batches[1..])
  }

  /** The total number of paths in a run of responses. */
  function TotalLength(batches: seq<seq<string>>): nat
  {
    if |batches| == 0 then 0 else |batches[0]| + TotalLength(batches[1..])
  }

  /** All paths of a run of responses, response by response, in order. */
  function Flatten(batches: seq<seq<string>>): seq<string>
  {
    if |batches| == 0 then [] else batches[0] + Flatten(batches[1..])
  }

  /** The list only grows: it becomes the old list followed by every path
      received, in order; so it grows by exactly the paths received, every
      earlier item keeps its index, and empty responses change nothing. */
  lemma {:induction false} AppendedSpec(feed: seq<string>, batches: seq<seq<string>>)
    ensures Appended(feed, batches) == feed + Flatten(batches)
    ensures |Appended(feed, batches)| == |feed| + TotalLength(batches)
    ensures Appended(feed, batches)[..|feed|] == feed
    ensures (forall k :: 0 <= k < |batches| ==> batches[k] == []) ==> Appended(feed, batches) == feed
    decreases |batches|
  {
    if |batches| > 0 {
      AppendedSpec(feed + batches[0], batches[1..]);
      assert feed + batches[0] + Flatten(batches[1..]) == feed + Flatten(batches);
      assert (feed + batches[0])[..|feed|] == feed;
      if forall k :: 0 <= k < |batches| ==> batches[k] == [] {
        assert batches[0] == [];
        assert feed + batches[0] == feed;
        forall k | 0 <= k < |batches[1..]| ensures batches[1..][k] == [] {
          assert batches[1..][k] == batches[k + 1];
        }
      }
    }
  }

  // ---------------------------------------------------------------- fit mode

  /** The `objectFit` value shared by every item. */
  datatype FitMode = Cover | Contain

  /** The crop button's updater: `p === "cover" ? "contain" : "cover"`. */
  function Toggle(m: FitMode): (r: FitMode)
    ensures r != m
  {
    if m == Cover then Contain else Cover
  }

  /** Toggling twice gives back the original mode. */
  lemma ToggleTwice(m: FitMode)
    ensures Toggle(Toggle(m)) == m
  {
  }

  /** The mode after `n` presses of any item's crop button. */
  function ToggleTimes(m: FitMode, n: nat): FitMode
  {
    if n == 0 then m else Toggle(ToggleTimes(m, n - 1))
  }

  /** Only the parity of the number of presses matters. */
  lemma {:induction false} ToggleTimesParity(m: FitMode, n: nat)
    ensures ToggleTimes(m, n) == if n % 2 == 0 then m else Toggle(m)
  {
    if n > 0 {
      ToggleTimesParity(m, n - 1);
    }
  }

  // ------------------------------------------------------------ loading flag

  /** The load handler of item `i`: `if (i === 0) setLoading(false)`. */
  function LoadingAfter(loading: bool, i: nat): bool
  {
    if i == 0 then false else loading
  }

  /** The loading flag after a sequence of load signals, in order. */
  function LoadingAfterAll(loading: bool, signals: seq<nat>): bool
  {
    if |signals| == 0 then loading
    else LoadingAfterAll(LoadingAfter(loading, signals[0]), signals[1..])
  }

  /** The flag is still set exactly when it was set and no signal came from
      item 0: other items never clear it and nothing sets it again. */
  lemma {:induction false} LoadingAfterAllSpec(loading: bool, signals: seq<nat>)
    ensures LoadingAfterAll(loading, signals) == (loading && 0 !in signals)
  {
    if |signals| > 0 {
      LoadingAfterAllSpec(LoadingAfter(loading, signals[0]), signals[1..]);
      assert signals == [signals[0]] + signals[1..];
    }
  }

  /** A second signal from item 0 has no further effect. */
  lemma LoadingFirstItemIdempotent(loading: bool)
    ensures LoadingAfter(LoadingAfter(loading, 0), 0) == LoadingAfter(loading, 0)
    ensures !LoadingAfter(loading, 0)
  {
  }

  // -------------------------------------------------------- rendered handles

  /** The element rendered for item `index`: a <video> when its kind is
      Video, an <img> otherwise. */
  datatype Element = Element(index: nat, kind: Kind)

  /** `el.tagName === "VIDEO"`. */
  predicate IsVideoTag(el: Element)
  {
    el.kind == Video
  }

  /** `itemRefs.current[i] = el` on a JavaScript array: writing past the end
      leaves holes (here `None`) between the old end and `i`. */
  function StoreRef(refs: seq<Option<Element>>, i: nat, el: Option<Element>): (r: seq<Option<Element>>)
    ensures |r| == if i < |refs| then |refs| else i + 1
    ensures r[i] == el
    ensures forall j :: 0 <= j < |refs| && j != i ==> r[j] == refs[j]
    ensures forall j :: |refs| <= j < i ==> r[j] == None
  {
    if i < |refs| then refs[i := el]
    else refs + seq(i - |refs|, _ => None) + [el]
  }

  /** The handles `forEach((el) => el && io.observe(el))` registers, in
      index order: holes and nulls are skipped. */
  function Present(refs: seq<Option<Element>>): seq<Element>
  {
    if |refs| == 0 then []
    else (if refs[0].Some? then [refs[0].value] else []) + Present(refs[1..])
  }

  lemma {:induction false} PresentAppend(a: seq<Option<Element>>, b: seq<Option<Element>>)
    ensures Present(a + b) == Present(a) + Present(b)
  {
    if |a| > 0 {
      PresentAppend(a[1..], b);
      assert (a + b)[1..] == a[1..] + b;
    } else {
      assert a + b == b;
    }
  }

  /** An element is registered exactly when some slot holds it, and there
      is exactly one registration per filled slot. */
  lemma {:induction false} PresentSpec(refs: seq<Option<Element>>, e: Element)
    ensures e in Present(refs) <==> exists k :: 0 <= k < |refs| && refs[k] == Some(e)
    ensures |Present(refs)| == |refs| - multiset(refs)[None]
  {
    if |refs| > 0 {
      PresentSpec(refs[1..], e);
      assert refs == [refs[0]] + refs[1..];
      assert multiset(refs) == multiset([refs[0]]) + multiset(refs[1..]);
      if exists k :: 0 <= k < |refs| && refs[k] == Some(e) {
        var k :| 0 <= k < |refs| && refs[k] == Some(e);
        if k > 0 { assert refs[1..][k - 1] == Some(e); }
      }
      if exists k :: 0 <= k < |refs[1..]| && refs[1..][k] == Some(e) {
        var k :| 0 <= k < |refs[1..]| && refs[1..][k] == Some(e);
        assert refs[k + 1] == Some(e);
      }
    }
  }

  /** A handle just written is registered by the next observer set-up. */
  lemma StoredRefIsObserved(refs: seq<Option<Element>>, i: nat, e: Element)
    ensures e in Present(StoreRef(refs, i, Some(e)))
  {
    PresentSpec(StoreRef(refs, i, Some(e)), e);
  }

  // --------------------------------------------------- play/pause observer

  /** One IntersectionObserver entry: its target and `isIntersecting`. */
  datatype Entry = Entry(target: Element, isIntersecting: bool)

  /** A command sent to a video element. */
  datatype Command = Play(video: Element) | Pause(video: Element)

  /** What the observer callback does with one entry. */
  function CommandFor(e: Entry): seq<Command>
  {
    if IsVideoTag(e.target) then
      (if e.isIntersecting then [Play(e.target)] else [Pause(e.target)])
    else []
  }

  /** What the callback does with a batch of entries, in order. */
  function Commands(entries: seq<Entry>): seq<Command>
  {
    if |entries| == 0 then []
    else CommandFor(entries[0]) + Commands(entries[1..])
  }

  /** Entries are handled independently: a batch's commands are those of
      its parts, in order. */
  lemma {:induction false} CommandsAppend(a: seq<Entry>, b: seq<Entry>)
    ensures Commands(a + b) == Commands(a) + Commands(b)
  {
    if |a| > 0 {
      CommandsAppend(a[1..], b);
      assert (a + b)[1..] == a[1..] + b;
    } else {
      assert a + b == b;
    }
  }

  /** Only videos receive commands; a video receives `play` exactly when one
      of its entries is intersecting and `pause` exactly when one is not. */
  lemma {:induction false} CommandsSpec(entries: seq<Entry>, el: Element)
    ensures Play(el) in Commands(entries) <==>
      IsVideoTag(el) && exists k :: 0 <= k < |entries| && entries[k] == Entry(el, true)
    ensures Pause(el) in Commands(entries) <==>
      IsVideoTag(el) && exists k :: 0 <= k < |entries| && entries[k] == Entry(el, false)
  {
    if |entries| > 0 {
      CommandsSpec(entries[1..], el);
      forall b: bool | exists k :: 0 <= k < |entries| && entries[k] == Entry(el, b)
        ensures entries[0] == Entry(el, b) ||
          exists k :: 0 <= k < |entries[1..]| && entries[1..][k] == Entry(el, b)
      {
        var k :| 0 <= k < |entries| && entries[k] == Entry(el, b);
        if k > 0 { assert entries[1..][k - 1] == Entry(el, b); }
      }
      forall b: bool | exists k :: 0 <= k < |entries[1..]| && entries[1..][k] == Entry(el, b)
        ensures exists k :: 0 <= k < |entries| && entries[k] == Entry(el, b)
      {
        var k :| 0 <= k < |entries[1..]| && entries[1..][k] == Entry(el, b);
        assert entries[k + 1] == Entry(el, b);
      }
    }
  }

  /** The `for (const entry of entries)` loop of the play/pause observer,
      producing the commands it sends. */
  method HandleVisibility(entries: seq<Entry>) returns (log: seq<Command>)
    ensures log == Commands(entries)
  {
    log := [];
    var i := 0;
    while i < |entries|
      invariant 0 <= i <= |entries|
      invariant log == Commands(entries[..i])
    {
      var entry := entries[i];
      if IsVideoTag(entry.target) {
        if entry.isIntersecting {
          log := log + [Play(entry.target)];
        } else {
          log := log + [Pause(entry.target)];
        }
      }
      CommandsAppend(entries[..i], [entry]);
      assert entries[..i + 1] == entries[..i] + [entry];
      i := i + 1;
    }
    assert entries[..i] == entries;
  }

  // ------------------------------------------------------ sentinel observer

  /** `entries.some((e) => e.isIntersecting)`. */
  function AnyIntersecting(hits: seq<bool>): (r: bool)
    ensures r <==> exists k :: 0 <= k < |hits| && hits[k]
  {
    if |hits| == 0 then false
    else if hits[0] then true
    else
      var rest := AnyIntersecting(hits[1..]);
      assert rest ==> exists k :: 0 <= k < |hits| && hits[k] by {
        if rest {
          var k :| 0 <= k < |hits[1..]| && hits[1..][k];
          assert hits[k + 1];
        }
      }
      rest
  }

  /** The fetch-ahead test `remaining <= FETCH_AHEAD`. */
  predicate WithinFetchAhead(remaining: nat)
  {
    remaining <= FETCH_AHEAD
  }

  /** The number of `fetchMedia` calls the sentinel callback makes for one
      batch of entries. The remaining count is fixed at 0 because the
      sentinel sits after the last item. */
  function SentinelFetches(hits: seq<bool>): (n: int)
    ensures n == 1 <==> exists k :: 0 <= k < |hits| && hits[k]
    ensures n == 0 <==> forall k :: 0 <= k < |hits| ==> !hits[k]
  {
    if !AnyIntersecting(hits) then 0
    else
      var remaining := 0;
      if WithinFetchAhead(remaining) then 1 else 0
  }

  // --------------------------------------------------------------- requests

  /** The decimal digits of `n`, as a template literal prints it. */
  function Decimal(n: nat): (digits: string)
    ensures |digits| >= 1
    ensures forall k :: 0 <= k < |digits| ==> '0' <= digits[k] <= '9'
  {
    if n < 10 then [('0' as int + n) as char]
    else Decimal(n / 10) + [('0' as int + n % 10) as char]
  }

  /** `${SERVER_HOST}/api/videos?limit=${BATCH_SIZE}`. */
  function ListUrl(host: string): (url: string)
    ensures |url| > |host| && url[..|host|] == host
    ensures url[|host|..] == "/api/videos?limit=10"
  {
    assert Decimal(BATCH_SIZE) == "10";
    host + "/api/videos?limit=" + Decimal(BATCH_SIZE)
  }

  // ------------------------------------------------------------ controller

  /** The component's state: `mediaFiles`, `loading`, `fitMode`,
      `itemRefs.current`, and the listing requests issued so far. */
  class FeedController {
    /** The configured server host, checked non-empty at start-up. */
    const host: string
    var mediaFiles: seq<string>
    var loading: bool
    var fitMode: FitMode
    var itemRefs: seq<Option<Element>>
    var requests: seq<string>

    /** The initial `useState`/`useRef` values. */
    constructor (host: string)
      requires host != ""
      ensures this.host == host
      ensures mediaFiles == [] && loading && fitMode == Cover
      ensures itemRefs == [] && requests == []
    {
      this.host := host;
      mediaFiles := [];
      loading := true;
      fitMode := Cover;
      itemRefs := [];
      requests := [];
    }

    /** `fetchMedia`, first half: the GET of BATCH_SIZE items is issued. */
    method FetchMedia()
      modifies this`requests
      ensures requests == old(requests) + [ListUrl(host)]
    {
      requests := requests + [host + "/api/videos?limit=" + Decimal(BATCH_SIZE)];
    }

    /** `fetchMedia`, second half: the response's `videos` are appended. */
    method ReceiveBatch(videos: seq<string>)
      modifies this`mediaFiles
      ensures mediaFiles == old(mediaFiles) + videos
      ensures mediaFiles == Appended(old(mediaFiles), [videos])
      ensures |mediaFiles| == |old(mediaFiles)| + |videos|
      ensures forall k :: 0 <= k < |old(mediaFiles)| ==> mediaFiles[k] == old(mediaFiles)[k]
    {
      mediaFiles := mediaFiles + videos;
    }

    /** The `onLoadedData`/`onLoad` handler of item `i`. */
    method OnLoaded(i: nat)
      modifies this`loading
      ensures loading == LoadingAfter(old(loading), i)
      ensures loading ==> old(loading)
    {
      if i == 0 {
        loading := false;
      }
    }

    /** The crop button of any item. */
    method ToggleFit()
      modifies this`fitMode
      ensures fitMode == Toggle(old(fitMode))
    {
      fitMode := if fitMode == Cover then Contain else Cover;
    }

    /** The ref callback of item `i`, called with its element on mount and
        with null on unmount. */
    method SetRef(i: nat, el: Option<Element>)
      modifies this`itemRefs
      ensures itemRefs == StoreRef(old(itemRefs), i, el)
    {
      if i < |itemRefs| {
        itemRefs := itemRefs[i := el];
      } else {
        itemRefs := itemRefs + seq(i - |itemRefs|, _ => None) + [el];
      }
    }

    /** Rendering item `i`: its element's kind is `getMediaType` of its path,
        and the element is handed to the ref callback. */
    method MountItem(i: nat)
      requires i < |mediaFiles|
      modifies this`itemRefs
      ensures itemRefs == StoreRef(old(itemRefs), i, Some(Element(i, MediaType(mediaFiles[i]))))
    {
      SetRef(i, Some(Element(i, MediaType(mediaFiles[i]))));
    }

    /** `itemRefs.current.forEach((el) => el && io.observe(el))`. */
    method ObserveAll() returns (observed: seq<Element>)
      ensures observed == Present(itemRefs)
    {
      observed := [];
      var i := 0;
      while i < |itemRefs|
        invariant 0 <= i <= |itemRefs|
        invariant observed == Present(itemRefs[..i])
      {
        var slot := itemRefs[i];
        if slot.Some? {
          observed := observed + [slot.value];
        }
        PresentAppend(itemRefs[..i], [slot]);
        assert itemRefs[..i + 1] == itemRefs[..i] + [slot];
        i := i + 1;
      }
      assert itemRefs[..i] == itemRefs;
    }

    /** The sentinel observer's callback for one batch of entries. No flag
        guards against a request already in flight. */
    method OnSentinel(hits: seq<bool>)
      modifies this`requests
      ensures requests == old(requests) + (if SentinelFetches(hits) == 1 then [ListUrl(host)] else [])
    {
      var hit := AnyIntersecting(hits);
      if !hit {
        return;
      }
      var remaining := 0;
      if remaining <= FETCH_AHEAD {
        FetchMedia();
      }
    }
  }

  // ------------------------------------------------------------- scenarios

  /** Start-up: the mount effect requests a batch, and the sentinel of the
      still-empty feed is in view, so the sentinel observer's first callback
      requests another. Then the first response arrives and item 0 loads:
      the feed is that batch and the splash is gone. */
  method FirstBatchThenFirstLoad(host: string, batch: seq<string>) returns (feed: seq<string>, loading: bool, requests: nat)
    requires host != ""
    ensures feed == batch
    ensures !loading
    ensures requests == 2
  {
    var c := new FeedController(host);
    c.FetchMedia();
    c.OnSentinel([true]);
    c.ReceiveBatch(batch);
    c.OnLoaded(0);
    feed, loading, requests := c.mediaFiles, c.loading, |c.requests|;
  }

  /** Load signals from items other than 0 leave the splash up. */
  method LaterItemsKeepSplash(host: string, batch: seq<string>, i: nat) returns (loading: bool)
    requires host != "" && i > 0
    ensures loading
  {
    var c := new FeedController(host);
    c.FetchMedia();
    c.ReceiveBatch(batch);
    c.OnLoaded(i);
    loading := c.loading;
  }

  /** After the mount request, two sentinel callbacks before any response
      arrives each request again when they see an intersecting entry:
      nothing coalesces them. */
  method TwoSentinelHits(host: string, first: seq<bool>, second: seq<bool>) returns (requests: seq<string>)
    requires host != ""
    ensures |requests| == 1 + SentinelFetches(first) + SentinelFetches(second)
    ensures forall k :: 0 <= k < |requests| ==> requests[k] == ListUrl(host)
    ensures AnyIntersecting(first) && AnyIntersecting(second) ==> |requests| == 3
  {
    var c := new FeedController(host);
    c.FetchMedia();
    c.OnSentinel(first);
    c.OnSentinel(second);
    requests := c.requests;
  }

  /** Rendering item `i` and setting up the observer registers an element of
      the item's kind; it is played when it is a video coming into view. */
  method MountThenObserve(host: string, batch: seq<string>, i: nat) returns (observed: seq<Element>, log: seq<Command>)
    requires host != "" && i < |batch|
    ensures Element(i, MediaType(batch[i])) in observed
    ensures log == Commands([Entry(Element(i, MediaType(batch[i])), true)])
    ensures MediaType(batch[i]) == Video ==> log == [Play(Element(i, Video))]
    ensures MediaType(batch[i]) != Video ==> log == []
  {
    var c := new FeedController(host);
    c.FetchMedia();
    c.ReceiveBatch(batch);
    c.MountItem(i);
    observed := c.ObserveAll();
    StoredRefIsObserved([], i, Element(i, MediaType(batch[i])));
    log := HandleVisibility([Entry(Element(i, MediaType(batch[i])), true)]);
  }
}
