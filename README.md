# Feed controller of a self-hosted short-video feed

The front end shows a vertically scrolling feed of videos, gifs and images
that a small server lists. This project models the sequential logic of its
feed component (`frontend/src/VideoFeed.tsx`) in Dafny, without React, the
DOM or the network, and proves what that logic does:

- `strings.dfy` (module `Strings`): the JavaScript string operations the
  component uses. This covers `split` with a one-character separator,
  taking its last piece (`pop()`) or first piece (`[0]`), and
  `toLowerCase`. Taking the last or first piece is tied to an independent,
  split-free description; `toLowerCase` is modelled character by character.
- `media.dfy` (module `Media`): `getMediaType`, the download/share file
  name, the overlay title, and the start-up check on the server host.
- `feed.dfy` (module `Feed`): the component state as a class
  `FeedController`. Its fields are `mediaFiles`, `loading`, `fitMode`,
  `itemRefs` and the log of listing requests issued. The module also has
  the pure step functions behind each state change, the play/pause
  observer loop, the sentinel observer, and end-to-end scenarios.
- `actions.dfy` (module `Actions`): `downloadMedia` and `shareMedia`. Each
  browser call becomes an effect it requests, and each possible failure
  becomes an explicit input.

Browser capabilities are inputs. The observers' `isIntersecting` values
are booleans. The share feature checks and the outcome of each awaited
step (`fetch`, `blob()`, `navigator.share`) are fields of a `Browser`
value. A listing request is split in two: `FetchMedia` issues the request,
and `ReceiveBatch` appends the `videos` array of its response.

The component has no guard against overlapping requests. Its sentinel
callback calls `fetchMedia` on every intersecting batch, so two hits issue
two requests, and `TwoSentinelHits` proves exactly that. A design with at
most one request in flight would differ here. The model follows the code.

## Model

| member | source | states |
|---|---|---|
| Strings.Split | frontend/src/VideoFeed.tsx:16 | `split` always yields at least one piece |
| Strings.SplitCount | frontend/src/VideoFeed.tsx:16 | `split` yields exactly one more piece than the number of times the separator occurs |
| Strings.JoinSplit | frontend/src/VideoFeed.tsx:16 | joining the pieces with the separator gives back the original path (split loses nothing) |
| Strings.SplitPiecesFree | frontend/src/VideoFeed.tsx:16 | no piece contains the separator |
| Strings.LastPieceIff | frontend/src/VideoFeed.tsx:16 | `pop()` returns a string t iff t is the separator-free suffix that is either the whole string or preceded by the separator |
| Strings.FirstPieceIff | frontend/src/VideoFeed.tsx:152 | `[0]` returns a string t iff t is the separator-free prefix that is either the whole string or followed by the separator |
| Strings.Lower | frontend/src/VideoFeed.tsx:16 | `toLowerCase` keeps the length, maps each character on its own, and leaves no upper-case ASCII letter |
| Strings.LowerIdempotent | frontend/src/VideoFeed.tsx:16 | lower-casing twice is the same as lower-casing once |
| Strings.LowerLastPiece | frontend/src/VideoFeed.tsx:16 | lower-casing before or after taking the text after the last '.' or '/' gives the same string |
| Media.MediaType | frontend/src/VideoFeed.tsx:15-21 | the result is `Video` iff the lower-cased extension is mp4, webm or ogg, and `Gif` iff it is gif; otherwise `Image` |
| Media.MediaTypeByLastPiece | frontend/src/VideoFeed.tsx:15-21 | the same classification stated with the extension given by the split-free description of the text after the last '.' (all three kinds, each as an iff) |
| Media.MediaTypeNoDot | frontend/src/VideoFeed.tsx:16-17 | a path with no '.' is classified by the whole path, lower-cased |
| Media.MediaTypeTrailingDot | frontend/src/VideoFeed.tsx:16-17 | a path ending in '.' has an empty extension and is an image |
| Media.MediaTypeIgnoresCase | frontend/src/VideoFeed.tsx:16 | lower-casing the path first changes neither the extension nor the kind |
| Media.MediaTypeVideoExample | frontend/src/VideoFeed.tsx:18 | "a.mp4" is a video |
| Media.MediaTypeGifExample | frontend/src/VideoFeed.tsx:19 | "b.GIF" is a gif (case-insensitive match) |
| Media.MediaTypeImageExamples | frontend/src/VideoFeed.tsx:17-20 | "c" (no extension) and "d.heic" (unknown extension) are images |
| Media.MediaTypeMovIsImage | backend/app.py:20 | every "/videos/NAME.mov" path the listing endpoint can return, for any NAME and the suffix in any letter case, is shown as an image, not a video |
| Media.DownloadName | frontend/src/VideoFeed.tsx:74 | the name is never empty and holds no '/'; it is the last '/'-segment when that is non-empty and "file" otherwise |
| Media.DownloadNameSpec | frontend/src/VideoFeed.tsx:74 | without `split`: an empty path or one ending in '/' downloads as "file"; any other path downloads as its '/'-free suffix after the last '/' |
| Media.DownloadNameUnderDirectory | frontend/src/VideoFeed.tsx:74 | "dir/name" downloads as "name"; "dir/" downloads as "file" |
| Media.Title | frontend/src/VideoFeed.tsx:152 | the title holds no '/' and no '.', and is the first '.'-piece of the last '/'-segment |
| Media.TitlePrefixOfName | frontend/src/VideoFeed.tsx:152 | the title is always a prefix of the download name |
| Media.TitleUnderDirectory | frontend/src/VideoFeed.tsx:152 | "dir/stem.rest" has title "stem" |
| Media.TitleOfDotSegment | frontend/src/VideoFeed.tsx:152 | a segment starting with '.' has the empty title |
| Media.ServerHost | frontend/src/VideoFeed.tsx:12-13 | start-up succeeds iff the host setting is present and non-empty, and then yields that host |
| Feed.AppendedSpec | frontend/src/VideoFeed.tsx:33 | after any run of responses the list is the old list followed by every path received, response by response, in order; so it grows by exactly the number of paths received, keeps every earlier item at its index, and is unchanged when every response is empty |
| Feed.Toggle | frontend/src/VideoFeed.tsx:235 | toggling always changes the fit mode |
| Feed.ToggleTwice | frontend/src/VideoFeed.tsx:235 | toggling twice restores the original fit mode |
| Feed.ToggleTimesParity | frontend/src/VideoFeed.tsx:235 | after n presses the mode is the original one iff n is even |
| Feed.LoadingAfterAllSpec | frontend/src/VideoFeed.tsx:176-194 | after any run of load signals the flag is still set iff it was set and no signal came from item 0 |
| Feed.LoadingFirstItemIdempotent | frontend/src/VideoFeed.tsx:176 | an item-0 signal always clears the flag, and a second one changes nothing |
| Feed.StoreRef | frontend/src/VideoFeed.tsx:168 | writing slot i sets slot i, keeps every other slot, and leaves holes between the old end and i |
| Feed.PresentSpec | frontend/src/VideoFeed.tsx:53 | an element is registered with the observer iff some slot holds it; there are exactly as many registrations as filled slots |
| Feed.StoredRefIsObserved | frontend/src/VideoFeed.tsx:53 | a handle just written into any slot is registered by the next observer set-up |
| Feed.CommandsAppend | frontend/src/VideoFeed.tsx:42-49 | entries are handled independently: the commands for a batch are those of its parts, in order |
| Feed.CommandsSpec | frontend/src/VideoFeed.tsx:42-49 | only video elements get commands; an element gets `play` iff it is a video with an intersecting entry, and `pause` iff it is a video with a non-intersecting entry |
| Feed.HandleVisibility | frontend/src/VideoFeed.tsx:41-49 | the loop over the entries sends exactly the commands `Commands` specifies |
| Feed.AnyIntersecting | frontend/src/VideoFeed.tsx:61 | true iff some entry is intersecting |
| Feed.SentinelFetches | frontend/src/VideoFeed.tsx:60-66 | the sentinel callback calls `fetchMedia` exactly once when some entry intersects and never otherwise; the fetch-ahead test on remaining = 0 always passes |
| Feed.ListUrl | frontend/src/VideoFeed.tsx:31 | a listing request goes to the configured host followed by "/api/videos?limit=10", the batch size in decimal |
| Feed.FeedController.constructor | frontend/src/VideoFeed.tsx:24-28 | empty list, loading set, fit mode cover, no handles, no request yet |
| Feed.FeedController.FetchMedia | frontend/src/VideoFeed.tsx:30-31 | appends one listing request, to the list URL of the configured host, to the request log |
| Feed.FeedController.ReceiveBatch | frontend/src/VideoFeed.tsx:32-33 | the new list is the old list followed by the batch, which is `Appended` applied to that one response; its length grows by the batch's and old indices keep their items |
| Feed.FeedController.OnLoaded | frontend/src/VideoFeed.tsx:176 | the flag is cleared by item 0, untouched by any other item, and never set again |
| Feed.FeedController.ToggleFit | frontend/src/VideoFeed.tsx:235 | the fit mode flips |
| Feed.FeedController.SetRef | frontend/src/VideoFeed.tsx:168 | the handle array becomes the old one with slot i written |
| Feed.FeedController.MountItem | frontend/src/VideoFeed.tsx:166-190 | item i's slot receives an element whose kind is the media type of item i's path |
| Feed.FeedController.ObserveAll | frontend/src/VideoFeed.tsx:53 | registers exactly the non-empty slots, in index order |
| Feed.FeedController.OnSentinel | frontend/src/VideoFeed.tsx:60-66 | appends one listing request to the log when some entry intersects, and none otherwise |
| Feed.FirstBatchThenFirstLoad | frontend/src/VideoFeed.tsx:36-67 | mount issues two requests (the mount effect and the first sentinel callback on the empty feed); after the first response and item 0's load signal the list is exactly that batch and the splash is gone |
| Feed.LaterItemsKeepSplash | frontend/src/VideoFeed.tsx:185 | a load signal from any item other than 0 leaves the splash up |
| Feed.TwoSentinelHits | frontend/src/VideoFeed.tsx:60-66 | with no in-flight guard, two intersecting sentinel batches before any response give two more requests, all to the list URL |
| Feed.MountThenObserve | frontend/src/VideoFeed.tsx:166-168 | a rendered item is registered with the observer, and an intersecting entry plays it iff its path is a video |
| Actions.Download | frontend/src/VideoFeed.tsx:71-75 | a download saves the host followed by the path, under `DownloadName` of the path, a non-empty, '/'-free name |
| Actions.ShareMedia | frontend/src/VideoFeed.tsx:78-89 | exactly one download unless every share step succeeds, then none; no share attempt when sharing is unsupported; the shared file carries the download name; a download is always the last effect and is of this item |
| Actions.DownloadMedia | frontend/src/VideoFeed.tsx:243 | the download button requests exactly one download of its item and no share |

## Left out

- Rendering: the Chakra layout, styles, scroll snapping, icons, the header, the splash markup and the overlay tag (frontend/src/VideoFeed.tsx:91-262). These are presentation only. The model keeps just the element kind chosen per item and the title text.
- The network: `fetch` and JSON parsing. A response is its `videos` array of strings, passed to `ReceiveBatch`. A request that fails, or a body that is not JSON, rejects inside `fetchMedia` before frontend/src/VideoFeed.tsx:33 and appends nothing; the component has no handler for that rejection.
- Responses of the wrong shape: the model takes `videos` to be an array of strings. A body whose `videos` is a string is spread into its characters and appended one character per item. A body with no `videos` array, or one that is null, makes the spread at frontend/src/VideoFeed.tsx:33 throw inside the state updater, which tears the view down. Neither case is modelled.
- Ordering of responses: the event loop may complete two overlapping requests in either order. The model lets the caller apply `ReceiveBatch` in any order and proves nothing about which order happens.
- The browser's share and download primitives: blob creation, `File` construction, `navigator.share` and the anchor click. Each is an effect it requests, and each awaited step's resolve-or-throw is a boolean of `Browser`. The `File` constructor is taken never to throw.
- IntersectionObserver geometry: the 0.6 threshold is a floating-point area ratio that the browser evaluates. The code never compares a ratio itself, so `isIntersecting` is a boolean input.
- React effect lifecycle: re-subscription when `mediaFiles.length` changes (the new sentinel observer's first callback is just another `OnSentinel`), `disconnect` on cleanup, and the scheduling of effects. `FirstBatchThenFirstLoad` runs the two mount-time requests by hand: `FetchMedia` for the mount effect and `OnSentinel([true])` for the first callback on the empty feed, whose sentinel is in view.
- `onError` handlers on items (frontend/src/VideoFeed.tsx:177, 186): their bodies are empty, so they change no state.
- Strings.Lower: only the ASCII letters A-Z are lower-cased, not JavaScript's full Unicode `toLowerCase`. Outside ASCII, only the Kelvin sign lower-cases to a lone ASCII letter (k), and U+0130 lower-cases to two characters. Neither can turn an extension into mp4, webm, ogg or gif, so the classification does not change.
- Strings are sequences of characters, not UTF-16 code units.
- backend/app.py: filesystem listing, `random.shuffle`, static mounting and CORS are server I/O and randomness. The handler ignores the `limit` parameter the front end sends (BATCH_SIZE), so a response may hold more than ten paths; `ReceiveBatch` accepts a batch of any length.
- frontend/src/App.tsx is a wrapper with no logic and is not part of this model.
