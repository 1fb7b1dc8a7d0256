# bytesize frontend: the client logic in Dafny

This project models the client of the bytesize file store: a Next.js page
that lists, uploads, downloads and deletes files through a storage API,
together with the helpers that format its table and the grid cards that
show image thumbnails. Three parts of the client carry the logic:

- **The file-session controller** of `src/app/page.tsx` is the class
  `Session.Page`. Its fields are `files`, `busy`, `msg`, `open` and `pick`.
  - The operations `refresh`, `doUpload`, `doDownload` and `doDelete` are
    methods. Each one receives the settled outcome of every API call it would
    await, as `Ok(value)` or `Err`.
  - Two ghost fields record what the page sent and showed. `sent` lists the
    API requests. `trace` lists the state at every await.
- **The download filename** of `page.tsx:108-111` is a pure function,
  `Disposition.DownloadName`.
  - It models the regular expression `/filename\*?=(?:UTF-8'')?"?([^";]+)/i`
    as a backtracking matcher runs it. There are eight alternatives for the
    optional parts, tried in greedy order. The leftmost match wins, and the
    capture is the maximal run of `[^";]`.
  - The capture is passed through `UriDecode.PercentDecode`. This is
    `decodeURIComponent` following section 2.1 of RFC 3986, with the UTF-8
    rules the ECMAScript Decode operation applies: lead octets, continuation
    octets, overlong forms, surrogates and the upper bound.
  - Its partner is an `encodeURIComponent`-style encoder,
    `UriDecode.PercentEncode`. Decoding inverts it for every string.
- **The helpers of `src/lib/utils.ts`** are `ordinal`, `ext`, `isImageExt`
  and the unit loop of `bytes`.
  - `bytes` is a method with its `while` loop.
  - The others are functions, each proved against an independent
    characterisation.
- **The thumbnail gate of `src/components/grid-card.tsx`** is the class
  `Thumbnail.GridCard`.
  - It has the `thumb` state and one `Run` record per run of the effect. A
    run records its `active` flag, the `thumb` its cleanup captured, and
    whether its fetch is in flight.
  - The browser's object URLs live in the class `Blobs.Browser`. It has a set
    of live URLs and a log of create, save and revoke requests.

Several observations follow from the model:

- The progress messages ("Loading files…", "Uploading…", and so on) never
  reach the status line. They only exist while `busy` is true, and then the
  line reads "Working…" (`Session.ProgressMessageHidden`).
- Every captured value is percent-decoded, including the plain and quoted
  forms of RFC 6266, which are not percent-encoded. A name with a '%' that
  does not start an escape, such as `filename=100%`, therefore fails the whole download
  (`Disposition.MalformedEscapeFails`; for every header, `Disposition.BadEscapeFailsDownload`). The file was already fetched by then.
- The grid card leaves a thumbnail URL live in two cases:
  - its cleanup revokes the `thumb` captured when the effect ran, which is ""
    on the first mount (`Thumbnail.UnmountKeepsThumbLive`);
  - a fetch that settles after the cleanup creates a URL that nobody stores or
    revokes (`Thumbnail.LateResultIsDropped`).

## Model

| member | source | states |
|---|---|---|
| Utils.JsRem | src/lib/utils.ts:21-22 | JavaScript `%`: the remainder is a minus b times the quotient truncated toward zero, so it lies in [0, b) for a non-negative dividend and in (-b, 0] for a negative one |
| Utils.Ordinal | src/lib/utils.ts:20-27 | a negative day gets "th"; a non-negative day gets the English suffix of its last two decimal digits (teens "th", else 1/2/3 give "st"/"nd"/"rd") |
| Utils.LastTwoDigits | src/lib/utils.ts:21-22 | `d % 100` is ten times the tens digit plus the ones digit, so `k !== 11` compares the tens digit |
| Utils.OrdinalPeriodic | src/lib/utils.ts:20-27 | adding a multiple of 100 to a day does not change its suffix |
| Utils.OrdinalExamples | src/lib/utils.ts:20-27 | 1, 2, 3, 4, 11, 12, 13, 21, 22, 23, 31, 111 give st, nd, rd, th, th, th, th, st, nd, rd, st, th |
| Utils.AlnumSuffixLen | src/lib/utils.ts:39 | the length of the longest ASCII alphanumeric suffix: every char in it is alphanumeric and the char before it is not |
| Utils.Ext | src/lib/utils.ts:38-41 | the result is "" or lower-case alphanumeric; it is non-empty iff `\.([a-z0-9]+)$` matches somewhere; at any match position it is the lower-cased text after that dot |
| Utils.ExtAtDot | src/lib/utils.ts:39 | the pattern can match only at the dot just before the alphanumeric suffix, so the match is unique |
| Utils.ExtExamples | src/lib/utils.ts:38-41 | "a.tar.GZ" gives "gz", "photo.JPeG" gives "jpeg"; "README", "a." and "a.b-c" give "" |
| Utils.IsImageExt | src/lib/utils.ts:43-45 | true iff the ASCII-lower-cased extension is exactly png, jpg, jpeg, gif, bmp, webp or svg |
| Utils.ImageExtOfExt | src/lib/utils.ts:43-45 | on the output of `ext`, the test is plain membership in the image set, and never holds for "" |
| Utils.IsImageExtAccepts | src/lib/utils.ts:44 | "PNG", "jpg", "JpEg" and "svg" are images |
| Utils.IsImageExtRejects | src/lib/utils.ts:44 | "", "jpgg", "pdf" and "jpe" are not: the pattern is anchored at both ends |
| Utils.LargestUnit | src/lib/utils.ts:13-16 | the largest i <= k with n >= 1024^i, or 0; no larger index up to k qualifies |
| Utils.Bytes | src/lib/utils.ts:8-18 | a non-finite number gives "—"; otherwise the unit is Units[LargestUnit(n, 4)], the value times 1024^index is n, and the decimals are 0 for bytes and 2 otherwise |
| Utils.UnitIndexIsLargest | src/lib/utils.ts:13 | the loop's exit condition fixes its index at LargestUnit |
| Utils.UnitExamples | src/lib/utils.ts:13-17 | 1023 stays in B, 1024 is KB, 1048576 is MB, a negative number stays in B, 1024^7 stops at TB |
| UriDecode.HexValue | src/app/page.tsx:111 | a hex digit denotes a value below 16 |
| UriDecode.OctetAt | src/app/page.tsx:111 | an octet is read exactly where '%' is followed by two hex digits; its value is 16 times the first digit's plus the second's, below 256 |
| UriDecode.DecodeGroup | src/app/page.tsx:111 | an escape group, when well formed, spans between 3 chars and the rest of the input |
| UriDecode.PercentDecode | src/app/page.tsx:111 | `decodeURIComponent`: the result is never longer than the input, is empty only for empty input, and text without '%' comes back unchanged |
| UriDecode.PercentEncode | src/app/page.tsx:111 | the encoding is at least as long as the text and holds only '%', hex digits and unreserved chars |
| UriDecode.DecodeEncodedChar | src/app/page.tsx:111 | decoding an encoded char followed by more text yields that char followed by the decoding of the rest |
| UriDecode.DecodeInvertsEncode | src/app/page.tsx:111 | decoding inverts percent-encoding, for every string |
| UriDecode.DecodeTwoOctetExample | src/app/page.tsx:111 | "%C3%A9" decodes to U+00E9 |
| UriDecode.DecodePlainExample | src/app/page.tsx:111 | "report.pdf" decodes to itself |
| UriDecode.DecodeEscapeExample | src/app/page.tsx:111 | "a%20b" decodes to "a b" |
| UriDecode.BadEscapeFails | src/app/page.tsx:111 | for every input, a '%' anywhere that is not followed by two hex digits makes the decoding throw |
| UriDecode.MalformedExamples | src/app/page.tsx:111 | "100%", "%zz", a truncated "%C3" and the overlong "%C0%80" all throw |
| Disposition.ValueEnd | src/app/page.tsx:110 | the greedy `[^";]+` run: every char up to the end is a value char and the next one is not |
| Disposition.FirstFit | src/app/page.tsx:110 | the first alternative, in backtracking order, with which the pattern matches; none before it fits |
| Disposition.MatchAt | src/app/page.tsx:110 | a match at a position captures a non-empty run of value chars |
| Disposition.Leftmost | src/app/page.tsx:110 | the first position with a match is taken, and every earlier one has none |
| Disposition.FilenameParam | src/app/page.tsx:110-111 | `m && m[1]`: when present, a non-empty run of chars other than '"' and ';' |
| Disposition.DefaultName | src/app/page.tsx:108 | `fallbackName \|\| \`file-${id}\``: never empty |
| Disposition.DownloadName | src/app/page.tsx:108-111 | without a parameter the default name; with one, its percent-decoding, None where decoding throws; a name is never empty |
| Disposition.MatchAtCharacterized | src/app/page.tsx:110 | the pattern matches at a position iff some alternative fits there; the first one that fits decides the capture |
| Disposition.FilenameParamLeftmost | src/app/page.tsx:110 | the parameter is the capture at the leftmost matching position, and None when no position matches |
| Disposition.NoMatchWithoutF | src/app/page.tsx:110 | no match starts at a char other than f or F |
| Disposition.PastLead | src/app/page.tsx:110 | after a lead-in without the letter f, the parameter is the match right behind it |
| Disposition.NoFNoParam | src/app/page.tsx:110 | a header without the letter f has no filename parameter |
| Disposition.NoStar | src/app/page.tsx:110 | the four alternatives with `\*` cannot fit where `filename` is followed by '=' |
| Disposition.CaptureBehind | src/app/page.tsx:110 | an alternative followed by a run of value chars and a char that ends it fits and captures exactly that run |
| Disposition.ParamBehindLead | src/app/page.tsx:110 | behind a lead-in without f, an alternative that is the first to fit yields the run behind it |
| Disposition.ExtendedForm | src/app/page.tsx:110 | `filename*=UTF-8''<enc>` yields enc for any non-empty percent-encoded text |
| Disposition.ExtendedFormRoundTrip | src/app/page.tsx:108-111 | a name sent as `filename*=UTF-8''` plus its percent-encoding is saved under exactly that name (section 3.2 of RFC 8187) |
| Disposition.QuotedForm | src/app/page.tsx:108-111 | a name sent as `filename="<v>"` without '%' is saved under v (section 4.1 of RFC 6266) |
| Disposition.NoHeaderUsesFallback | src/app/page.tsx:108-109 | with no header the name is the fallback, or `file-<id>` when the fallback is absent or empty |
| Disposition.QuotedExample | src/app/page.tsx:108-111 | `filename="report.pdf"` gives report.pdf |
| Disposition.InlineExample | src/app/page.tsx:108-111 | the header `inline` keeps the fallback name |
| Disposition.BadEscapeFailsDownload | src/app/page.tsx:110-111 | for every header whose captured value holds a '%' not followed by two hex digits, no name is derived and the download fails |
| Disposition.MalformedEscapeFails | src/app/page.tsx:110-111 | `filename=100%` captures "100%", whose decoding throws, so no name is derived |
| Disposition.EmptyExtendedValue | src/app/page.tsx:110 | in `filename*=UTF-8''` with nothing after it, the optional part is given back and the capture is `UTF-8''` itself |
| FileList.RemoveById | src/app/page.tsx:133 | `prev.filter((f) => f.ID !== id)`: no row keeps the ID, a row survives iff it was there with another ID, and the list does not grow |
| FileList.RemoveKeepsOrder | src/app/page.tsx:133 | the surviving rows are a subsequence of the old list |
| FileList.RemoveCounts | src/app/page.tsx:133 | each row with another ID survives as often as it occurred; rows with the ID occur zero times |
| FileList.RemoveDistributes | src/app/page.tsx:133 | filtering a concatenation filters each part |
| FileList.RemoveAbsent | src/app/page.tsx:133 | a list without the ID is unchanged |
| FileList.RemoveIdempotent | src/app/page.tsx:133 | deleting the same ID twice is deleting it once |
| FileList.RemovePreservesUnique | src/app/page.tsx:133 | deleting keeps IDs unique |
| FileList.PrependUnique | src/app/page.tsx:90 | prepending the uploaded record keeps IDs unique iff its ID is new |
| FileList.UploadThenDelete | src/app/page.tsx:90 | deleting a freshly uploaded record restores the previous list |
| Blobs.Browser.constructor | src/app/page.tsx:112 | no object URL is live or issued at the start |
| Blobs.Browser.CreateObjectUrl | src/app/page.tsx:112 | `URL.createObjectURL` returns a URL that was never live, makes it live and logs its creation |
| Blobs.Browser.SaveAs | src/app/page.tsx:113-118 | the anchor click saves the URL under the filename and changes no URL |
| Blobs.Browser.RevokeObjectUrl | src/app/page.tsx:119 | `URL.revokeObjectURL` removes the URL from the live set and logs it |
| Blobs.CreatedCount | src/app/page.tsx:112 | the log records the creation of a URL at all exactly when the count is positive |
| Blobs.RevokedCount | src/app/page.tsx:119 | the log records the revocation of a URL at all exactly when the count is positive |
| Blobs.NotYetCreated | src/app/page.tsx:112 | a URL whose serial was not yet issued appears in no creation of the log |
| Blobs.CountsAppend | src/app/page.tsx:112-119 | creation and revocation counts add up over a log written in two parts |
| Session.StatusOf | src/app/page.tsx:285 | "Working…" while busy; otherwise msg, or "Ready." when msg is empty; never blank |
| Session.UploadedId | src/app/page.tsx:87-88 | `up.data?.data?.FileID` is kept iff the body, its data and a non-empty FileID are all present |
| Session.UploadRequests | src/app/page.tsx:86-89 | the upload request is always sent; the metadata request follows iff a FileID came back, and asks for that ID |
| Session.DownloadEffects | src/app/page.tsx:112-119 | a download creates its URL once, saves through it, and revokes it once, in that order |
| Session.SaveThroughObjectUrl | src/app/page.tsx:112-119 | one fresh URL is created for the blob, saved under the name and revoked; the live set is as before, and the URL's creation count is 1 |
| Session.Page.constructor | src/app/page.tsx:51-56 | no files, not busy, empty message, dialog closed, nothing picked |
| Session.Page.Status | src/app/page.tsx:285 | for the current fields: "Working…" while `busy`; otherwise `msg` when it is non-empty, else "Ready." |
| Session.Page.SetOpen | src/app/page.tsx:239 | the dialog opens or closes; nothing else changes |
| Session.Page.Choose | src/app/page.tsx:254 | the picked file is replaced; nothing else changes |
| Session.Page.Refresh | src/app/page.tsx:62-74 | the list request is sent while busy; success replaces `files` with the response or [] and says "Loaded."; failure keeps `files` and says "Failed to load files."; busy ends false |
| Session.Page.DoUpload | src/app/page.tsx:79-99 | with nothing picked nothing changes; otherwise busy, open and pick are cleared; success prepends the metadata record and says "Upload complete."; a missing or empty FileID or a failed call keeps `files` and says "Upload failed." |
| Session.Page.DoDownload | src/app/page.tsx:101-126 | success creates, saves under the derived name and revokes exactly one fresh URL, whose creation count over the whole history is 1, and says "Download complete."; a failed call or a malformed escape creates nothing and says "Download failed."; `files` and the live URLs are unchanged |
| Session.Page.DoDelete | src/app/page.tsx:128-140 | success drops every row with the ID and says "Deleted."; failure keeps `files` and says "Delete failed."; busy ends false |
| Session.ProgressMessageHidden | src/app/page.tsx:285 | while busy the line reads "Working…" whatever msg holds, so the progress message set at the start of an operation is never displayed |
| Session.DownloadHistory | src/app/page.tsx:112-119 | over the browser's whole history, a download's fresh URL is created exactly once and revoked once more than before |
| Session.UploadPrependsOnce | src/app/page.tsx:90 | after the prepend the list is one longer, the old rows follow in order, and the new record occurs once more |
| Session.DeleteOutcome | src/app/page.tsx:133 | after a delete no row has the ID, the survivors keep their order, and every other row keeps its multiplicity |
| Thumbnail.ImageFile | src/components/grid-card.tsx:25-26 | `img` holds iff the extension is in the image set, and then the extension is non-empty |
| Thumbnail.GridCard.constructor | src/components/grid-card.tsx:24 | `thumb` starts as "" and no effect has run |
| Thumbnail.GridCard.Img | src/components/grid-card.tsx:25-26 | `img` holds for the current props exactly when the extension of `f.Filename` is in the image set, which it never is when empty |
| Thumbnail.GridCard.ShowsPreview | src/components/grid-card.tsx:50-63 | the preview is drawn iff the file is an image and `thumb` is non-empty; otherwise "No preview" |
| Thumbnail.GridCard.SetProps | src/components/grid-card.tsx:23 | new props leave `thumb` and the runs as they were |
| Thumbnail.GridCard.RunEffect | src/components/grid-card.tsx:28-31 | a run starts active, captures the current `thumb`, and fetches only when `img` holds |
| Thumbnail.GridCard.Resolve | src/components/grid-card.tsx:32-38 | a resolved fetch creates one URL, stored only while its run is active; a failed fetch changes neither `thumb` nor the browser |
| Thumbnail.GridCard.Cleanup | src/components/grid-card.tsx:40-43 | the run becomes inactive; only the captured `thumb` is revoked, and only when non-empty; the current `thumb` is kept |
| Thumbnail.UnmountKeepsThumbLive | src/components/grid-card.tsx:28-44 | mount, fetch, unmount: the preview is shown and its URL is never revoked, because the cleanup captured "" |
| Thumbnail.LateResultIsDropped | src/components/grid-card.tsx:36-37 | a fetch settling after cleanup creates a URL that is not stored and stays live |
| Thumbnail.NonImageNeverFetches | src/components/grid-card.tsx:31 | for a non-image file the run starts no fetch, `thumb` stays "" and the placeholder is shown |

## Left out

- Networking, `FormData` and the axios instance of `src/lib/axios.ts` are replaced by the outcome parameters. Each outcome is `Ok(value)` or `Err`, and the client never looks at the reason for a rejection.
- The mount-time `refresh()` of the page's effect (page.tsx:75-77) is the caller calling `Session.Page.Refresh` right after the constructor; the effect itself is not modelled.
- Overlapping operations are not modelled. Each operation runs from start to `finally` in one step. The race of two operations on the single `busy` flag is outside the model.
- The API-key state and its `localStorage`/environment default (page.tsx:43-60) are not modelled.
- The view toggle, the table columns, the dialog markup and all other JSX are not modelled. So are `cn` and `humanDate`, which depends on `Date` and the locale's month names.
- Utils.Bytes: the printed digits of `v.toFixed(...)` are not modelled, because that is decimal rounding of a float. The result holds the exact value, its decimal count and its unit.
- Utils.Bytes: finite numbers are reals. Division by 1024 is exact in binary floating point, so the unit choice is unaffected.
- Utils.Ordinal: only integer days are modelled. `humanDate` (utils.ts:29-33) passes `new Date(iso).getDate()`, which is NaN for a non-empty `iso` that does not parse; the source then returns "th", because every `===` comparison with NaN fails. That NaN case is not modelled.
- Utils.Ext: a `null` or `undefined` name (the `name?.` guard) is not modelled; names are strings.
- Strings are sequences of Unicode scalar values, not UTF-16 code units. A lone surrogate in a header cannot be written, and `decodeURIComponent`'s output is compared as scalar values too.
- Session.Page.DoUpload: `files` holds FileRow values, so the metadata record enters the list through its FileRow fields. The extra `ChunksCount` the JavaScript object carries is dropped.
- Session.Page.DoDownload: the blob and header are taken as the response gives them. Axios' header normalisation is not modelled, and a header that is present but empty reads like a missing one, as `|| ""` makes it.
- Thumbnail.GridCard.RunEffect: React's scheduling is a caller obligation. The effect runs after the previous run's cleanup (the `!runs[|runs| - 1].active` precondition), and the re-run when `f.ID` changes is left to the caller.
- The DOM steps of the download (creating, appending and removing the anchor) are folded into Blobs.Browser.SaveAs.
- Blobs.Browser: object URLs are opaque serial numbers. Their `blob:` text and the saved file on disk are not modelled.
