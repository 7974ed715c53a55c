# Site front end: artwork, release and show forms, session

This project models the logic of a small React front end for a music
artist's site. The model covers six parts:

- **Artwork lookup** (`ArtworkRetriever`). `getAlbumArtURL` asks SoundCloud's oEmbed endpoint for a track's thumbnail. It upgrades the thumbnail URL with two first-occurrence `replace` calls: `-t500x500` becomes `-t1080x1080`, then `.jpg` becomes `.png`. Every failure comes back as one error message.
- **Release creation form** (`CreateRelease`). This covers the URL slug derived from a title (`generateUrlTitle`) and the `prev => next` updaters of the form: field edits, and adding, removing and editing platform links.
- **Show editing page** (`EditShow`). A stored show is mapped onto the form. Its timestamp is cut down to the value format of a `datetime-local` input (WHATWG HTML, section 2.3.5.5, "Local dates and times"). The page also has state that loading, editing and submitting change.
- **Releases page** (`Releases`). This is the `artworkUrls` memo that one run of the effect fills in, and the card background that reads it.
- **Platform link** (`PlatformLink`). This maps a platform string to a label and an action text.
- **Session provider** (`AuthContext`). Its state is the user, the loading flag and the stored `auth_token`. It has three transitions: mount-time verify, login and logout. The `useAuth` guard is modelled too.

Pure code is modelled as datatypes, functions and lemmas. Code that changes
component state step by step is modelled as classes. `Releases.ReleasesPage`
fills its map in a `while` loop, and that loop is proved against the
functional specification `PassOver`. `EditShow.EditShowPage` and
`AuthContext.AuthProvider` have one method per transition.

Network answers are parameters:

- the oEmbed answer (`OEmbedOutcome`);
- the show returned by `GET /shows/{id}`;
- the outcome of `PUT`;
- the outcome of `/auth/verify` and `/auth/login`.

Session storage is the field `storedToken`.

Three points of the code that are easy to misread:

- The second `replace` changes the first `.jpg` anywhere in the already upgraded URL, not only a trailing extension (`ArtworkRetriever.UpgradeThumbFirstOnly`).
- A `thumbnail_url` that is present but empty is rejected like a missing one, because the code tests truthiness.
- `src/types/release.ts:18` leaves `free_download` out of the platforms. The form (`src/pages/admin/CreateRelease.tsx:13`) and the link component both handle it, so `CreateRelease.Platform` includes it.

## Model

| member | source | states |
|---|---|---|
| ArtworkRetriever.ReplaceFirst | src/services/artworkRetriever.ts:17 | `replace` with a string pattern. With no occurrence the string is unchanged. Otherwise only the leftmost occurrence is replaced and the rest of the string is kept. |
| ArtworkRetriever.ReplaceFirstLength | src/services/artworkRetriever.ts:17 | A replacement changes the length by `|rep| - |pat|` exactly when the pattern occurs. |
| ArtworkRetriever.ReplaceFirstAfterPrefix | src/services/artworkRetriever.ts:17 | The replacement passes over a prefix in which no occurrence starts. |
| ArtworkRetriever.UpgradeThumb | src/services/artworkRetriever.ts:17 | The upgraded URL is never shorter than the thumbnail. A thumbnail holding neither `-t500x500` nor `.jpg` comes back unchanged. |
| ArtworkRetriever.UpgradeThumbLength | src/services/artworkRetriever.ts:17 | The upgraded URL is 2 characters longer when `-t500x500` occurs, and the same length otherwise. |
| ArtworkRetriever.MarkerUpgradeKeepsJpgAbsent | src/services/artworkRetriever.ts:17 | Writing `-t1080x1080` never creates a `.jpg` that was not there. |
| ArtworkRetriever.MarkerUpgradeKeepsJpg | src/services/artworkRetriever.ts:17 | Writing `-t1080x1080` never removes a `.jpg` that was there, so the second `replace` still finds it. |
| ArtworkRetriever.JpgUpgradeKeepsMarker | src/services/artworkRetriever.ts:17 | Turning `.jpg` into `.png` never removes the `-t1080x1080` written by the first `replace`. |
| ArtworkRetriever.UpgradeThumbIndependent | src/services/artworkRetriever.ts:17 | Each substitution happens exactly when its own marker is present, whether or not the other one is. A `.jpg` survives the marker step exactly when the thumbnail had one. With `-t500x500` the result holds `-t1080x1080`, and with `.jpg` it holds `.png`. With only one marker present, only its substitution happens. With neither, the output equals the input. |
| ArtworkRetriever.UpgradeThumbShape | src/services/artworkRetriever.ts:16-17 | `base + "-t500x500" + ".jpg"` becomes `base + "-t1080x1080" + ".png"` for any base that holds neither marker. |
| ArtworkRetriever.SampleBaseHasNoMarker | src/services/artworkRetriever.ts:16-17 | `https://i1.sndcdn.com/artworks-XYZ` holds neither marker. |
| ArtworkRetriever.UpgradeThumbExample | src/services/artworkRetriever.ts:16-17 | `https://i1.sndcdn.com/artworks-XYZ-t500x500.jpg` becomes `https://i1.sndcdn.com/artworks-XYZ-t1080x1080.png`. |
| ArtworkRetriever.UpgradeThumbFirstOnly | src/services/artworkRetriever.ts:17 | In `a.jpg/b-t500x500-t500x500.jpg` only the first marker is upgraded. The first `.jpg`, which is not the extension, becomes `.png`. |
| ArtworkRetriever.Attempt | src/services/artworkRetriever.ts:2-17 | The `try` block yields a URL exactly for an ok response with a non-empty string `thumbnail_url`, and that URL is the upgraded thumbnail. Each throw has its own cause: a rejected fetch, "Failed to fetch SoundCloud data" for a non-ok status, a JSON failure, "Thumbnail not found" for a missing or falsy thumbnail, and a failed `replace` call on a truthy non-string. |
| ArtworkRetriever.GetAlbumArtUrl | src/services/artworkRetriever.ts:1-22 | A URL comes back exactly for an ok response with a non-empty string `thumbnail_url`, and it is that thumbnail upgraded and no shorter. A network error, a non-ok status, bad JSON, or a missing, empty or non-string thumbnail all fail with "Failed to fetch SoundCloud artwork". |
| CreateRelease.ToLower | src/pages/admin/CreateRelease.tsx:33 | The result is never an ASCII capital. Capitals move 32 code points up, to their lower-case letters; other characters are kept. |
| CreateRelease.Lower | src/pages/admin/CreateRelease.tsx:33 | Same length, lowered character by character. |
| CreateRelease.KeepAllowed | src/pages/admin/CreateRelease.tsx:34 | Only characters of `[a-z0-9\s-]` remain. The letters and digits are all kept, in order. A string of allowed characters is unchanged. A single character is kept exactly when it is allowed. |
| CreateRelease.KeepAllowedAppend | src/pages/admin/CreateRelease.tsx:34 | Filtering a concatenation concatenates the filtered parts. With the one-character case, every allowed character, white space and hyphens included, stays in place and every other one goes. |
| CreateRelease.Collapse | src/pages/admin/CreateRelease.tsx:35-36 | A non-empty input gives a non-empty output. It begins with `-` when the input begins with a run of the class, and otherwise with the input's first character. |
| CreateRelease.CollapseRun | src/pages/admin/CreateRelease.tsx:35-36 | Text free of the class is kept, the maximal run after it becomes exactly one `-`, and the collapse goes on after the run. |
| CreateRelease.CollapseChars | src/pages/admin/CreateRelease.tsx:35-36 | The output holds only `-` and characters of the input outside the class. |
| CreateRelease.CollapseKeepsAlnums | src/pages/admin/CreateRelease.tsx:35-36 | Collapsing runs keeps every letter and digit, in order. |
| CreateRelease.CollapseNoDoubleHyphen | src/pages/admin/CreateRelease.tsx:36 | After the hyphen pass no `--` remains. |
| CreateRelease.CollapseFixed | src/pages/admin/CreateRelease.tsx:35-36 | A string with no run character, or for hyphens one with no `--`, is unchanged. |
| CreateRelease.TrimFront | src/pages/admin/CreateRelease.tsx:37 | The `^-` alternative. The result is a suffix of the input, one character shorter exactly when the input starts with `-`. Letters and digits are kept. A string without `--` no longer starts with `-`. |
| CreateRelease.TrimBack | src/pages/admin/CreateRelease.tsx:37 | The `-$` alternative. The result is a prefix of the input, one character shorter exactly when the input ends with `-`. Letters and digits are kept. A string without `--` no longer ends with `-`. |
| CreateRelease.TrimHyphens | src/pages/admin/CreateRelease.tsx:37 | The result is the input with its first character removed exactly when that is `-`. Its last character is removed exactly when that is `-` and is not the one already removed. Letters and digits are kept. A string without `--` comes out with no leading or trailing `-`. A string without edge hyphens is unchanged. |
| CreateRelease.TrimHyphensChars | src/pages/admin/CreateRelease.tsx:37 | Trimming adds no character. |
| CreateRelease.GenerateUrlTitle | src/pages/admin/CreateRelease.tsx:31-38 | The output holds only `a-z`, `0-9` and `-`, has no `--`, and does not begin or end with `-`. Its letters and digits are exactly those of the lowered title, in order. |
| CreateRelease.PassesFixSlug | src/pages/admin/CreateRelease.tsx:33-36 | Lowering, filtering and both collapses leave a slug unchanged. |
| CreateRelease.GenerateUrlTitleFixesSlug | src/pages/admin/CreateRelease.tsx:31-38 | A string that already is a slug is its own URL title. |
| CreateRelease.GenerateUrlTitleIdempotent | src/pages/admin/CreateRelease.tsx:31-38 | Applying `generateUrlTitle` to its own output changes nothing. |
| CreateRelease.GenerateUrlTitleEmpty | src/pages/admin/CreateRelease.tsx:33-37 | The URL title is "" exactly when the title has no ASCII letter or digit. |
| CreateRelease.Words | src/pages/admin/CreateRelease.tsx:35-36 | Reference definition: every word is a non-empty segment without white space or hyphens, and a string that starts with a word has at least one. |
| CreateRelease.CollapseTwoPasses | src/pages/admin/CreateRelease.tsx:35-36 | The space pass followed by the hyphen pass equals one collapse of every mixed run of white space and hyphens. |
| CreateRelease.TrimCollapsedSeparators | src/pages/admin/CreateRelease.tsx:35-37 | Trimming that collapse leaves exactly the words joined by single hyphens. |
| CreateRelease.GenerateUrlTitleWords | src/pages/admin/CreateRelease.tsx:31-38 | The URL title is the words of the lowered, filtered title joined by single hyphens. Each run of white space and hyphens between two words becomes one `-`, and runs at either end disappear. |
| CreateRelease.WordsExample | src/pages/admin/CreateRelease.tsx:35-36 | The words of `a b` are `a` and `b`, joined as `a-b`. |
| CreateRelease.GenerateUrlTitleExample | src/pages/admin/CreateRelease.tsx:31-38 | The title `A b` gets the URL title `a-b`. |
| CreateRelease.PlatformKey | src/pages/admin/CreateRelease.tsx:13 | Each platform's string is non-empty. |
| CreateRelease.PlatformKeyInjective | src/pages/admin/CreateRelease.tsx:13 | Distinct platforms have distinct strings. |
| CreateRelease.SetField | src/pages/admin/CreateRelease.tsx:43-46 | The named field takes the value. Every other field and the links are unchanged. |
| CreateRelease.HandleInputChange | src/pages/admin/CreateRelease.tsx:40-54 | A title edit sets the title and sets `url_title` to the slug of the new title. Any other edit, including `url_title` itself, changes only that field. |
| CreateRelease.FirstAvailable | src/pages/admin/CreateRelease.tsx:60-63 | `None` exactly when every platform of the order is in use. Otherwise the result is an unused platform, and every platform before it in the order is in use. |
| CreateRelease.AddLink | src/pages/admin/CreateRelease.tsx:57-73 | With all four platforms in use the form is unchanged. Otherwise exactly one link is appended, with an empty URL and the first unused platform of `[spotify, apple_music, youtube, free_download]`. The earlier links and the other fields are kept. |
| CreateRelease.AddLinkKeepsDistinct | src/pages/admin/CreateRelease.tsx:59-71 | `addLink` never adds a platform that is already in use, so distinct platforms stay distinct. |
| CreateRelease.AddLinkOffers | src/pages/admin/CreateRelease.tsx:61-71 | If the platforms before the i-th are in use and the i-th is not, a link to the i-th is appended. |
| CreateRelease.AddLinkAfterOffered | src/pages/admin/CreateRelease.tsx:61-71 | After the first m platforms have been offered, the next one is offered. |
| CreateRelease.AddLinkWhenAllOffered | src/pages/admin/CreateRelease.tsx:65-67 | Once all four have been offered, `addLink` returns the form as it was. |
| CreateRelease.AddLinkFillsInOrder | src/pages/admin/CreateRelease.tsx:57-73 | Presses on a fresh form add Spotify, Apple Music, YouTube and Free Download in that order. Every later press changes nothing. |
| CreateRelease.WithoutIndex | src/pages/admin/CreateRelease.tsx:79 | The filter drops exactly position `index` when it is in range, and drops nothing otherwise. |
| CreateRelease.RemoveLink | src/pages/admin/CreateRelease.tsx:76-81 | The link at `index` is dropped and the others keep their order. An out-of-range index leaves the form unchanged, and no other field changes. |
| CreateRelease.EditAt | src/pages/admin/CreateRelease.tsx:86-88 | Same length. Only position `index` is edited. |
| CreateRelease.UpdateLink | src/pages/admin/CreateRelease.tsx:83-90 | Only the named field of link `index` changes. The list length, all other links and the other fields are unchanged, and an out-of-range index changes nothing. |
| EditShow.Split | src/pages/admin/EditShow.tsx:43 | `split` gives at least one piece, no piece holds the separator, and joining the pieces gives back the input. |
| EditShow.SplitWithoutSeparator | src/pages/admin/EditShow.tsx:43 | A string without the separator is a single piece. |
| EditShow.SplitAtFirst | src/pages/admin/EditShow.tsx:43 | The first piece is the text before the first separator. |
| EditShow.SplitJoin | src/pages/admin/EditShow.tsx:43 | Splitting inverts joining separator-free pieces. |
| EditShow.Substring | src/pages/admin/EditShow.tsx:43 | `substring(0, n)` is the prefix of length min(n, length). |
| EditShow.JoinAfterFirst | src/pages/admin/EditShow.tsx:43 | The second piece is a prefix of what follows the first separator. |
| EditShow.FormatShowDate | src/pages/admin/EditShow.tsx:43 | The expression throws (`None`) exactly when the date has no `T`. Otherwise it gives a prefix of the stored date. |
| EditShow.FormatShowDateShape | src/pages/admin/EditShow.tsx:43 | The result is the text before the first `T`, then `T`, then at most 5 characters of the segment up to the next `T`. |
| EditShow.FormatIsoTimestamp | src/pages/admin/EditShow.tsx:43 | `2024-05-17T20:30:00.000Z` becomes `2024-05-17T20:30`. |
| EditShow.ShowToForm | src/pages/admin/EditShow.tsx:37-44 | Fails exactly when the date has no `T`. Venue, city, state/province and country are copied verbatim, and a missing ticket link loads as "". |
| EditShow.SetField | src/pages/admin/EditShow.tsx:60-63 | The named field alone changes. |
| EditShow.SubmitErrorMessage | src/pages/admin/EditShow.tsx:76 | The message is never empty. It is the server's message when the server sent a non-empty one, and "FAILED TO UPDATE SHOW" otherwise. |
| EditShow.EditShowPage.constructor | src/pages/admin/EditShow.tsx:17-27 | Empty form, no error, not submitting, loading data. |
| EditShow.EditShowPage.FetchShow | src/pages/admin/EditShow.tsx:31-56 | With no route id nothing happens. Otherwise loading ends either way. On success the form is the mapped show. When the fetch fails or the date has no `T`, the error is "FAILED TO LOAD SHOW" and the form keeps its old values. |
| EditShow.EditShowPage.HandleInputChange | src/pages/admin/EditShow.tsx:58-64 | Only the named form field changes. |
| EditShow.EditShowPage.BeginSubmit | src/pages/admin/EditShow.tsx:68-69 | Before the put is awaited, the error is empty and the page is submitting. The form and data-loading flag do not change. |
| EditShow.EditShowPage.SettleSubmit | src/pages/admin/EditShow.tsx:71-78 | A resolved put navigates to `/shows` and leaves the error and submitting flag as they were. A rejected put stays on the page, sets the server message or "FAILED TO UPDATE SHOW", and ends the submitting state. |
| EditShow.EditShowPage.HandleSubmit | src/pages/admin/EditShow.tsx:66-79 | The pending state of `BeginSubmit`, then the settled one. After success the error is empty, the page is still submitting, and it navigates to `/shows`. After failure it stays on the page with the message and submitting ends. The form never changes. |
| EditShow.LoadShowWithoutTime | src/pages/admin/EditShow.tsx:17-50 | Loading a show whose date has no `T` leaves the empty form, sets "FAILED TO LOAD SHOW", and ends data loading. |
| Releases.Step | src/pages/Releases.tsx:15-24 | An eligible release whose fetch succeeds is stored under its id. Every other case leaves the map alone. |
| Releases.Eligible | src/pages/Releases.tsx:15 | A release whose id already has a truthy artwork entry on the snapshot, or whose SoundCloud URL is empty, is never fetched. |
| Releases.Fetch | src/pages/Releases.tsx:17 | The awaited `getAlbumArtURL` either gives a non-empty URL or throws "Failed to fetch SoundCloud artwork". |
| Releases.PassOver | src/pages/Releases.tsx:14-26 | The callbacks in array order never remove an entry. When no release is eligible the map is unchanged. `ReleasesPage.RunEffect`'s loop is proved equal to it. |
| Releases.FetchedUrls | src/pages/Releases.tsx:15-17 | Every URL passed to `getAlbumArtURL` is non-empty. `FetchedUrlsExactly` says which URLs these are. |
| Releases.PassOverChanges | src/pages/Releases.tsx:17-21 | Keys only grow. An entry changes only for the id of an eligible release whose fetch succeeded, and then to that fetch's URL. Stored URLs stay non-empty. |
| Releases.PassOverStoresSuccesses | src/pages/Releases.tsx:15-21 | Every eligible release whose fetch succeeds has artwork after the pass. |
| Releases.PassOverKeepsFailuresEligible | src/pages/Releases.tsx:22-28 | If every eligible release with an id fails, the entry is unchanged and those releases are eligible again on the next run: failures are not cached. |
| Releases.PassOverSkipsEmptyUrls | src/pages/Releases.tsx:15 | An id whose releases all lack a SoundCloud URL gains no artwork. |
| Releases.FetchedUrlsExactly | src/pages/Releases.tsx:15-17 | A URL is fetched exactly when some release with it has no truthy artwork entry on the snapshot and a non-empty URL. There are no more calls than releases. |
| Releases.FetchedUrlsCount | src/pages/Releases.tsx:14-17 | One call per eligible release: the number of calls equals the number of positions whose release is eligible on the snapshot. |
| Releases.FetchedUrlsNoneEligible | src/pages/Releases.tsx:15-17 | When every release already has artwork or lacks a URL, the effect makes no call. |
| Releases.ReleasesPage.constructor | src/pages/Releases.tsx:9 | The memo starts empty. |
| Releases.ReleasesPage.RunEffect | src/pages/Releases.tsx:12-28 | With no releases nothing changes and nothing is fetched. Otherwise the loop leaves the map the functional pass gives, and the URLs it fetches, in order, are those of the releases eligible on the map the effect closed over. The class invariant is kept. |
| Releases.ReleasesPage.CardBackground | src/pages/Releases.tsx:55-59 | A background image appears exactly when the id has a truthy entry, and it is that URL. |
| PlatformLink.PlatformName | src/components/releases/PlatformLink.tsx:10-25 | An unknown string is returned unchanged. A known one gets a non-empty label different from it. |
| PlatformLink.ActionText | src/components/releases/PlatformLink.tsx:27-29 | "Download" exactly for `free_download`, and "Play" for every other string. |
| PlatformLink.PlatformNameTable | src/components/releases/PlatformLink.tsx:11-21 | The label of each of the five known platforms. |
| PlatformLink.PlatformNameIdentity | src/components/releases/PlatformLink.tsx:22-23 | A string is shown unchanged exactly when the switch does not know it. |
| PlatformLink.PlatformNameDistinct | src/components/releases/PlatformLink.tsx:11-21 | The five known platforms get five different labels. |
| PlatformLink.PlatformNameCollides | src/components/releases/PlatformLink.tsx:10-23 | Every label is itself a string the switch does not know, so it is displayed as itself. It therefore looks like the platform it labels: the string `Spotify` is shown as `spotify` is. |
| PlatformLink.FormPlatformsLabelled | src/components/releases/PlatformLink.tsx:10-29 | Every platform the release form can store is known to the switch and gets its own label. Only the free download reads "Download". |
| AuthContext.UseAuth | src/context/AuthContext.tsx:7-13 | Succeeds exactly inside a provider, with the provider's value. Outside one it fails with "useAuth must be used within an AuthProvider". |
| AuthContext.AuthProvider.constructor | src/context/AuthContext.tsx:19-21 | The provider starts with no user and loading. |
| AuthContext.AuthProvider.Mount | src/context/AuthContext.tsx:23-41 | Verify is asked exactly when a truthy token is stored, and loading ends either way. Success sets the user. Failure removes the token and keeps the user. With no token nothing else changes. |
| AuthContext.AuthProvider.Login | src/context/AuthContext.tsx:43-53 | Success stores the token and sets the user. Failure re-raises and changes neither. |
| AuthContext.AuthProvider.Logout | src/context/AuthContext.tsx:55-58 | From any state, the token is removed and the user is cleared. |
| AuthContext.AuthProvider.Value | src/context/AuthContext.tsx:60-65 | The context value carries the current user and loading flag. |
| AuthContext.OpenApp | src/context/AuthContext.tsx:19-41 | After mount, loading has ended. A session is restored only from a truthy token that the server accepts. A rejected token is removed. |

## Left out

- ArtworkRetriever.ReplaceFirst: copies the replacement literally. JavaScript's `$` substitution patterns (`$$`, `$&`, `` $` ``, `$'`) in the replacement are not expanded; the two calls in `src/services/artworkRetriever.ts:17` use replacements without `$`.
- The HTTP requests, JSON decoding and `encodeURIComponent` are not modelled: their outcomes are parameters. This covers `fetch` of the oEmbed endpoint, `api.get`, `api.put` and `api.post`. Console logging and navigation other than the returned route are not modelled either.
- A `thumbnail_url` that is a truthy non-string is modelled as a failure, because its missing `replace` throws. An object carrying its own `replace` method is not modelled.
- `toLowerCase` and `\s` beyond ASCII: `CreateRelease.ToLower` lowers `A`-`Z` only. Non-ASCII case mappings that produce ASCII letters (the Kelvin sign, `İ`) are not modelled. `\s` is modelled with its full ECMAScript set.
- `handleInputChange` with an input `name` outside the form's fields: the model's field names are the `name` attributes of the rendered inputs.
- `CreateRelease.UpdateLink` takes a platform from `CreateRelease.Platform`, the values of the select. The string `updateLink` receives is not otherwise checked by the source.
- The disabled state of options and of the add button is not modelled. It is rendering only, and `addLink` has its own guard, which is modelled.
- `handleSubmit` of the release form is not modelled. It is a post and a navigation, the same pattern as `EditShow.EditShowPage.HandleSubmit`.
- Show records whose fields are not strings are not modelled, for example a missing `show_date`, whose `split` would throw.
- Releases.ReleasesPage.RunEffect: the async callbacks of `forEach` are modelled as running in array order, with the order in which fetches settle taken as that order. The eligibility checks use the map the effect closed over, which is what the code reads. React's scheduling of effect re-runs is not modelled.
- Releases.Fetch gives one oEmbed answer per URL within a run, so two releases with the same URL fail or succeed together.
- AuthContext.AuthProvider.Mount: the class invariant (a signed-in user has a truthy token) is promised only when no user was signed in before the verify settled. A login that completes while the mount-time verify is pending is concurrency and is not modelled.
- AuthContext.AuthProvider.Login: the invariant is promised only when the server returns a non-empty token. An empty token is stored but is falsy.
- Dates shown through `Date` and `toLocaleDateString` are not modelled, because they depend on locale and time zone. The same goes for the react-query hooks, pages with only JSX, the show creation and login pages, and `src/types` beyond the datatypes used here.
