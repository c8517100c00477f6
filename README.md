# Wallsy image search, modelled in Dafny

Wallsy is a mobile wallpaper browser over the NASA image library. Its one
piece of real logic is `fetchImage` (api/index.ts): it sends the search term to
the catalog search endpoint, keeps the first 20 items of the response, and for
each item in order fetches the item's asset manifest (the list of every file
variant of the image), picks a full-resolution address from it, derives a
thumbnail address from the item's first link, and hands a `NASAImage` record to
the caller's callback. An item whose processing throws is logged and skipped;
a failed catalog request is logged and rethrown.

The model has four modules:

- `Wrappers` (wrappers.dfy): `Option`, with `None` standing for JavaScript's `undefined`.
- `JsString` (js_string.dfy): the string primitives the routine uses, with
  their JavaScript meaning: `indexOf`, `includes`, `endsWith`, and `replace`
  with a string pattern, which replaces only the first occurrence, wherever it is.
- `AssetUrls` (asset_urls.dfy): the pure address pipeline: the `.jpg`/`.png`
  filter, the `http://` to `https://` rewrite, the `~orig.` / `~large.` /
  first-entry preference with JavaScript's `||` on strings, and `fullImageUrl`.
- `ImageSearch` (image_search.dfy): items, records, the thumbnail, the record
  built for one item, and `FetchImage`, a method whose loop walks the truncated
  items and appends each record to the output sequence that stands for the
  callback. Its result is tied to the function `Delivered`, and the lemmas
  about `Delivered` give the order, bound and failure-isolation properties.

The two network requests are parameters. `Catalog` maps the search address to
the response's `collection.items`, or `None` when the request (or the access to
`collection.items`) throws. `AssetLookup` maps the call's ordinal and the item's
`href` to the manifest, or `None` when that request or the manifest's use throws.
The ordinal is the item's index, because every item is looked up once, in order.

Behaviour of the code worth knowing:

- `fetchImage` hands each record to the callback once, after that item's
  manifest lookup has completed, and handles the items one after another.
- `url.replace('http://', 'https://')` rewrites the first `http://` anywhere in
  the address (`UpgradeScheme`). An address `https://a/?u=http://b.jpg`
  therefore becomes `https://a/?u=https://b.jpg`.
- Any error of the catalog step is rethrown, including a response without
  `collection.items`.
- An item is skipped when `item.data` is empty, because `item.data[0].title`
  then throws.

## Model

| member | source | states |
|---|---|---|
| JsString.IndexOfFrom | api/index.ts:32-33 | the index returned is an occurrence of the pattern at or after the start, with none between; `None` means there is no occurrence at or after the start |
| JsString.IndexOf | api/index.ts:32-33 | the result is the first occurrence of the pattern; `None` means it does not occur at all |
| JsString.Includes | api/index.ts:32-33 | `includes` holds exactly when the pattern occurs at some position |
| JsString.ReplaceFirst | api/index.ts:30 | without an occurrence the string is unchanged; otherwise exactly the first occurrence is replaced |
| JsString.ReplaceFirstUnchangedIff | api/index.ts:30 | when pattern and replacement differ in length, replacing leaves the string equal to itself exactly when the pattern does not occur |
| JsString.ReplaceFirstAtStart | api/index.ts:30 | a string starting with the pattern gets the replacement at its front and keeps its remainder |
| JsString.ReplaceFirstKeepsSuffix | api/index.ts:29-30 | a suffix free of the pattern's last character survives the replacement |
| AssetUrls.UpgradeSchemeUnchangedIff | api/index.ts:30 | the scheme rewrite leaves an address unchanged exactly when it contains no `http://` |
| AssetUrls.UpgradeSchemeHttpPrefix | api/index.ts:30 | an address starting with `http://` comes out as `https://` followed by the rest of the address, unchanged |
| AssetUrls.UpgradeSchemeKeepsImage | api/index.ts:29-30 | an address ending in `.jpg` or `.png` still does so after the rewrite |
| AssetUrls.KeepImages | api/index.ts:28-29 | the filter keeps exactly the manifest entries ending in `.jpg` or `.png`, and never more entries than the manifest has |
| AssetUrls.KeepImagesAppend | api/index.ts:28-29 | the filter keeps relative order: filtering a concatenation concatenates the filtered parts |
| AssetUrls.ImageUrlsAppend | api/index.ts:28-30 | filtering then rewriting keeps the manifest's relative order |
| AssetUrls.ImageUrlsAreImages | api/index.ts:28-30 | every address of `imageUrls` ends in `.jpg` or `.png` |
| AssetUrls.ImageUrlsEmptyIff | api/index.ts:28-30 | `imageUrls` is empty exactly when no manifest entry ends in `.jpg` or `.png` |
| AssetUrls.FindIndex | api/index.ts:32-33 | `find` stops at the first address containing the pattern; `None` means no address contains it |
| AssetUrls.PickFullImageUrlPreference | api/index.ts:32-34 | the pick is the first `~orig.` address, else the first `~large.` address, else the first address, else `''` |
| AssetUrls.FullImageUrlIsImage | api/index.ts:28-34 | a non-empty `fullImageUrl` is an element of `imageUrls` and ends in `.jpg` or `.png` |
| AssetUrls.FullImageUrlEmptyIff | api/index.ts:28-42 | `fullImageUrl` is `''` exactly when the manifest has no `.jpg` or `.png` entry |
| ImageSearch.Truncate | api/index.ts:18 | the processed items are a prefix of the response of at most 20 items: all of them when there are at most 20, else exactly 20 |
| ImageSearch.ThumbnailUrlSpec | api/index.ts:41 | the thumbnail is `''` without links; otherwise it is the first link's address with its scheme rewritten, so an `http://` address comes out `https://` and one without `http://` is unchanged |
| ImageSearch.BuildRecord | api/index.ts:36-43 | a record is built exactly when `item.data` is non-empty; title, description, identifier and creation date are copied from `item.data[0]`, `fullImageUrl` is the preference pick of the manifest's image addresses (`FullImageUrl`), and so it is `''` or one of those addresses |
| ImageSearch.DeliveredBound | api/index.ts:20-43 | the callback fires at most once per processed item |
| ImageSearch.DeliveredFromSucceeded | api/index.ts:20-47 | the j-th record delivered is the record of the j-th item whose processing succeeded |
| ImageSearch.SucceededIncreasing | api/index.ts:20-47 | succeeding items are taken in catalog order, each at most once |
| ImageSearch.SucceededComplete | api/index.ts:20-47 | every item whose processing succeeds is delivered, whatever failed before it |
| ImageSearch.DeliveredInCatalogOrder | api/index.ts:20-47 | records arrive in catalog order, one for each succeeding item and none for a failing one |
| ImageSearch.DeliveredAll | api/index.ts:20-43 | when no item fails, every item is delivered, in catalog order |
| ImageSearch.FetchImage | api/index.ts:15-51 | a failed catalog request is rethrown with no callback made; otherwise the callbacks are exactly `Delivered` of the first 20 items, and there are at most 20 of them |

## Left out

- The HTTP requests (axios) are parameters of `FetchImage`; what the endpoints return is not modelled.
- The 100 ms pause before each asset request is a timer with no effect on the values delivered.
- `console.error` logging on both error paths has no observable effect on results.
- The error value that is rethrown is not modelled; `FetchImage` reports only that the catalog step failed.
- Field values that JavaScript could leave `undefined` (a metadata field, a non-string manifest entry) are not modelled: metadata fields are strings, and a manifest whose use throws is the lookup's `None`.
- The search term is put into the address without URL encoding; the model keeps it so but does not model how the endpoint parses the address.
- A callback that throws would make the item count as failed; the callback here is an append that cannot throw.
- The screens, audio player, theme context, layout and native-module type declarations are not part of this model.
