/**
 * Choosing the full-resolution address of one catalog item from its asset
 * manifest (the list of every file variant of the item), and upgrading
 * addresses to the secure scheme.
 */
module AssetUrls {
  import opened Wrappers
  import opened JsString

  /** `url.replace('http://', 'https://')`: the first `http://`, wherever it stands, becomes `https://`. */
  function UpgradeScheme(url: string): (r: string)
  {
    ReplaceFirst(url, "http://", "https://")
  }

  /** An address is left alone exactly when it has no `http://` in it. */
  lemma UpgradeSchemeUnchangedIff(url: string)
    ensures UpgradeScheme(url) == url <==> !Includes(url, "http://")
  {
    ReplaceFirstUnchangedIff(url, "http://", "https://");
  }

  /** An address beginning with `http://` comes out beginning with `https://`, the rest unchanged. */
  lemma UpgradeSchemeHttpPrefix(url: string)
    requires |url| >= 7 && url[..7] == "http://"
    ensures UpgradeScheme(url) == "https://" + url[7..]
  {
    assert MatchAt(url, "http://", 0);
    ReplaceFirstAtStart(url, "http://", "https://");
  }

  /** The filter of the manifest: `url.endsWith('.jpg') || url.endsWith('.png')`. */
  predicate IsImageUrl(url: string)
  {
    EndsWith(url, ".jpg") || EndsWith(url, ".png")
  }

  /** Upgrading the scheme keeps a `.jpg` or `.png` ending. */
  lemma UpgradeSchemeKeepsImage(url: string)
    requires IsImageUrl(url)
    ensures IsImageUrl(UpgradeScheme(url))
  {
    if EndsWith(url, ".jpg") {
      ReplaceFirstKeepsSuffix(url, "http://", "https://", ".jpg");
    } else {
      ReplaceFirstKeepsSuffix(url, "http://", "https://", ".png");
    }
  }

  /** `manifest.filter(url => url.endsWith('.jpg') || url.endsWith('.png'))`. */
  function KeepImages(manifest: seq<string>): (r: seq<string>)
    ensures |r| <= |manifest|
    ensures forall u :: u in r <==> u in manifest && IsImageUrl(u)
  {
    if manifest == [] then []
    else if IsImageUrl(manifest[0]) then [manifest[0]] + KeepImages(manifest[1..])
    else KeepImages(manifest[1..])
  }

  /** Filtering keeps the manifest's order: it distributes over concatenation. */
  lemma {:induction false} KeepImagesAppend(a: seq<string>, b: seq<string>)
    ensures KeepImages(a + b) == KeepImages(a) + KeepImages(b)
  {
    if a == [] {
      assert a + b == b;
    } else {
      assert (a + b)[1..] == a[1..] + b;
      KeepImagesAppend(a[1..], b);
    }
  }

  /** `.map(url => url.replace('http://', 'https://'))`. */
  function UpgradeAll(urls: seq<string>): (r: seq<string>)
    ensures |r| == |urls|
  {
    seq(|urls|, i requires 0 <= i < |urls| => UpgradeScheme(urls[i]))
  }

  /** The filtered and upgraded manifest (`imageUrls`). */
  function ImageUrls(manifest: seq<string>): (r: seq<string>)
  {
    UpgradeAll(KeepImages(manifest))
  }

  /** Every address of `imageUrls` ends in `.jpg` or `.png`. */
  lemma ImageUrlsAreImages(manifest: seq<string>)
    ensures forall u :: u in ImageUrls(manifest) ==> IsImageUrl(u)
  {
    var kept := KeepImages(manifest);
    forall k | 0 <= k < |kept| ensures IsImageUrl(ImageUrls(manifest)[k]) {
      assert kept[k] in kept;
      UpgradeSchemeKeepsImage(kept[k]);
    }
  }

  /** `imageUrls` is empty exactly when the manifest has no `.jpg` or `.png` entry. */
  lemma ImageUrlsEmptyIff(manifest: seq<string>)
    ensures ImageUrls(manifest) == [] <==> forall u :: u in manifest ==> !IsImageUrl(u)
  {
    var kept := KeepImages(manifest);
    if kept != [] {
      assert kept[0] in kept;
    }
  }

  /** Filtering and upgrading keep the manifest's order: they distribute over concatenation. */
  lemma ImageUrlsAppend(a: seq<string>, b: seq<string>)
    ensures ImageUrls(a + b) == ImageUrls(a) + ImageUrls(b)
  {
    KeepImagesAppend(a, b);
  }

  /** JavaScript truthiness of a string-or-undefined: `undefined` and `''` are falsy. */
  predicate Truthy(v: Option<string>)
  {
    v.Some? && v.value != ""
  }

  /** `a || b` on strings-or-undefined. */
  function Or(a: Option<string>, b: Option<string>): Option<string>
  {
    if Truthy(a) then a else b
  }

  /** `v || fallback`, where the fallback is a string. */
  function OrElse(v: Option<string>, fallback: string): string
  {
    if Truthy(v) then v.value else fallback
  }

  /** `k` is the index of the first address of `urls` that contains `pat`. */
  ghost predicate FirstContaining(urls: seq<string>, pat: string, k: nat)
  {
    k < |urls| && Includes(urls[k], pat) && forall j :: 0 <= j < k ==> !Includes(urls[j], pat)
  }

  /** No address of `urls` contains `pat`. */
  ghost predicate NoneContaining(urls: seq<string>, pat: string)
  {
    forall j :: 0 <= j < |urls| ==> !Includes(urls[j], pat)
  }

  /** The index `urls.find(url => url.includes(pat))` stops at, scanning from the front. */
  function FindIndex(urls: seq<string>, pat: string): (r: Option<nat>)
    ensures r.Some? ==> FirstContaining(urls, pat, r.value)
    ensures r.None? ==> NoneContaining(urls, pat)
  {
    if urls == [] then None
    else if Includes(urls[0], pat) then Some(0)
    else match FindIndex(urls[1..], pat)
      case None => None
      case Some(k) => Some(k + 1)
  }

  /** `urls.find(url => url.includes(pat))`, with `undefined` written as `None`. */
  function Find(urls: seq<string>, pat: string): Option<string>
  {
    match FindIndex(urls, pat)
    case None => None
    case Some(k) => Some(urls[k])
  }

  /** `urls[0]`, which is `undefined` on an empty array. */
  function First(urls: seq<string>): Option<string>
  {
    if urls == [] then None else Some(urls[0])
  }

  /**
   * `find('~orig.') || find('~large.') || imageUrls[0]`, then `fullImageUrl || ''`
   * when the record is built.
   */
  function PickFullImageUrl(urls: seq<string>): string
  {
    OrElse(Or(Or(Find(urls, "~orig."), Find(urls, "~large.")), First(urls)), "")
  }

  /**
   * The preference order: the first `~orig.` address, else the first `~large.`
   * address, else the first address, else `''`.
   */
  lemma PickFullImageUrlPreference(urls: seq<string>)
    ensures forall k: nat :: FirstContaining(urls, "~orig.", k) ==> PickFullImageUrl(urls) == urls[k]
    ensures NoneContaining(urls, "~orig.") ==>
      forall k: nat :: FirstContaining(urls, "~large.", k) ==> PickFullImageUrl(urls) == urls[k]
    ensures NoneContaining(urls, "~orig.") && NoneContaining(urls, "~large.") && urls != [] ==>
      PickFullImageUrl(urls) == urls[0]
    ensures urls == [] ==> PickFullImageUrl(urls) == ""
  {
    match FindIndex(urls, "~orig.")
    case Some(i) =>
      assert urls[i] != "" by { var p: nat :| MatchAt(urls[i], "~orig.", p); }
    case None =>
      match FindIndex(urls, "~large.")
      case Some(i) =>
        assert urls[i] != "" by { var p: nat :| MatchAt(urls[i], "~large.", p); }
      case None =>
  }

  /** `fullImageUrl` as built for a manifest. */
  function FullImageUrl(manifest: seq<string>): string
  {
    PickFullImageUrl(ImageUrls(manifest))
  }

  /** A non-empty `fullImageUrl` is one of `imageUrls`, so it ends in `.jpg` or `.png`. */
  lemma FullImageUrlIsImage(manifest: seq<string>)
    ensures FullImageUrl(manifest) != "" ==>
      FullImageUrl(manifest) in ImageUrls(manifest) && IsImageUrl(FullImageUrl(manifest))
  {
    var urls := ImageUrls(manifest);
    ImageUrlsAreImages(manifest);
    match FindIndex(urls, "~orig.")
    case Some(i) =>
      assert urls[i] in urls;
    case None =>
      match FindIndex(urls, "~large.")
      case Some(i) =>
        assert urls[i] in urls;
      case None =>
        if urls != [] {
          assert urls[0] in urls;
        }
  }

  /** `fullImageUrl` is `''` exactly when the manifest has no `.jpg` or `.png` entry. */
  lemma FullImageUrlEmptyIff(manifest: seq<string>)
    ensures FullImageUrl(manifest) == "" <==> forall u :: u in manifest ==> !IsImageUrl(u)
  {
    var urls := ImageUrls(manifest);
    ImageUrlsEmptyIff(manifest);
    ImageUrlsAreImages(manifest);
    PickFullImageUrlPreference(urls);
    if urls != [] {
      assert urls[0] in urls;
      match FindIndex(urls, "~orig.")
      case Some(i) =>
        assert urls[i] in urls;
      case None =>
        match FindIndex(urls, "~large.")
        case Some(i) =>
          assert urls[i] in urls;
        case None =>
    }
  }
}
